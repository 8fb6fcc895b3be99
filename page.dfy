/** The already-fetched page both extractors work on, in place of the HTTP
    response and the BeautifulSoup tree built from it. */
module Page {
  import opened Wrappers

  /** One tag of the parsed document: its name, its class attribute and the
      text `get_text(strip=True)` gives for it. */
  datatype Element = Element(tag: string, classes: set<string>, text: string)

  /** A `(tag, class)` pair as handed to `soup.find(tag, class_=cls)`. */
  datatype Selector = Selector(tag: string, cls: string)

  /** What the extractors see of a response: the HTTP status, the length
      of the raw body in bytes (`len(response.content)`), the decoded body
      (`response.text`), the visible text of the document
      (`soup.get_text()`) and its elements in document order. */
  datatype Response = Response(
    status: int,
    contentLength: nat,
    body: string,
    visibleText: string,
    elements: seq<Element>)

  /** What one extraction concluded. Callers only see `ToOption()`: every
      case except `Price` becomes `None`, and the cases differ only in the
      log line written for them. */
  datatype Extraction<P> = Price(value: P) | Blocked | NotFound | HttpError(status: int)
  {
    function ToOption(): (r: Option<P>)
      ensures r.Some? <==> this.Price?
      ensures r.Some? ==> r.value == value
    {
      if Price? then Some(value) else None
    }
  }

  predicate Matches(e: Element, sel: Selector)
  {
    e.tag == sel.tag && sel.cls in e.classes
  }

  /** `soup.find(tag, class_=cls)`: the index of the first element, in
      document order, with that tag and that class among its classes. */
  function FindFirst(els: seq<Element>, sel: Selector): (r: Option<nat>)
    ensures r.None? ==> forall j :: 0 <= j < |els| ==> !Matches(els[j], sel)
    ensures r.Some? ==> r.value < |els| && Matches(els[r.value], sel)
    ensures r.Some? ==> forall j :: 0 <= j < r.value ==> !Matches(els[j], sel)
  {
    if els == [] then None
    else if Matches(els[0], sel) then Some(0)
    else match FindFirst(els[1..], sel)
      case None => None
      case Some(i) => Some(i + 1)
  }

  /** Elements added after the first match are never consulted. */
  lemma FindFirstIgnoresLater(els: seq<Element>, more: seq<Element>, sel: Selector)
    requires FindFirst(els, sel).Some?
    ensures FindFirst(els + more, sel) == FindFirst(els, sel)
  {
    var i := FindFirst(els, sel).value;
    var r := FindFirst(els + more, sel);
    assert forall j :: 0 <= j < |els| ==> (els + more)[j] == els[j];
  }

  /** The first present value of a sequence of attempts: the value of the
      first selector that succeeds, `None` if none does. */
  function FirstSome<T>(xs: seq<Option<T>>): Option<T>
  {
    if xs == [] then None
    else if xs[0].Some? then xs[0]
    else FirstSome(xs[1..])
  }

  /** The first success decides: `FirstSome` is `Some(v)` exactly when some
      attempt gives `v` and every earlier attempt gives nothing. */
  lemma {:induction false} FirstSomeIff<T>(xs: seq<Option<T>>, v: T)
    ensures FirstSome(xs) == Some(v) <==>
      exists k :: 0 <= k < |xs| && xs[k] == Some(v) && forall j :: 0 <= j < k ==> xs[j].None?
  {
    if xs != [] && xs[0].None? {
      FirstSomeIff(xs[1..], v);
      if FirstSome(xs) == Some(v) {
        var k :| 0 <= k < |xs[1..]| && xs[1..][k] == Some(v) && forall j :: 0 <= j < k ==> xs[1..][j].None?;
        assert xs[k + 1] == Some(v);
        assert forall j :: 0 <= j < k + 1 ==> xs[j].None? by {
          forall j | 0 <= j < k + 1 ensures xs[j].None? {
            if j > 0 { assert xs[j] == xs[1..][j - 1]; }
          }
        }
      } else {
        forall k | 0 <= k < |xs| && xs[k] == Some(v) ensures exists j :: 0 <= j < k && xs[j].Some? {
          assert k != 0;
          var j :| 0 <= j < k - 1 && xs[1..][j].Some?;
          assert xs[j + 1].Some?;
        }
      }
    } else if xs != [] {
      assert xs[0].Some?;
    }
  }

  /** `FirstSome` is `None` exactly when every attempt gives nothing. */
  lemma {:induction false} FirstSomeNone<T>(xs: seq<Option<T>>)
    ensures FirstSome(xs).None? <==> forall k :: 0 <= k < |xs| ==> xs[k].None?
  {
    if xs != [] && xs[0].None? {
      FirstSomeNone(xs[1..]);
      assert forall k :: 1 <= k < |xs| ==> xs[k] == xs[1..][k - 1];
    }
  }

  /** When every attempt gives nothing, so does `FirstSome`. */
  lemma {:induction false} FirstSomeAllNone<T>(xs: seq<Option<T>>)
    requires forall k :: 0 <= k < |xs| ==> xs[k].None?
    ensures FirstSome(xs) == None
  {
    if xs != [] {
      assert forall k :: 0 <= k < |xs[1..]| ==> xs[1..][k] == xs[k + 1];
      FirstSomeAllNone(xs[1..]);
    }
  }

  /** Once the attempts before position `k` have all failed, the result is
      decided by the attempts from `k` on. */
  lemma {:induction false} FirstSomeFrom<T>(xs: seq<Option<T>>, k: nat)
    requires k <= |xs|
    requires forall j :: 0 <= j < k ==> xs[j].None?
    ensures FirstSome(xs) == FirstSome(xs[k..])
  {
    if k > 0 {
      assert xs[1..][k - 1..] == xs[k..];
      FirstSomeFrom(xs[1..], k - 1);
    }
  }
}
