/** `fetch_amazon_price` in src/scraper.py from the moment the response is
    in hand: the status gate, the small-page gate, the block-phrase gate and
    the ordered selector walk with its digit-run cleanup and floor of 100. */
module Scraper {
  import opened Wrappers
  import opened Text
  import opened Page

  /** A body shorter than this many bytes is suspect. */
  const SmallPageBytes: nat := 10000

  /** Values at or below this are treated as fragments, not prices. */
  const Floor: nat := 100

  /** The three case-sensitive phrases that mark a block or CAPTCHA page. */
  const BlockPhrases: seq<string> := ["Enter the characters", "Please try again", "robot"]

  /** The selectors in the order they are tried. */
  const Selectors: seq<Selector> := [
    Selector("span", "a-price-whole"),
    Selector("span", "a-offscreen"),
    Selector("span", "priceToPay"),
    Selector("span", "apexPriceToPay")
  ]

  /** The page looks like an interstitial: small, and no rupee sign in the
      decoded body. */
  predicate LooksTruncated(r: Response)
  {
    r.contentLength < SmallPageBytes && Rupee !in r.body
  }

  /** Some block phrase occurs in the visible text of the page. */
  predicate BlockDetected(text: string)
  {
    exists k :: 0 <= k < |BlockPhrases| && Contains(text, BlockPhrases[k])
  }

  /** The `.replace` chain applied to an element's text: every `₹`, `$`,
      `,` and `.` is deleted. */
  function Clean(txt: string): string
  {
    RemoveAll(RemoveAll(RemoveAll(RemoveAll(txt, [Rupee]), ['$']), [',']), ['.'])
  }

  /** What the cleanup leaves: exactly the characters of `txt` other than
      the four it deletes, none of those four. */
  lemma CleanCounts(txt: string)
    ensures multiset(Clean(txt)) == multiset(txt)[Rupee := 0]['$' := 0][',' := 0]['.' := 0]
    ensures Rupee !in Clean(txt) && '$' !in Clean(txt) && ',' !in Clean(txt) && '.' !in Clean(txt)
  {
    var a := RemoveAll(txt, [Rupee]);
    var b := RemoveAll(a, "$");
    var c := RemoveAll(b, ",");
    RemoveCharCounts(txt, Rupee);
    RemoveCharCounts(a, '$');
    RemoveCharCounts(b, ',');
    RemoveCharCounts(c, '.');
    var m := multiset(Clean(txt));
    assert m[Rupee] == 0 && m['$'] == 0 && m[','] == 0 && m['.'] == 0;
  }

  /** One selector's verdict: the first matching element is found, its
      cleaned text has a run of digits, and the value of the first run is
      above the floor. */
  function SelectorValue(els: seq<Element>, sel: Selector): Option<nat>
  {
    match FindFirst(els, sel)
    case None => None
    case Some(i) =>
      match FirstDigitRun(Clean(els[i].text))
      case None => None
      case Some(run) =>
        var price := DigitsValue(run);
        if price > Floor then Some(price) else None
  }

  /** The verdict of every selector, in order. */
  function Attempts(els: seq<Element>, sels: seq<Selector>): seq<Option<nat>>
  {
    seq(|sels|, k requires 0 <= k < |sels| => SelectorValue(els, sels[k]))
  }

  /** The outcome of `fetch_amazon_price` after the request, with the case
      that the log line tells apart. */
  function Extract(r: Response): Extraction<nat>
  {
    if r.status != 200 then HttpError(r.status)
    else if LooksTruncated(r) then Blocked
    else if BlockDetected(r.visibleText) then Blocked
    else match FirstSome(Attempts(r.elements, Selectors))
      case None => NotFound
      case Some(price) => Price(price)
  }

  /** One pass of the loop body: look up the first element matching
      `sel`, clean its text, take the first run of digits and keep it only
      above the floor. */
  method TrySelector(els: seq<Element>, sel: Selector) returns (price: Option<nat>)
    ensures price == SelectorValue(els, sel)
  {
    var elem := FindFirst(els, Selector(sel.tag, sel.cls));
    if elem.None? {
      return None;
    }
    var txt := els[elem.value].text;
    txt := Clean(txt);
    var numbers := FirstDigitRun(txt);
    if numbers.None? {
      return None;
    }
    var value := DigitsValue(numbers.value);
    if value > Floor {
      return Some(value);
    }
    return None;
  }

  /** The `for tag, cls in selectors` loop of `fetch_amazon_price`: each
      selector in order, first matching element only, returning the first
      value that survives cleanup and the floor. */
  method WalkSelectors(els: seq<Element>, sels: seq<Selector>) returns (price: Option<nat>)
    ensures price == FirstSome(Attempts(els, sels))
  {
    ghost var attempts := Attempts(els, sels);
    for n := 0 to |sels|
      invariant forall j :: 0 <= j < n ==> attempts[j].None?
    {
      var value := TrySelector(els, sels[n]);
      if value.Some? {
        FirstSomeFrom(attempts, n);
        return value;
      }
    }
    FirstSomeAllNone(attempts);
    return None;
  }

  /** `fetch_amazon_price` once the response is in: the three gates, then
      the selector walk; every failure is `None`. */
  method FetchAmazonPrice(r: Response) returns (price: Option<nat>)
    ensures price == Extract(r).ToOption()
  {
    if r.status != 200 {
      return None;
    }
    if r.contentLength < SmallPageBytes {
      if Rupee !in r.body {
        return None;
      }
    }
    if BlockDetected(r.visibleText) {
      return None;
    }
    price := WalkSelectors(r.elements, Selectors);
  }

  // ---------------------------------------------------------------------
  // Properties
  // ---------------------------------------------------------------------

  /** A non-200 status gives `None` whatever the page holds. */
  lemma StatusGate(r: Response, r': Response)
    requires r.status != 200 && r'.status == r.status
    ensures Extract(r) == Extract(r') == HttpError(r.status)
    ensures Extract(r).ToOption() == None
  {
  }

  /** A small body without a rupee sign is rejected before any selector
      is looked at: the elements make no difference. */
  lemma SmallPageGate(r: Response, els: seq<Element>)
    requires r.status == 200 && r.contentLength < SmallPageBytes && Rupee !in r.body
    ensures Extract(r) == Blocked && Extract(r.(elements := els)) == Blocked
  {
  }

  /** A block phrase anywhere in the visible text wins over any price
      element the page carries. */
  lemma BlockPrecedence(r: Response, k: nat, pre: string, post: string)
    requires r.status == 200 && !LooksTruncated(r)
    requires k < |BlockPhrases| && r.visibleText == pre + BlockPhrases[k] + post
    ensures Extract(r) == Blocked
  {
    ContainsInContext(pre, BlockPhrases[k], post);
  }

  /** The converse: past the two gates, no phrase in the text means the
      selectors decide. */
  lemma NoBlockPhrase(r: Response)
    requires r.status == 200 && !LooksTruncated(r)
    requires forall k :: 0 <= k < |BlockPhrases| ==> forall i: nat :: !OccursAt(r.visibleText, BlockPhrases[k], i)
    ensures Extract(r).Price? || Extract(r).NotFound?
  {
    forall k | 0 <= k < |BlockPhrases| ensures !Contains(r.visibleText, BlockPhrases[k]) {
      ContainsIff(r.visibleText, BlockPhrases[k]);
    }
  }

  /** Every price returned is above the floor of 100. */
  lemma PriceAboveFloor(r: Response)
    requires Extract(r).Price?
    ensures Extract(r).value > Floor
  {
    var v := Extract(r).value;
    FirstSomeIff(Attempts(r.elements, Selectors), v);
    var k :| 0 <= k < |Attempts(r.elements, Selectors)| && Attempts(r.elements, Selectors)[k] == Some(v)
      && forall j :: 0 <= j < k ==> Attempts(r.elements, Selectors)[j].None?;
    assert SelectorValue(r.elements, Selectors[k]) == Some(v);
  }

  /** An accepted value is the decimal value of the first maximal run of
      digits in the first matching element's text once `₹ $ , .` are
      deleted, and it is above the floor. */
  lemma AcceptedIsFirstDigitRun(els: seq<Element>, sel: Selector, v: nat)
    requires SelectorValue(els, sel) == Some(v)
    ensures FindFirst(els, sel).Some?
    ensures var txt := Clean(els[FindFirst(els, sel).value].text);
      exists i, j :: IsFirstRun(txt, i, j) && AllDigits(txt[i..j]) && v == DigitsValue(txt[i..j])
    ensures v > Floor
  {
    FirstDigitRunSpec(Clean(els[FindFirst(els, sel).value].text));
  }

  /** Selector order decides: the result is the value of selector `k`
      exactly when selector `k` accepts it and every earlier selector
      accepts nothing, whatever the later ones hold. */
  lemma PriorityOrder(r: Response, v: nat)
    requires r.status == 200 && !LooksTruncated(r) && !BlockDetected(r.visibleText)
    ensures Extract(r) == Price(v) <==>
      exists k :: 0 <= k < |Selectors| && SelectorValue(r.elements, Selectors[k]) == Some(v)
        && forall j :: 0 <= j < k ==> SelectorValue(r.elements, Selectors[j]).None?
  {
    FirstSomeIff(Attempts(r.elements, Selectors), v);
    assert forall k :: 0 <= k < |Selectors| ==> Attempts(r.elements, Selectors)[k] == SelectorValue(r.elements, Selectors[k]);
  }

  /** Past the gates the result is "not found" exactly when no selector
      accepts: every selector falls through. */
  lemma NotFoundWhenAllFallThrough(r: Response)
    requires r.status == 200 && !LooksTruncated(r) && !BlockDetected(r.visibleText)
    ensures Extract(r) == NotFound <==>
      forall k :: 0 <= k < |Selectors| ==> SelectorValue(r.elements, Selectors[k]).None?
  {
    FirstSomeNone(Attempts(r.elements, Selectors));
    assert forall k :: 0 <= k < |Selectors| ==> Attempts(r.elements, Selectors)[k] == SelectorValue(r.elements, Selectors[k]);
  }

  /** Only the first element matching a selector is examined: elements
      placed after it, however they are tagged, change nothing. */
  lemma OnlyFirstMatchExamined(els: seq<Element>, more: seq<Element>, sel: Selector)
    requires FindFirst(els, sel).Some?
    ensures SelectorValue(els + more, sel) == SelectorValue(els, sel)
  {
    FindFirstIgnoresLater(els, more, sel);
    var i := FindFirst(els, sel).value;
    assert (els + more)[i] == els[i];
  }

  // ---------------------------------------------------------------------
  // What the cleanup does to a price text
  // ---------------------------------------------------------------------

  /** The characters a rendered price is made of: digits and the four the
      cleanup deletes. */
  predicate PriceChars(s: string)
  {
    forall k :: 0 <= k < |s| ==> IsDigit(s[k]) || s[k] == Rupee || s[k] == '$' || s[k] == ',' || s[k] == '.'
  }

  lemma CleanCons(x: char, t: string)
    ensures Clean([x] + t) == (if x == Rupee || x == '$' || x == ',' || x == '.' then [] else [x]) + Clean(t)
  {
    var a := RemoveAll(t, [Rupee]);
    var b := RemoveAll(a, ['$']);
    var c := RemoveAll(b, [',']);
    RemoveCharCons(x, t, Rupee);
    if x != Rupee {
      RemoveCharCons(x, a, '$');
      if x != '$' {
        RemoveCharCons(x, b, ',');
        if x != ',' {
          RemoveCharCons(x, c, '.');
        }
      }
    }
  }

  /** On a price text the cleanup keeps exactly the digits, in order. */
  lemma {:induction false} CleanKeepsDigits(s: string)
    requires PriceChars(s)
    ensures Clean(s) == KeepDigits(s)
    decreases |s|
  {
    if s != [] {
      assert s == [s[0]] + s[1..];
      CleanCons(s[0], s[1..]);
      CleanKeepsDigits(s[1..]);
    }
  }

  /** So a first matching element holding a price text with at least one
      digit is read as all of its digits run together, and accepted when
      that number is above the floor. */
  lemma PriceTextValue(els: seq<Element>, sel: Selector)
    requires FindFirst(els, sel).Some?
    requires var t := els[FindFirst(els, sel).value].text; PriceChars(t) && KeepDigits(t) != []
    ensures var v := DigitsValue(KeepDigits(els[FindFirst(els, sel).value].text));
      SelectorValue(els, sel) == if v > Floor then Some(v) else None
  {
    var d := KeepDigits(els[FindFirst(els, sel).value].text);
    CleanKeepsDigits(els[FindFirst(els, sel).value].text);
    FirstRunOfDigits(d);
  }

  /** Deleting the period merges the paise into the number: a text made of
      a whole part `w` (digits with `₹`, `$` or `,` among them), a period
      and the digits `f` is read as the digits of `w` and `f` run
      together, so `"₹70,000.00"` is read as 7000000. */
  lemma PaiseMerged(els: seq<Element>, sel: Selector, w: string, f: string)
    requires FindFirst(els, sel).Some? && els[FindFirst(els, sel).value].text == w + "." + f
    requires PriceChars(w) && KeepDigits(w) != [] && AllDigits(f)
    ensures AllDigits(KeepDigits(w) + f)
    ensures var v := DigitsValue(KeepDigits(w) + f);
      SelectorValue(els, sel) == if v > Floor then Some(v) else None
  {
    var t := w + "." + f;
    assert PriceChars(t) by {
      forall k | 0 <= k < |t|
        ensures IsDigit(t[k]) || t[k] == Rupee || t[k] == '$' || t[k] == ',' || t[k] == '.'
      {
        if k < |w| {
          assert t[k] == w[k];
        } else if k > |w| {
          assert t[k] == f[k - |w| - 1];
        }
      }
    }
    var d := KeepDigits(w);
    KeepDigitsConcat(w + ".", f);
    KeepDigitsConcat(w, ".");
    KeepDigitsOfDigits(f);
    assert KeepDigits(".") == [];
    assert d + [] == d;
    assert KeepDigits(t) == d + f;
    PriceTextValue(els, sel);
  }

  /** The cleanup leaves `"Page 1 of 2"` alone. */
  lemma PageTextClean()
    ensures Clean("Page 1 of 2") == "Page 1 of 2"
  {
    var t := "Page 1 of 2";
    assert forall k :: 0 <= k < |t| ==> t[k] in "Pageof 12";
    CleanUnchanged(t);
  }

  /** The first digit run of `"Page 1 of 2"` is `"1"`. */
  lemma PageTextRun()
    ensures FirstDigitRun("Page 1 of 2") == Some("1")
  {
    assert !IsDigit('P') && !IsDigit('a') && !IsDigit('g') && !IsDigit('e') && !IsDigit(' ');
    assert NoDigit("Page ");
    assert "Page " + "1" + " of 2" == "Page 1 of 2";
    FirstRunInContext("Page ", "1", " of 2");
  }

  /** A worked case of the first-run rule: a first matching element reading
      `"Page 1 of 2"` reads as 1, which the floor then rejects. */
  lemma PageNumberRun(els: seq<Element>, sel: Selector)
    requires FindFirst(els, sel).Some? && els[FindFirst(els, sel).value].text == "Page 1 of 2"
    ensures FirstDigitRun(Clean(els[FindFirst(els, sel).value].text)) == Some("1")
    ensures SelectorValue(els, sel) == None
  {
    PageTextClean();
    PageTextRun();
    assert DigitsValue("1") == 1;
  }

  /** Text free of the four deleted characters is left as it is. */
  lemma {:induction false} CleanUnchanged(txt: string)
    requires Rupee !in txt && '$' !in txt && ',' !in txt && '.' !in txt
    ensures Clean(txt) == txt
  {
    RemoveCharAbsent(txt, Rupee);
    RemoveCharAbsent(txt, '$');
    RemoveCharAbsent(txt, ',');
    RemoveCharAbsent(txt, '.');
  }
}
