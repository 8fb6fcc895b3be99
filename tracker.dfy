/** The standalone tracker of src/tracker.py: the status and CAPTCHA gates
    and the truthiness test of `AmazonPriceTracker.fetch_price`, the
    selector walk of `extract_price_logic` with its `float` parse, and the
    log-or-notify decision of `job`. */
module Tracker {
  import opened Wrappers
  import opened Text
  import opened Page

  /** The one phrase that marks a CAPTCHA page. */
  const CaptchaPhrase: string := "Enter the characters you see below"

  /** The currency literal the cleanup deletes, as the source file holds
      it: the UTF-8 bytes of the rupee sign (E2 82 B9) read as
      Windows-1252, that is U+00E2 U+201A U+00B9. It is not the rupee
      sign U+20B9. */
  const MisencodedRupee: string := ['\U{E2}', '\U{201A}', '\U{B9}']

  /** The selectors in the order they are tried: `apexPriceToPay` comes
      before `priceToPay` here. */
  const TrackerSelectors: seq<Selector> := [
    Selector("span", "a-price-whole"),
    Selector("span", "a-offscreen"),
    Selector("span", "apexPriceToPay"),
    Selector("span", "priceToPay")
  ]

  /** The `.replace` chain of `extract_price_logic`: the currency literal,
      `$` and `,` are deleted, the period is kept. */
  function CleanText(raw: string): string
  {
    RemoveAll(RemoveAll(RemoveAll(raw, MisencodedRupee), ['$']), [','])
  }

  /** The cleanup deletes every `$` and `,`, and keeps every character that
      is neither of those nor part of the currency literal, as often as it
      occurs: the period and the real rupee sign among them. */
  lemma {:induction false} CleanTextEffect(raw: string, c: char)
    requires c !in MisencodedRupee && c != '$' && c != ','
    ensures '$' !in CleanText(raw) && ',' !in CleanText(raw)
    ensures multiset(CleanText(raw))[c] == multiset(raw)[c]
  {
    var a := RemoveAll(raw, MisencodedRupee);
    var b := RemoveAll(a, ['$']);
    RemoveAllKeeps(raw, MisencodedRupee, c);
    RemoveCharCounts(a, '$');
    RemoveCharCounts(b, ',');
    assert multiset(b)['$'] == 0;
    assert multiset(CleanText(raw))['$'] == 0 && multiset(CleanText(raw))[','] == 0;
  }

  /** A real rupee sign survives the cleanup, so text carrying one never
      parses as a number. */
  lemma {:induction false} RupeeBlocksParse(raw: string)
    requires Rupee in raw
    ensures ParseDecimal(CleanText(raw)).None?
  {
    CleanTextEffect(raw, Rupee);
    var t := CleanText(raw);
    assert Rupee in multiset(t);
    var k :| 0 <= k < |t| && t[k] == Rupee;
    assert !IsDigit(t[k]) && t[k] != '.';
    ParseDecimalSpec(t);
  }

  /** One selector's verdict: the first matching element is found and its
      cleaned text parses as a plain decimal. */
  function ParsedValue(els: seq<Element>, sel: Selector): Option<real>
  {
    match FindFirst(els, sel)
    case None => None
    case Some(i) => ParseDecimal(CleanText(els[i].text))
  }

  /** The verdict of every selector, in order. */
  function ParseAttempts(els: seq<Element>, sels: seq<Selector>): seq<Option<real>>
  {
    seq(|sels|, k requires 0 <= k < |sels| => ParsedValue(els, sels[k]))
  }

  /** One pass of the loop body: look up the first element matching
      `sel`, clean its text and try `float` on it; a `ValueError` moves on
      to the next selector. */
  method TrySelector(els: seq<Element>, sel: Selector) returns (parsed: Option<real>)
    ensures parsed == ParsedValue(els, sel)
  {
    var element := FindFirst(els, Selector(sel.tag, sel.cls));
    if element.None? {
      return None;
    }
    var rawText := els[element.value].text;
    var cleanText := CleanText(rawText);
    parsed := ParseDecimal(cleanText);
  }

  /** The `for tag, class_name in selectors` loop of `extract_price_logic`:
      the first selector whose element text parses wins; text that does
      not parse moves on to the next selector. */
  method WalkSelectors(els: seq<Element>, sels: seq<Selector>) returns (price: Option<real>)
    ensures price == FirstSome(ParseAttempts(els, sels))
  {
    ghost var attempts := ParseAttempts(els, sels);
    for n := 0 to |sels|
      invariant forall j :: 0 <= j < n ==> attempts[j].None?
    {
      var parsed := TrySelector(els, sels[n]);
      if parsed.Some? {
        FirstSomeFrom(attempts, n);
        return parsed;
      }
    }
    FirstSomeAllNone(attempts);
    return None;
  }

  /** `extract_price_logic` with its own selector list. */
  method ExtractPriceLogic(els: seq<Element>) returns (price: Option<real>)
    ensures price == FirstSome(ParseAttempts(els, TrackerSelectors))
  {
    price := WalkSelectors(els, TrackerSelectors);
  }

  /** Python truthiness of the extracted price: `None` and `0.0` are false. */
  predicate Truthy(price: Option<real>)
  {
    price.Some? && price.value != 0.0
  }

  /** The outcome of `fetch_price` once the response is in, with the case
      that its log line tells apart. */
  function Fetch(r: Response): Extraction<real>
  {
    if r.status != 200 then HttpError(r.status)
    else if Contains(r.visibleText, CaptchaPhrase) then Blocked
    else
      var price := FirstSome(ParseAttempts(r.elements, TrackerSelectors));
      if Truthy(price) then Price(price.value) else NotFound
  }

  /** `fetch_price` once the response is in: the status gate, the CAPTCHA
      gate, the selector walk and the truthiness test. */
  method FetchPrice(r: Response) returns (price: Option<real>)
    ensures price == Fetch(r).ToOption()
  {
    if r.status != 200 {
      return None;
    }
    if Contains(r.visibleText, CaptchaPhrase) {
      return None;
    }
    price := ExtractPriceLogic(r.elements);
    if !Truthy(price) {
      price := None;
    }
  }

  /** The effects `job` has beyond printing. */
  datatype Action = LogPrice(price: real) | Notify(price: real)

  /** The decision `job` makes on the price of one cycle: a true price is
      always logged, and notified when it is at or below the target; a
      false one is skipped. */
  function CycleActions(price: Option<real>, targetPrice: real): (acts: seq<Action>)
    ensures !Truthy(price) ==> acts == []
    ensures Truthy(price) ==> |acts| > 0 && acts[0] == LogPrice(price.value)
    ensures Truthy(price) ==> (Notify(price.value) in acts <==> price.value <= targetPrice)
    ensures Truthy(price) ==> |acts| == (if price.value <= targetPrice then 2 else 1)
    ensures forall a :: a in acts ==> price.Some? && a.price == price.value
    ensures |acts| <= 2
  {
    if Truthy(price) then
      if price.value <= targetPrice then [LogPrice(price.value), Notify(price.value)]
      else [LogPrice(price.value)]
    else []
  }

  /** One cycle of `job`: fetch, then log and maybe notify. */
  method Job(r: Response, targetPrice: real) returns (acts: seq<Action>)
    ensures acts == CycleActions(Fetch(r).ToOption(), targetPrice)
  {
    var price := FetchPrice(r);
    if Truthy(price) {
      acts := [LogPrice(price.value)];
      if price.value <= targetPrice {
        acts := acts + [Notify(price.value)];
      }
    } else {
      acts := [];
    }
  }

  // ---------------------------------------------------------------------
  // Properties
  // ---------------------------------------------------------------------

  /** A non-200 status gives `None` whatever the page holds. */
  lemma StatusGate(r: Response, r': Response)
    requires r.status != 200 && r'.status == r.status
    ensures Fetch(r) == Fetch(r') == HttpError(r.status)
  {
  }

  /** The CAPTCHA phrase anywhere in the visible text gives `None` without
      running the selectors: the elements make no difference. */
  lemma CaptchaGate(r: Response, pre: string, post: string, els: seq<Element>)
    requires r.status == 200 && r.visibleText == pre + CaptchaPhrase + post
    ensures Fetch(r) == Blocked && Fetch(r.(elements := els)) == Blocked
  {
    ContainsInContext(pre, CaptchaPhrase, post);
  }

  /** Selector order decides: past the gates, a price comes from selector
      `k` exactly when its text parses to a non-zero value and no earlier
      selector's text parses. */
  lemma PriorityOrder(r: Response, v: real)
    requires r.status == 200 && !Contains(r.visibleText, CaptchaPhrase)
    ensures Fetch(r) == Price(v) <==>
      v != 0.0 &&
      exists k ::
        0 <= k < |TrackerSelectors| && ParsedValue(r.elements, TrackerSelectors[k]) == Some(v) &&
        forall j :: 0 <= j < k ==> ParsedValue(r.elements, TrackerSelectors[j]).None?
  {
    FirstSomeIff(ParseAttempts(r.elements, TrackerSelectors), v);
    assert forall k :: 0 <= k < |TrackerSelectors| ==>
      ParseAttempts(r.elements, TrackerSelectors)[k] == ParsedValue(r.elements, TrackerSelectors[k]);
  }

  /** `extract_price_logic` gives `None` exactly when no selector's text
      parses. */
  lemma NoneWhenNothingParses(els: seq<Element>)
    ensures FirstSome(ParseAttempts(els, TrackerSelectors)).None? <==>
      forall k :: 0 <= k < |TrackerSelectors| ==> ParsedValue(els, TrackerSelectors[k]).None?
  {
    FirstSomeNone(ParseAttempts(els, TrackerSelectors));
    assert forall k :: 0 <= k < |TrackerSelectors| ==>
      ParseAttempts(els, TrackerSelectors)[k] == ParsedValue(els, TrackerSelectors[k]);
  }

  /** There is no floor in `extract_price_logic`, but a parsed `0.0` is
      false and `fetch_price` turns it into `None`. */
  lemma ZeroIsFailure(r: Response)
    requires r.status == 200 && !Contains(r.visibleText, CaptchaPhrase)
    requires FirstSome(ParseAttempts(r.elements, TrackerSelectors)) == Some(0.0)
    ensures Fetch(r) == NotFound && Fetch(r).ToOption() == None
  {
  }

  /** Any price `fetch_price` returns is positive. */
  lemma PricePositive(r: Response)
    requires Fetch(r).Price?
    ensures Fetch(r).value > 0.0
  {
    var v := Fetch(r).value;
    var attempts := ParseAttempts(r.elements, TrackerSelectors);
    FirstSomeIff(attempts, v);
    var k :| 0 <= k < |attempts| && attempts[k] == Some(v) && forall j :: 0 <= j < k ==> attempts[j].None?;
    assert ParsedValue(r.elements, TrackerSelectors[k]) == Some(v);
    var i := FindFirst(r.elements, TrackerSelectors[k]).value;
    ParseDecimalSpec(CleanText(r.elements[i].text));
  }

  /** A first matching element whose text carries a real rupee sign is
      always passed over. */
  lemma RupeeTextFallsThrough(els: seq<Element>, sel: Selector)
    requires FindFirst(els, sel).Some? && Rupee in els[FindFirst(els, sel).value].text
    ensures ParsedValue(els, sel) == None
  {
    RupeeBlocksParse(els[FindFirst(els, sel).value].text);
  }

  /** Text that is not a number, such as `"Page 1 of 2"`, falls through. */
  lemma JunkFallsThrough()
    ensures ParseDecimal(CleanText("Page 1 of 2")) == None
  {
    CleanTextUnchanged("Page 1 of 2");
    assert !IsDigit('P');
    ParseDecimalSpec("Page 1 of 2");
  }

  /** In `job`, a price `fetch_price` returns is always logged, and notified
      exactly when it is at or below the target; when it returns `None`,
      nothing is logged or notified. */
  lemma JobDecision(r: Response, targetPrice: real)
    ensures Fetch(r).Price? ==>
      var p := Fetch(r).value;
      var acts := CycleActions(Fetch(r).ToOption(), targetPrice);
      LogPrice(p) in acts && (Notify(p) in acts <==> p <= targetPrice)
    ensures !Fetch(r).Price? ==> CycleActions(Fetch(r).ToOption(), targetPrice) == []
  {
    if Fetch(r).Price? {
      PricePositive(r);
    }
  }

  // ---------------------------------------------------------------------
  // Worked cases
  // ---------------------------------------------------------------------

  /** Text free of the currency literal, `$` and `,` is left as it is. */
  lemma {:induction false} CleanTextUnchanged(raw: string)
    requires '\U{E2}' !in raw && '$' !in raw && ',' !in raw
    ensures CleanText(raw) == raw
  {
    MissingHeadNotContained(raw, MisencodedRupee);
    RemoveAllAbsent(raw, MisencodedRupee);
    RemoveCharAbsent(raw, '$');
    RemoveCharAbsent(raw, ',');
  }

  /** Text without the lead character of the currency literal and without
      `$` reaches the comma stage unchanged. */
  lemma NoCurrencyStages(t: string)
    requires '\U{E2}' !in t && '$' !in t
    ensures RemoveAll(RemoveAll(t, MisencodedRupee), ['$']) == t
  {
    MissingHeadNotContained(t, MisencodedRupee);
    RemoveAllAbsent(t, MisencodedRupee);
    RemoveCharAbsent(t, '$');
  }

  lemma CommaStage(w: string, f: string)
    requires forall k :: 0 <= k < |w| ==> IsDigit(w[k]) || w[k] == ','
    requires AllDigits(f)
    ensures RemoveAll(w + "." + f, [',']) == KeepDigits(w) + "." + f
  {
    RemoveCharConcat(w + ".", f, ',');
    RemoveCharConcat(w, ".", ',');
    RemoveCharKeepsDigits(w, ',');
    RemoveCharAbsent(".", ',');
    assert ',' !in f by {
      forall k | 0 <= k < |f| ensures f[k] != ',' {
        assert IsDigit(f[k]);
      }
    }
    RemoveCharAbsent(f, ',');
  }

  lemma NoCurrencyInDecimal(w: string, f: string)
    requires forall k :: 0 <= k < |w| ==> IsDigit(w[k]) || w[k] == ','
    requires AllDigits(f)
    ensures '\U{E2}' !in w + "." + f && '$' !in w + "." + f
  {
    var t := w + "." + f;
    forall k | 0 <= k < |t| ensures t[k] != '\U{E2}' && t[k] != '$' {
      if k < |w| {
        assert t[k] == w[k];
      } else if k > |w| {
        assert t[k] == f[k - |w| - 1];
      }
    }
  }

  /** A whole part of digits and commas, a period and digits: the commas
      go and the period stays. */
  lemma CleanCommaDecimal(w: string, f: string)
    requires forall k :: 0 <= k < |w| ==> IsDigit(w[k]) || w[k] == ','
    requires AllDigits(f)
    ensures CleanText(w + "." + f) == KeepDigits(w) + "." + f
  {
    var t := w + "." + f;
    NoCurrencyInDecimal(w, f);
    NoCurrencyStages(t);
    CommaStage(w, f);
  }

  /** So such a text is read with its fraction: `"70,000.00"` is read as
      70000.0. */
  lemma FractionKept(w: string, f: string)
    requires forall k :: 0 <= k < |w| ==> IsDigit(w[k]) || w[k] == ','
    requires KeepDigits(w) != [] && AllDigits(f)
    ensures ParseDecimal(CleanText(w + "." + f)) == Some(DecimalValue(KeepDigits(w), f))
  {
    CleanCommaDecimal(w, f);
    ParseFractional(KeepDigits(w), f);
  }

  /** The currency literal in front of such a text is deleted along with
      the commas: `"â‚¹70,000.00"` becomes `"70000.00"`. */
  lemma LiteralPrefixCleaned(w: string, f: string)
    requires forall k :: 0 <= k < |w| ==> IsDigit(w[k]) || w[k] == ','
    requires AllDigits(f)
    ensures CleanText(MisencodedRupee + (w + "." + f)) == KeepDigits(w) + "." + f
  {
    var t := w + "." + f;
    RemoveLeading(MisencodedRupee, t);
    NoCurrencyInDecimal(w, f);
    MissingHeadNotContained(t, MisencodedRupee);
    RemoveAllAbsent(t, MisencodedRupee);
    RemoveCharAbsent(t, '$');
    CommaStage(w, f);
  }

  /** So the text of the example at the cleanup, the literal followed by
      digits and commas, a period and the paise, is read with its fraction:
      `"â‚¹70,000.00"` is read as 70000.0. */
  lemma LiteralPrefixParsed(w: string, f: string)
    requires forall k :: 0 <= k < |w| ==> IsDigit(w[k]) || w[k] == ','
    requires KeepDigits(w) != [] && AllDigits(f)
    ensures ParseDecimal(CleanText(MisencodedRupee + (w + "." + f))) == Some(DecimalValue(KeepDigits(w), f))
  {
    LiteralPrefixCleaned(w, f);
    ParseFractional(KeepDigits(w), f);
  }
}
