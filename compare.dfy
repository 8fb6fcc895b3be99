/** Where the two extractors agree and where they part ways. They share
    the document model and the first-match lookup; they differ in the
    order of the last two selectors, in whether the period is deleted, in
    the currency literal, and in the floor of 100. */
module Compare {
  import opened Wrappers
  import opened Text
  import opened Page
  import Scraper
  import Tracker

  /** The two selector lists hold the same four selectors; they agree on
      the first two and swap the last two. */
  lemma SelectorListsSwapLastTwo()
    ensures Scraper.Selectors[..2] == Tracker.TrackerSelectors[..2]
    ensures Scraper.Selectors[2] == Tracker.TrackerSelectors[3]
    ensures Scraper.Selectors[3] == Tracker.TrackerSelectors[2]
    ensures Scraper.Selectors[2] != Scraper.Selectors[3]
  {
  }

  /** On a first matching element whose text is a plain digit string both
      cleanups leave the text alone; the scraper then applies its floor
      and the tracker takes the number as it is. */
  lemma {:induction false} DigitTextAgrees(els: seq<Element>, sel: Selector)
    requires FindFirst(els, sel).Some?
    requires var d := els[FindFirst(els, sel).value].text; |d| > 0 && AllDigits(d)
    ensures var d := els[FindFirst(els, sel).value].text;
      Tracker.ParsedValue(els, sel) == Some(DigitsValue(d) as real) &&
      Scraper.SelectorValue(els, sel) == (if DigitsValue(d) > Scraper.Floor then Some(DigitsValue(d)) else None)
  {
    var d := els[FindFirst(els, sel).value].text;
    assert forall k :: 0 <= k < |d| ==> IsDigit(d[k]);
    assert Rupee !in d && '$' !in d && ',' !in d && '.' !in d && '\U{E2}' !in d;
    Scraper.CleanUnchanged(d);
    Tracker.CleanTextUnchanged(d);
    FirstRunOfDigits(d);
    ParseWhole(d);
  }

  /** A first matching element with a digit string above 100. */
  predicate DigitPriceAt(els: seq<Element>, sel: Selector)
  {
    FindFirst(els, sel).Some? &&
    var d := els[FindFirst(els, sel).value].text;
    |d| > 0 && AllDigits(d) && DigitsValue(d) > Scraper.Floor
  }

  /** The amount a first matching element's digit string denotes. */
  function AmountAt(els: seq<Element>, sel: Selector): nat
    requires DigitPriceAt(els, sel)
  {
    DigitsValue(els[FindFirst(els, sel).value].text)
  }

  /** Scraper side of the swapped pair: with nothing under the first two
      selectors, the `priceToPay` amount wins. */
  lemma {:induction false} ScraperTakesPriceToPay(els: seq<Element>)
    requires FindFirst(els, Scraper.Selectors[0]).None? && FindFirst(els, Scraper.Selectors[1]).None?
    requires DigitPriceAt(els, Scraper.Selectors[2])
    ensures FirstSome(Scraper.Attempts(els, Scraper.Selectors)) == Some(AmountAt(els, Scraper.Selectors[2]))
  {
    DigitTextAgrees(els, Scraper.Selectors[2]);
    var sa := Scraper.Attempts(els, Scraper.Selectors);
    assert sa[0].None? && sa[1].None?;
    forall j | 0 <= j < 2 ensures sa[j].None? {
      assert j == 0 || j == 1;
    }
    FirstSomeFrom(sa, 2);
    assert sa[2..][0] == sa[2];
  }

  /** Tracker side of the swapped pair: with nothing under the first two
      selectors, the `apexPriceToPay` amount wins. */
  lemma {:induction false} TrackerTakesApex(els: seq<Element>)
    requires FindFirst(els, Tracker.TrackerSelectors[0]).None? && FindFirst(els, Tracker.TrackerSelectors[1]).None?
    requires DigitPriceAt(els, Tracker.TrackerSelectors[2])
    ensures FirstSome(Tracker.ParseAttempts(els, Tracker.TrackerSelectors)) == Some(AmountAt(els, Tracker.TrackerSelectors[2]) as real)
  {
    DigitTextAgrees(els, Tracker.TrackerSelectors[2]);
    var ta := Tracker.ParseAttempts(els, Tracker.TrackerSelectors);
    assert ta[0].None? && ta[1].None?;
    forall j | 0 <= j < 2 ensures ta[j].None? {
      assert j == 0 || j == 1;
    }
    FirstSomeFrom(ta, 2);
    assert ta[2..][0] == ta[2];
  }

  /** The swapped pair decides when the first two selectors find nothing:
      given a `priceToPay` amount and an `apexPriceToPay` amount, both
      above 100, the scraper returns the first and the tracker the
      second. */
  lemma SwappedPairDisagrees(els: seq<Element>)
    requires FindFirst(els, Scraper.Selectors[0]).None? && FindFirst(els, Scraper.Selectors[1]).None?
    requires DigitPriceAt(els, Scraper.Selectors[2]) && DigitPriceAt(els, Scraper.Selectors[3])
    ensures FirstSome(Scraper.Attempts(els, Scraper.Selectors)) == Some(AmountAt(els, Scraper.Selectors[2]))
    ensures FirstSome(Tracker.ParseAttempts(els, Tracker.TrackerSelectors)) == Some(AmountAt(els, Scraper.Selectors[3]) as real)
  {
    SelectorListsSwapLastTwo();
    ScraperTakesPriceToPay(els);
    TrackerTakesApex(els);
  }

  /** A whole part of digits and commas, a period and the paise digits `f`:
      the tracker reads the amount with its fraction, while the scraper,
      having deleted the period, reads the digits run together, a number
      `10^|f|` times the tracker's, and applies its floor to that inflated
      number (`"70,000.00"`: 70000.0 against 7000000). */
  lemma PaiseDisagree(els: seq<Element>, sel: Selector, w: string, f: string)
    requires FindFirst(els, sel).Some? && els[FindFirst(els, sel).value].text == w + "." + f
    requires forall k :: 0 <= k < |w| ==> IsDigit(w[k]) || w[k] == ','
    requires KeepDigits(w) != [] && AllDigits(f)
    ensures Tracker.ParsedValue(els, sel) == Some(DecimalValue(KeepDigits(w), f))
    ensures AllDigits(KeepDigits(w) + f)
    ensures var v := DigitsValue(KeepDigits(w) + f);
      Scraper.SelectorValue(els, sel) == (if v > Scraper.Floor then Some(v) else None) &&
      DecimalValue(KeepDigits(w), f) == v as real / Pow10(|f|) as real
  {
    Tracker.FractionKept(w, f);
    assert Scraper.PriceChars(w);
    Scraper.PaiseMerged(els, sel, w, f);
  }

  /** With a real rupee sign in front, `"₹70,000.00"`, the scraper deletes
      the sign and reads the merged number as before, while the tracker,
      whose currency literal is not the rupee sign, cannot parse the text
      and passes the selector over. */
  lemma RupeeSignDisagrees(els: seq<Element>, sel: Selector, w: string, f: string)
    requires FindFirst(els, sel).Some? && els[FindFirst(els, sel).value].text == [Rupee] + w + "." + f
    requires forall k :: 0 <= k < |w| ==> IsDigit(w[k]) || w[k] == ','
    requires KeepDigits(w) != [] && AllDigits(f)
    ensures AllDigits(KeepDigits(w) + f)
    ensures var v := DigitsValue(KeepDigits(w) + f);
      Scraper.SelectorValue(els, sel) == if v > Scraper.Floor then Some(v) else None
    ensures Tracker.ParsedValue(els, sel) == None
  {
    var w' := [Rupee] + w;
    assert [Rupee] + w + "." + f == w' + "." + f;
    assert Scraper.PriceChars(w') by {
      forall k | 0 <= k < |w'|
        ensures IsDigit(w'[k]) || w'[k] == Rupee || w'[k] == '$' || w'[k] == ',' || w'[k] == '.'
      {
        if k > 0 {
          assert w'[k] == w[k - 1];
        }
      }
    }
    KeepDigitsConcat([Rupee], w);
    assert KeepDigits([Rupee]) == [];
    assert [] + KeepDigits(w) == KeepDigits(w);
    Scraper.PaiseMerged(els, sel, w', f);
    assert els[FindFirst(els, sel).value].text[0] == Rupee;
    Tracker.RupeeTextFallsThrough(els, sel);
  }
}
