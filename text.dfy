/** The handful of Python `str` operations the price extractors rely on:
    substring tests (`x in s`), `s.replace(pat, '')`, runs of ASCII digits
    (`re.findall(r'\d+', s)`) and `float(s)` restricted to plain decimals. */
module Text {
  import opened Wrappers

  /** The Indian rupee sign U+20B9, as it appears in decoded page text. */
  const Rupee: char := '\U{20B9}'

  // ---------------------------------------------------------------------
  // Substrings
  // ---------------------------------------------------------------------

  /** `sub` occurs in `s` starting at index `i`. */
  predicate OccursAt(s: string, sub: string, i: nat)
  {
    i + |sub| <= |s| && s[i..i + |sub|] == sub
  }

  /** Python's `sub in s`: a left-to-right search for `sub`. */
  function Contains(s: string, sub: string): bool
    decreases |s|
  {
    if |s| < |sub| then false
    else if s[..|sub|] == sub then true
    else Contains(s[1..], sub)
  }

  /** The search finds `sub` exactly when it occurs somewhere in `s`. */
  lemma {:induction false} ContainsIff(s: string, sub: string)
    ensures Contains(s, sub) <==> exists i: nat :: OccursAt(s, sub, i)
    decreases |s|
  {
    if |s| < |sub| {
      forall i: nat ensures !OccursAt(s, sub, i) { }
    } else if s[..|sub|] == sub {
      assert OccursAt(s, sub, 0);
    } else {
      ContainsIff(s[1..], sub);
      if Contains(s[1..], sub) {
        var i: nat :| OccursAt(s[1..], sub, i);
        assert s[1..][i..i + |sub|] == s[i + 1..i + 1 + |sub|];
        assert OccursAt(s, sub, i + 1);
      } else {
        forall i: nat | OccursAt(s, sub, i) ensures false {
          assert i != 0;
          assert s[1..][i - 1..i - 1 + |sub|] == s[i..i + |sub|];
          assert OccursAt(s[1..], sub, i - 1);
        }
      }
    }
  }

  /** A string that contains `sub` at a known place still contains it when
      text is added on either side. */
  lemma ContainsInContext(pre: string, sub: string, post: string)
    ensures Contains(pre + sub + post, sub)
  {
    var s := pre + sub + post;
    assert s[|pre|..|pre| + |sub|] == sub;
    assert OccursAt(s, sub, |pre|);
    ContainsIff(s, sub);
  }

  /** A string in which the first character of `sub` never occurs does
      not contain `sub`. */
  lemma {:induction false} MissingHeadNotContained(s: string, sub: string)
    requires |sub| > 0 && sub[0] !in s
    ensures !Contains(s, sub)
    decreases |s|
  {
    if |s| >= |sub| {
      assert s[..|sub|][0] == s[0];
      MissingHeadNotContained(s[1..], sub);
    }
  }

  // ---------------------------------------------------------------------
  // s.replace(pat, '')
  // ---------------------------------------------------------------------

  /** Python's `s.replace(pat, '')` for a non-empty `pat`: scanning from the
      left, every non-overlapping occurrence of `pat` is deleted. */
  function RemoveAll(s: string, pat: string): string
    requires |pat| > 0
    decreases |s|
  {
    if |s| < |pat| then s
    else if s[..|pat|] == pat then RemoveAll(s[|pat|..], pat)
    else [s[0]] + RemoveAll(s[1..], pat)
  }

  /** An occurrence of `pat` at the front is deleted, and the scan goes on
      from the text after it. */
  lemma RemoveLeading(pat: string, t: string)
    requires |pat| > 0
    ensures RemoveAll(pat + t, pat) == RemoveAll(t, pat)
  {
    var s := pat + t;
    assert s[..|pat|] == pat;
    assert s[|pat|..] == t;
  }

  /** Deleting occurrences of `pat` keeps every character that is not part
      of `pat`, as often as it occurred. */
  lemma {:induction false} RemoveAllKeeps(s: string, pat: string, c: char)
    requires |pat| > 0 && c !in pat
    ensures multiset(RemoveAll(s, pat))[c] == multiset(s)[c]
    decreases |s|
  {
    if |s| < |pat| {
    } else if s[..|pat|] == pat {
      RemoveAllKeeps(s[|pat|..], pat, c);
      assert s == s[..|pat|] + s[|pat|..];
      assert multiset(s) == multiset(pat) + multiset(s[|pat|..]);
    } else {
      RemoveAllKeeps(s[1..], pat, c);
      assert s == [s[0]] + s[1..];
    }
  }

  /** Deleting a one-character pattern removes every copy of that character
      and nothing else. */
  lemma {:induction false} RemoveCharCounts(s: string, c: char)
    ensures multiset(RemoveAll(s, [c])) == multiset(s)[c := 0]
    decreases |s|
  {
    if |s| < 1 {
    } else {
      RemoveCharCounts(s[1..], c);
      assert s == [s[0]] + s[1..];
      if s[..1] == [c] {
        assert s[0] == c;
      } else {
        assert s[0] != c;
      }
    }
  }

  /** A string without any occurrence of `pat` is left unchanged. */
  lemma {:induction false} RemoveAllAbsent(s: string, pat: string)
    requires |pat| > 0 && !Contains(s, pat)
    ensures RemoveAll(s, pat) == s
    decreases |s|
  {
    if |s| >= |pat| {
      RemoveAllAbsent(s[1..], pat);
      assert s == [s[0]] + s[1..];
    }
  }

  /** Deleting a one-character pattern works piece by piece. */
  lemma {:induction false} RemoveCharConcat(a: string, b: string, c: char)
    ensures RemoveAll(a + b, [c]) == RemoveAll(a, [c]) + RemoveAll(b, [c])
    decreases |a|
  {
    if a != [] {
      RemoveCharConcat(a[1..], b, c);
      assert (a + b)[1..] == a[1..] + b;
      assert (a + b)[..1] == a[..1];
    } else {
      assert a + b == b;
    }
  }

  /** A string without the character is left unchanged. */
  lemma {:induction false} RemoveCharAbsent(s: string, c: char)
    requires c !in s
    ensures RemoveAll(s, [c]) == s
    decreases |s|
  {
    if s != [] {
      RemoveCharAbsent(s[1..], c);
      assert s[..1] == [s[0]];
      assert s == [s[0]] + s[1..];
    }
  }

  /** Deleting a one-character pattern, one character at a time. */
  lemma RemoveCharCons(x: char, t: string, c: char)
    ensures RemoveAll([x] + t, [c]) == (if x == c then [] else [x]) + RemoveAll(t, [c])
  {
    RemoveCharConcat([x], t, c);
    assert [x][..1] == [x];
    assert RemoveAll([x], [c]) == if x == c then [] else [x];
  }

  // ---------------------------------------------------------------------
  // ASCII digits and their decimal value
  // ---------------------------------------------------------------------

  predicate IsDigit(c: char)
  {
    '0' <= c <= '9'
  }

  predicate AllDigits(s: string)
  {
    forall i :: 0 <= i < |s| ==> IsDigit(s[i])
  }

  function DigitValue(c: char): (d: nat)
    requires IsDigit(c)
    ensures d < 10
  {
    c as int - '0' as int
  }

  function DigitChar(d: nat): (c: char)
    requires d < 10
    ensures IsDigit(c) && DigitValue(c) == d
  {
    ('0' as int + d) as char
  }

  function Pow10(n: nat): (p: nat)
    ensures p >= 1
  {
    if n == 0 then 1 else 10 * Pow10(n - 1)
  }

  /** The value of a string of decimal digits, most significant first
      (the empty string is 0). */
  function DigitsValue(s: string): (v: nat)
    requires AllDigits(s)
    ensures v < Pow10(|s|)
    decreases |s|
  {
    if s == [] then 0
    else DigitsValue(s[..|s| - 1]) * 10 + DigitValue(s[|s| - 1])
  }

  /** The shortest decimal rendering of `n`, as Python's `str(n)`. */
  function NatToDigits(n: nat): (s: string)
    ensures |s| > 0 && AllDigits(s)
    ensures |s| > 1 ==> s[0] != '0'
  {
    if n < 10 then [DigitChar(n)] else NatToDigits(n / 10) + [DigitChar(n % 10)]
  }

  /** Rendering a number and reading it back gives the number. */
  lemma {:induction false} DigitsRoundTrip(n: nat)
    ensures DigitsValue(NatToDigits(n)) == n
  {
    if n >= 10 {
      DigitsRoundTrip(n / 10);
      var s := NatToDigits(n);
      assert s[..|s| - 1] == NatToDigits(n / 10);
    }
  }

  lemma AllDigitsConcat(a: string, b: string)
    requires AllDigits(a) && AllDigits(b)
    ensures AllDigits(a + b)
  {
    forall k | 0 <= k < |a + b| ensures IsDigit((a + b)[k]) {
      if k < |a| {
        assert (a + b)[k] == a[k];
      } else {
        assert (a + b)[k] == b[k - |a|];
      }
    }
  }

  /** Reading the digits of `a` followed by those of `b`. */
  lemma {:induction false} DigitsValueConcat(a: string, b: string)
    requires AllDigits(a) && AllDigits(b)
    ensures AllDigits(a + b)
    ensures DigitsValue(a + b) == DigitsValue(a) * Pow10(|b|) + DigitsValue(b)
    decreases |b|
  {
    AllDigitsConcat(a, b);
    if b == [] {
      assert a + b == a;
    } else {
      var b' := b[..|b| - 1];
      var s := a + b;
      assert s[..|s| - 1] == a + b';
      assert s[|s| - 1] == b[|b| - 1];
      DigitsValueConcat(a, b');
      ShiftByTen(DigitsValue(a), Pow10(|b'|), DigitsValue(b'), DigitValue(b[|b| - 1]),
        DigitsValue(a + b'), DigitsValue(s), DigitsValue(b), Pow10(|b|));
    }
  }

  /** One more digit `d` appended: the arithmetic of the step above. */
  lemma ShiftByTen(x: int, p: int, y: int, d: int, prev: int, next: int, tail: int, p': int)
    requires prev == x * p + y && next == prev * 10 + d
    requires tail == y * 10 + d && p' == p * 10
    ensures next == x * p' + tail
  {
    assert (x * p + y) * 10 == (x * p) * 10 + y * 10;
    assert (x * p) * 10 == x * (p * 10);
  }

  /** The digits of `s`, in order, everything else dropped. */
  function KeepDigits(s: string): (d: string)
    ensures AllDigits(d) && |d| <= |s|
  {
    if s == [] then []
    else (if IsDigit(s[0]) then [s[0]] else []) + KeepDigits(s[1..])
  }

  lemma {:induction false} KeepDigitsConcat(a: string, b: string)
    ensures KeepDigits(a + b) == KeepDigits(a) + KeepDigits(b)
    decreases |a|
  {
    if a == [] {
      assert a + b == b;
    } else {
      assert (a + b)[0] == a[0];
      assert (a + b)[1..] == a[1..] + b;
      KeepDigitsConcat(a[1..], b);
    }
  }

  lemma {:induction false} KeepDigitsOfDigits(s: string)
    requires AllDigits(s)
    ensures KeepDigits(s) == s
    decreases |s|
  {
    if s != [] {
      KeepDigitsOfDigits(s[1..]);
      assert s == [s[0]] + s[1..];
    }
  }

  /** In a string made of digits and copies of `c`, deleting `c` leaves
      exactly the digits. */
  lemma {:induction false} RemoveCharKeepsDigits(s: string, c: char)
    requires !IsDigit(c)
    requires forall k :: 0 <= k < |s| ==> IsDigit(s[k]) || s[k] == c
    ensures RemoveAll(s, [c]) == KeepDigits(s)
    decreases |s|
  {
    if s != [] {
      assert s == [s[0]] + s[1..];
      RemoveCharCons(s[0], s[1..], c);
      RemoveCharKeepsDigits(s[1..], c);
    }
  }

  // ---------------------------------------------------------------------
  // re.findall(r'\d+', s)[0]
  // ---------------------------------------------------------------------

  /** `s[i..j]` is the first maximal run of digits in `s`. */
  predicate IsFirstRun(s: string, i: int, j: int)
  {
    0 <= i < j <= |s|
    && (forall k :: 0 <= k < i ==> !IsDigit(s[k]))
    && (forall k :: i <= k < j ==> IsDigit(s[k]))
    && (j == |s| || !IsDigit(s[j]))
  }

  /** `s` with its leading non-digits dropped. */
  function SkipNonDigits(s: string): (t: string)
    ensures |t| <= |s| && t == s[|s| - |t|..]
    ensures t == [] || IsDigit(t[0])
    ensures forall k :: 0 <= k < |s| - |t| ==> !IsDigit(s[k])
  {
    if s == [] || IsDigit(s[0]) then s else SkipNonDigits(s[1..])
  }

  /** The longest prefix of `s` made of digits. */
  function LeadingDigits(s: string): (d: string)
    ensures |d| <= |s| && d == s[..|d|] && AllDigits(d)
    ensures |d| == |s| || !IsDigit(s[|d|])
  {
    if s == [] || !IsDigit(s[0]) then [] else [s[0]] + LeadingDigits(s[1..])
  }

  /** The first element of `re.findall(r'\d+', s)`, `None` when the list
      would be empty. */
  function FirstDigitRun(s: string): Option<string>
  {
    var t := SkipNonDigits(s);
    if t == [] then None else Some(LeadingDigits(t))
  }

  /** `FirstDigitRun` finds nothing exactly when `s` has no digit, and
      otherwise finds the first maximal run of digits. */
  lemma FirstDigitRunSpec(s: string)
    ensures FirstDigitRun(s).None? <==> forall k :: 0 <= k < |s| ==> !IsDigit(s[k])
    ensures FirstDigitRun(s).Some? ==> exists i, j :: IsFirstRun(s, i, j) && FirstDigitRun(s).value == s[i..j]
  {
    var t := SkipNonDigits(s);
    if t != [] {
      var d := LeadingDigits(t);
      RunWitness(s, t, d);
    }
  }

  lemma RunWitness(s: string, t: string, d: string)
    requires |t| <= |s| && t == s[|s| - |t|..] && t != [] && IsDigit(t[0])
    requires forall k :: 0 <= k < |s| - |t| ==> !IsDigit(s[k])
    requires |d| <= |t| && d == t[..|d|] && AllDigits(d) && d != []
    requires |d| == |t| || !IsDigit(t[|d|])
    ensures IsFirstRun(s, |s| - |t|, |s| - |t| + |d|) && s[|s| - |t|..|s| - |t| + |d|] == d
  {
    var i := |s| - |t|;
    forall k | i <= k < i + |d| ensures IsDigit(s[k]) {
      assert s[k] == t[k - i] == d[k - i];
    }
    if |d| < |t| {
      assert s[i + |d|] == t[|d|];
    }
  }

  /** The first run of digits is unique. */
  lemma FirstRunUnique(s: string, i: int, j: int, i': int, j': int)
    requires IsFirstRun(s, i, j) && IsFirstRun(s, i', j')
    ensures i == i' && j == j'
  {
    assert IsDigit(s[i]) && IsDigit(s[i']);
    if j < |s| { assert !IsDigit(s[j]); }
    if j' < |s| { assert !IsDigit(s[j']); }
  }

  /** Whatever run `IsFirstRun` describes is the one `FirstDigitRun` finds. */
  lemma FirstRunFound(s: string, i: int, j: int)
    requires IsFirstRun(s, i, j)
    ensures FirstDigitRun(s) == Some(s[i..j])
  {
    assert IsDigit(s[i]);
    FirstDigitRunSpec(s);
    var r := FirstDigitRun(s);
    var i', j' :| IsFirstRun(s, i', j') && r.value == s[i'..j'];
    FirstRunUnique(s, i, j, i', j');
  }

  /** A non-empty digit string is its own first run. */
  lemma FirstRunOfDigits(s: string)
    requires |s| > 0 && AllDigits(s)
    ensures FirstDigitRun(s) == Some(s)
  {
    FirstRunFound(s, 0, |s|);
    assert s[0..|s|] == s;
  }

  /** No character of `s` is a digit. */
  predicate NoDigit(s: string)
  {
    forall k :: 0 <= k < |s| ==> !IsDigit(s[k])
  }

  /** A run of digits preceded by digit-free text and followed by a
      non-digit or by nothing is the first run. */
  lemma FirstRunInContext(pre: string, run: string, post: string)
    requires NoDigit(pre) && |run| > 0 && AllDigits(run)
    requires post == [] || !IsDigit(post[0])
    ensures FirstDigitRun(pre + run + post) == Some(run)
  {
    var s := pre + run + post;
    var i, j := |pre|, |pre| + |run|;
    assert forall k :: 0 <= k < i ==> s[k] == pre[k];
    assert forall k :: i <= k < j ==> s[k] == run[k - i];
    assert j < |s| ==> s[j] == post[0];
    assert IsFirstRun(s, i, j);
    FirstRunFound(s, i, j);
    assert s[i..j] == run;
  }

  // ---------------------------------------------------------------------
  // float(s) for plain decimals
  // ---------------------------------------------------------------------

  /** The index of the first `c` in `s`. */
  function IndexOf(s: string, c: char): (r: Option<nat>)
    ensures r.None? ==> c !in s
    ensures r.Some? ==> r.value < |s| && s[r.value] == c && c !in s[..r.value]
  {
    if s == [] then None
    else if s[0] == c then Some(0)
    else match IndexOf(s[1..], c)
      case None => None
      case Some(i) => assert s[1..][..i] == s[1..i + 1]; Some(i + 1)
  }

  /** The plain decimals `float` is modelled on: digits, optionally one `.`
      followed by digits, with at least one digit in all. */
  predicate IsPlainDecimal(s: string)
  {
    (|s| > 0 && AllDigits(s))
    || exists i :: 0 <= i < |s| && s[i] == '.' && |s| > 1 && AllDigits(s[..i]) && AllDigits(s[i + 1..])
  }

  /** The exact value of a digit string `w`, a point and a digit string
      `f`: the digits of both read as one number, over `10^|f|`. */
  function DecimalValue(w: string, f: string): real
    requires AllDigits(w) && AllDigits(f)
  {
    AllDigitsConcat(w, f);
    DigitsValue(w + f) as real / Pow10(|f|) as real
  }

  /** `float(s)` on the plain-decimal subset, exactly; `None` stands for the
      `ValueError` raised on anything else. */
  function ParseDecimal(s: string): Option<real>
  {
    match IndexOf(s, '.')
    case None =>
      if |s| > 0 && AllDigits(s) then Some(DigitsValue(s) as real)
      else None
    case Some(i) =>
      var w, f := s[..i], s[i + 1..];
      if |s| > 1 && AllDigits(w) && AllDigits(f) then Some(DecimalValue(w, f))
      else None
  }

  /** `ParseDecimal` succeeds exactly on the plain decimals, never gives a
      negative number, and accepts only digits and the point. */
  lemma ParseDecimalSpec(s: string)
    ensures ParseDecimal(s).Some? <==> IsPlainDecimal(s)
    ensures ParseDecimal(s).Some? ==> ParseDecimal(s).value >= 0.0
    ensures ParseDecimal(s).Some? ==> forall k :: 0 <= k < |s| ==> IsDigit(s[k]) || s[k] == '.'
  {
    match IndexOf(s, '.')
    case None =>
    case Some(i) =>
      if |s| > 1 && AllDigits(s[..i]) && AllDigits(s[i + 1..]) {
        PointBetweenDigits(s, i);
      }
  }

  lemma PointBetweenDigits(s: string, i: nat)
    requires i < |s| && s[i] == '.' && AllDigits(s[..i]) && AllDigits(s[i + 1..])
    ensures forall k :: 0 <= k < |s| ==> IsDigit(s[k]) || s[k] == '.'
  {
    forall k | 0 <= k < |s| ensures IsDigit(s[k]) || s[k] == '.' {
      if k < i {
        assert s[k] == s[..i][k];
      } else if k > i {
        assert s[k] == s[i + 1..][k - i - 1];
      }
    }
  }

  /** A digit string parses to its decimal value. */
  lemma ParseWhole(w: string)
    requires |w| > 0 && AllDigits(w)
    ensures ParseDecimal(w) == Some(DigitsValue(w) as real)
  {
  }

  /** A rendered number with a fractional part parses back to the number
      the two digit strings denote. */
  lemma ParseFractional(w: string, f: string)
    requires AllDigits(w) && AllDigits(f) && |w| + |f| > 0
    ensures ParseDecimal(w + "." + f) == Some(DecimalValue(w, f))
  {
    var s := w + "." + f;
    assert s[..|w|] == w;
    assert s[|w| + 1..] == f;
    assert s[|w|] == '.';
  }

  /** The decimal `w.f` is the whole part plus the fraction's digits over
      `10^|f|`. */
  lemma DecimalParts(w: string, f: string)
    requires AllDigits(w) && AllDigits(f)
    ensures DecimalValue(w, f) == DigitsValue(w) as real + DigitsValue(f) as real / Pow10(|f|) as real
  {
    DigitsValueConcat(w, f);
    ScaleBack(DecimalValue(w, f), DigitsValue(w), DigitsValue(f), Pow10(|f|), DigitsValue(w + f));
  }

  lemma ScaleBack(x: real, a: int, b: int, p: int, n: int)
    requires p > 0 && x == n as real / p as real && n == a * p + b
    ensures x == a as real + b as real / p as real
  {
    assert (a * p) as real == a as real * p as real;
    assert (a as real * p as real) / p as real == a as real;
  }
}
