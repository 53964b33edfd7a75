/** The handful of Python string built-ins the collector relies on:
    `str.strip()`, `str.rstrip(".")`, `str.replace(c, "")`, `str(int)` and
    `int(str)` in base 10. Strings are sequences of code points. */
module PyText {
  import opened Wrappers

  /** Python's `str.isspace` for one code point (the characters that
      `str.strip()` with no argument removes). */
  predicate IsSpace(c: char) {
    || c == ' '
    || ('\t' <= c <= '\r')
    || ('\U{1c}' <= c <= '\U{1f}')
    || c == '\U{85}' || c == '\U{a0}' || c == '\U{1680}'
    || ('\U{2000}' <= c <= '\U{200a}')
    || c == '\U{2028}' || c == '\U{2029}' || c == '\U{202f}' || c == '\U{205f}' || c == '\U{3000}'
  }

  /** The information separators U+001C .. U+001F: whitespace to
      `str.isspace`, but neither skipped by `int()` nor part of a literal. */
  predicate IsSeparator(c: char) {
    '\U{1c}' <= c <= '\U{1f}'
  }

  predicate SeparatorFree(s: string) {
    forall k :: 0 <= k < |s| ==> !IsSeparator(s[k])
  }

  predicate AllSpace(s: string) {
    forall k :: 0 <= k < |s| ==> IsSpace(s[k])
  }

  /** A string `strip()` leaves unchanged: empty, or neither end is whitespace. */
  predicate Stripped(s: string) {
    s == [] || (!IsSpace(s[0]) && !IsSpace(s[|s| - 1]))
  }

  /** The index of the first non-whitespace character at or after `i`
      (`|s|` when there is none). */
  function SkipSpaces(s: string, i: nat): (r: nat)
    requires i <= |s|
    ensures i <= r <= |s|
    ensures forall k :: i <= k < r ==> IsSpace(s[k])
    ensures r == |s| || !IsSpace(s[r])
    decreases |s| - i
  {
    if i < |s| && IsSpace(s[i]) then SkipSpaces(s, i + 1) else i
  }

  /** The end of `s[lo..j]` once trailing whitespace is dropped. */
  function TrimSpaces(s: string, lo: nat, j: nat): (r: nat)
    requires lo <= j <= |s|
    ensures lo <= r <= j
    ensures forall k :: r <= k < j ==> IsSpace(s[k])
    ensures r == lo || !IsSpace(s[r - 1])
    decreases j
  {
    if lo < j && IsSpace(s[j - 1]) then TrimSpaces(s, lo, j - 1) else j
  }

  /** `str.strip()` */
  function Strip(s: string): (r: string)
    ensures Stripped(r)
    ensures |r| <= |s|
  {
    var i := SkipSpaces(s, 0);
    s[i..TrimSpaces(s, i, |s|)]
  }

  /** The input of `strip()` is whitespace, then the result, then whitespace. */
  lemma StripSplit(s: string) returns (i: nat)
    ensures i + |Strip(s)| <= |s|
    ensures s == s[..i] + Strip(s) + s[i + |Strip(s)|..]
    ensures AllSpace(s[..i]) && AllSpace(s[i + |Strip(s)|..])
  {
    i := SkipSpaces(s, 0);
    var j := TrimSpaces(s, i, |s|);
    assert Strip(s) == s[i..j] && i + |s[i..j]| == j;
    SliceSplit(s, i, j);
    AllSpaceSlice(s, 0, i);
    AllSpaceSlice(s, j, |s|);
  }

  lemma SliceSplit<T>(s: seq<T>, i: nat, j: nat)
    requires i <= j <= |s|
    ensures s == s[..i] + s[i..j] + s[j..]
  {
  }

  lemma AllSpaceSlice(s: string, lo: nat, hi: nat)
    requires lo <= hi <= |s|
    requires forall k :: lo <= k < hi ==> IsSpace(s[k])
    ensures AllSpace(s[lo..hi])
  {
    forall k | 0 <= k < hi - lo ensures IsSpace(s[lo..hi][k]) {
      assert s[lo..hi][k] == s[lo + k];
    }
  }

  /** A string is blank (Python `not s.strip()`) exactly when it is all whitespace. */
  lemma StripEmptyIffBlank(s: string)
    ensures Strip(s) == [] <==> AllSpace(s)
  {
    var r := Strip(s);
    var i := StripSplit(s);
    if r == [] {
      forall k | 0 <= k < |s| ensures IsSpace(s[k]) {
        if k < i {
          assert s[k] == s[..i][k];
        } else {
          assert s[k] == s[i..][k - i];
        }
      }
    } else {
      assert s[i] == r[0];
    }
  }

  lemma StripOfStripped(s: string)
    requires Stripped(s)
    ensures Strip(s) == s
  {
  }

  /** `strip()` is idempotent. */
  lemma StripIdempotent(s: string)
    ensures Strip(Strip(s)) == Strip(s)
  {
    StripOfStripped(Strip(s));
  }

  /** Surrounding a stripped string with whitespace is undone by `strip()`. */
  lemma StripPadded(a: string, s: string, b: string)
    requires AllSpace(a) && AllSpace(b) && Stripped(s)
    ensures Strip(a + s + b) == s
  {
    var x := a + s + b;
    if s == [] {
      SkipAll(x, 0);
    } else {
      SkipTo(x, 0, |a|);
      TrimTo(x, |a|, |x|, |a| + |s|);
      assert x[|a|..|a| + |s|] == s;
    }
  }

  lemma {:induction false} SkipAll(s: string, i: nat)
    requires i <= |s| && forall k :: i <= k < |s| ==> IsSpace(s[k])
    ensures SkipSpaces(s, i) == |s|
    decreases |s| - i
  {
    if i < |s| {
      SkipAll(s, i + 1);
    }
  }

  lemma {:induction false} SkipTo(s: string, i: nat, m: nat)
    requires i <= m < |s| && !IsSpace(s[m])
    requires forall k :: i <= k < m ==> IsSpace(s[k])
    ensures SkipSpaces(s, i) == m
    decreases m - i
  {
    if i < m {
      SkipTo(s, i + 1, m);
    }
  }

  lemma {:induction false} TrimTo(s: string, lo: nat, j: nat, m: nat)
    requires lo < m <= j <= |s| && !IsSpace(s[m - 1])
    requires forall k :: m <= k < j ==> IsSpace(s[k])
    ensures TrimSpaces(s, lo, j) == m
    decreases j
  {
    if m < j {
      TrimTo(s, lo, j - 1, m);
    }
  }

  /** `str.rstrip(".")`: the input is the result followed by dots only. */
  function RStripDots(s: string): (r: string)
    ensures |r| <= |s| && r == s[..|r|]
    ensures forall k :: |r| <= k < |s| ==> s[k] == '.'
    ensures r == [] || r[|r| - 1] != '.'
  {
    s[..DotsStart(s, |s|)]
  }

  /** The start of the run of dots that ends at `j`. */
  function DotsStart(s: string, j: nat): (r: nat)
    requires j <= |s|
    ensures r <= j
    ensures forall k :: r <= k < j ==> s[k] == '.'
    ensures r == 0 || s[r - 1] != '.'
    decreases j
  {
    if 0 < j && s[j - 1] == '.' then DotsStart(s, j - 1) else j
  }

  /** `s.replace(c, "")` for a one-character `c`. */
  function RemoveChar(s: string, c: char): (r: string)
    ensures |r| <= |s|
    ensures forall k :: 0 <= k < |r| ==> r[k] != c
    ensures multiset(r) == multiset(s)[c := 0]
  {
    if s == [] then []
    else
      assert s == [s[0]] + s[1..];
      if s[0] == c then RemoveChar(s[1..], c) else [s[0]] + RemoveChar(s[1..], c)
  }

  /** The characters other than `c` are kept in order: removing works on
      each part of a concatenation separately. */
  lemma {:induction false} RemoveCharAppend(a: string, b: string, c: char)
    ensures RemoveChar(a + b, c) == RemoveChar(a, c) + RemoveChar(b, c)
  {
    if a == [] {
      assert a + b == b;
    } else {
      assert (a + b)[0] == a[0] && (a + b)[1..] == a[1..] + b;
      RemoveCharAppend(a[1..], b, c);
    }
  }

  // ----- decimal digits -----

  predicate IsDigit(c: char) {
    '0' <= c <= '9'
  }

  predicate AllDigits(s: string) {
    forall k :: 0 <= k < |s| ==> IsDigit(s[k])
  }

  function DigitValue(c: char): (v: nat)
    requires IsDigit(c)
    ensures v < 10
  {
    c as int - '0' as int
  }

  function DigitChar(n: nat): (c: char)
    requires n < 10
    ensures IsDigit(c) && DigitValue(c) == n
  {
    (n + '0' as int) as char
  }

  /** The value of a run of decimal digits, most significant first. */
  function DigitsValue(s: string): nat
    requires AllDigits(s)
  {
    if s == [] then 0 else DigitsValue(s[..|s| - 1]) * 10 + DigitValue(s[|s| - 1])
  }

  /** `str(n)` for a non-negative int: no leading zero except for "0" itself. */
  function NatToDecimal(n: nat): (r: string)
    ensures |r| >= 1 && AllDigits(r)
    ensures r[0] == '0' ==> n == 0
  {
    if n < 10 then [DigitChar(n)] else NatToDecimal(n / 10) + [DigitChar(n % 10)]
  }

  lemma {:induction false} NatToDecimalValue(n: nat)
    ensures DigitsValue(NatToDecimal(n)) == n
  {
    if n >= 10 {
      var r := NatToDecimal(n);
      assert r[..|r| - 1] == NatToDecimal(n / 10);
      NatToDecimalValue(n / 10);
    }
  }

  /** `str(i)` for a Python int. */
  function IntToDecimal(i: int): string {
    if i < 0 then "-" + NatToDecimal(-i) else NatToDecimal(i)
  }

  /** The digit-group syntax of a base-10 `int()` literal after its sign:
      digits, with single underscores allowed between two digits. */
  predicate IsDigitGroups(b: string) {
    && |b| > 0
    && IsDigit(b[0])
    && IsDigit(b[|b| - 1])
    && (forall k :: 0 <= k < |b| ==> IsDigit(b[k]) || b[k] == '_')
    && (forall k :: 0 < k < |b| ==> !DoubleUnderscoreAt(b, k))
  }

  /** `b[k - 1]` and `b[k]` are both underscores. */
  predicate DoubleUnderscoreAt(b: string, k: int)
    requires 0 < k < |b|
  {
    b[k - 1] == '_' && b[k] == '_'
  }

  /** The value of a digit-group literal with its underscores dropped;
      `None` when `b` is not one. */
  function DigitGroupsValue(b: string): (r: Option<nat>)
    ensures r.Some? <==> IsDigitGroups(b)
  {
    if !IsDigitGroups(b) then None
    else
      DigitGroupsDigits(b);
      Some(DigitsValue(RemoveChar(b, '_')))
  }

  /** Python `int(s)` for a string `s` (base 10): surrounding whitespace is
      ignored, then an optional sign, then digit groups. `None` is the
      `ValueError` that `int()` raises for anything else. The whitespace
      `int()` skips is that of `strip()` less the information separators,
      and a separator can stand nowhere in a literal, so a string holding
      one is rejected; without one, skipping is stripping. */
  function ParseIntLiteral(s: string): (r: Option<int>)
    ensures r.Some? ==> Strip(s) != []
    ensures r.Some? ==> SeparatorFree(s)
  {
    if !SeparatorFree(s) then None
    else ParseSigned(Strip(s))
  }

  /** `int("\x1c5")` raises `ValueError` although `"\x1c5".strip()` is
      `"5"`, while `int("\x855")` skips the non-ASCII whitespace U+0085. */
  lemma SeparatorIsNotIntSpace()
    ensures Strip("\U{1c}5") == "5" && ParseIntLiteral("\U{1c}5") == None
    ensures ParseIntLiteral("\U{85}5") == Some(5)
  {
    var s := "\U{85}5";
    assert Strip(s) == "5" by {
      assert SkipSpaces(s, 0) == 1;
    }
    assert IsDigitGroups("5");
    assert RemoveChar("5", '_') == "5";
    assert DigitsValue("5") == 5;
  }

  /** `int()` of text without surrounding whitespace: an optional sign,
      then digit groups. */
  function ParseSigned(t: string): (r: Option<int>)
    ensures r.Some? ==> t != []
  {
    if t == [] then None
    else
      var body := if t[0] == '-' || t[0] == '+' then t[1..] else t;
      match DigitGroupsValue(body)
      case None => None
      case Some(v) => Some(if t[0] == '-' then -(v as int) else v)
  }

  /** Dropping the underscores of a digit-group literal leaves only digits. */
  lemma {:induction false} DigitGroupsDigits(b: string)
    requires forall k :: 0 <= k < |b| ==> IsDigit(b[k]) || b[k] == '_'
    ensures AllDigits(RemoveChar(b, '_'))
  {
    if b != [] {
      var t := b[1..];
      assert forall k :: 0 <= k < |t| ==> t[k] == b[k + 1];
      DigitGroupsDigits(t);
      var r := RemoveChar(t, '_');
      assert RemoveChar(b, '_') == if b[0] == '_' then r else [b[0]] + r;
    }
  }

  lemma {:induction false} RemoveAbsentChar(s: string, c: char)
    requires forall k :: 0 <= k < |s| ==> s[k] != c
    ensures RemoveChar(s, c) == s
  {
    if s != [] {
      RemoveAbsentChar(s[1..], c);
    }
  }

  /** `int(str(i)) == i` for every Python int. */
  lemma IntLiteralRoundTrip(i: int)
    ensures ParseIntLiteral(IntToDecimal(i)) == Some(i)
  {
    var n: nat := if i < 0 then -i else i;
    DecimalFacts(n);
    DecimalSeparatorFree(n);
    if i < 0 {
      NegativeLiteral(NatToDecimal(n), n);
      assert ParseIntLiteral(IntToDecimal(i)) == ParseSigned("-" + NatToDecimal(n));
    } else {
      UnsignedLiteral(NatToDecimal(n), n);
      assert ParseIntLiteral(IntToDecimal(i)) == ParseSigned(NatToDecimal(n));
    }
  }

  lemma DecimalFacts(n: nat)
    ensures Strip(NatToDecimal(n)) == NatToDecimal(n)
    ensures Strip("-" + NatToDecimal(n)) == "-" + NatToDecimal(n)
    ensures IsDigitGroups(NatToDecimal(n))
    ensures RemoveChar(NatToDecimal(n), '_') == NatToDecimal(n)
    ensures DigitsValue(NatToDecimal(n)) == n
  {
    var d := NatToDecimal(n);
    assert IsDigit(d[0]) && IsDigit(d[|d| - 1]);
    StripOfStripped(d);
    var s := "-" + d;
    assert s[|s| - 1] == d[|d| - 1];
    StripOfStripped(s);
    RemoveAbsentChar(d, '_');
    NatToDecimalValue(n);
  }

  /** Decimal text holds no information separator, signed or not. */
  lemma DecimalSeparatorFree(n: nat)
    ensures SeparatorFree(NatToDecimal(n)) && SeparatorFree("-" + NatToDecimal(n))
  {
    var d := NatToDecimal(n);
    var s := "-" + d;
    forall k | 0 <= k < |s| ensures !IsSeparator(s[k]) {
      if k > 0 {
        assert s[k] == d[k - 1];
      }
    }
  }

  lemma UnsignedLiteral(d: string, n: nat)
    requires IsDigitGroups(d) && RemoveChar(d, '_') == d && DigitsValue(d) == n
    ensures ParseSigned(d) == Some(n)
  {
    assert DigitGroupsValue(d) == Some(n);
  }

  lemma NegativeLiteral(d: string, n: nat)
    requires IsDigitGroups(d) && RemoveChar(d, '_') == d && DigitsValue(d) == n
    ensures ParseSigned("-" + d) == Some(-(n as int))
  {
    var s := "-" + d;
    assert s[0] == '-' && s[1..] == d;
    assert DigitGroupsValue(d) == Some(n);
    MinusLiteral(s, n);
  }

  /** A minus sign before digit groups negates their value. */
  lemma MinusLiteral(t: string, v: nat)
    requires t != [] && t[0] == '-' && DigitGroupsValue(t[1..]) == Some(v)
    ensures ParseSigned(t) == Some(-(v as int))
  {
  }

  /** Python `int()` tolerates leading zeros, so distinct literals such as
      "1" and "01" denote the same int. */
  lemma LeadingZeroLiteral(n: nat)
    ensures ParseIntLiteral("0" + NatToDecimal(n)) == Some(n)
  {
    var d := NatToDecimal(n);
    DecimalFacts(n);
    var z := "0" + d;
    LeadingZeroValue(d);
    DigitLiteral(z);
    UnsignedLiteral(z, n);
  }

  /** A non-empty run of digits is read by `int()` as its digits. */
  lemma DigitLiteral(z: string)
    requires z != [] && AllDigits(z)
    ensures IsDigitGroups(z) && RemoveChar(z, '_') == z
    ensures ParseIntLiteral(z) == ParseSigned(z)
  {
    assert IsDigit(z[0]) && IsDigit(z[|z| - 1]);
    assert SeparatorFree(z);
    StripOfStripped(z);
    RemoveAbsentChar(z, '_');
  }

  /** A leading zero adds nothing to the value of a digit string. */
  lemma {:induction false} LeadingZeroValue(s: string)
    requires AllDigits(s)
    ensures AllDigits("0" + s) && DigitsValue("0" + s) == DigitsValue(s)
    decreases |s|
  {
    var t := "0" + s;
    assert forall k :: 1 <= k < |t| ==> t[k] == s[k - 1];
    if s == [] {
      assert t[..0] == [];
    } else {
      var init := s[..|s| - 1];
      assert t[..|t| - 1] == "0" + init;
      LeadingZeroValue(init);
    }
  }
}
