/** Calendar dates and the part of Python's `datetime.strptime` the collector
    uses: the three numeric layouts `%Y-%m-%d`, `%y-%m-%d` and `%y.%m.%d`.
    A parsed `datetime` always has time 00:00:00, so a date is a
    (year, month, day) triple. */
module Dates {
  import opened Wrappers
  import opened PyText

  datatype Date = Date(year: int, month: int, day: int)

  predicate IsLeapYear(y: int) {
    y % 4 == 0 && (y % 100 != 0 || y % 400 == 0)
  }

  function DaysInMonth(y: int, m: int): (n: int)
    requires 1 <= m <= 12
    ensures 28 <= n <= 31
  {
    if m == 2 then (if IsLeapYear(y) then 29 else 28)
    else if m == 4 || m == 6 || m == 9 || m == 11 then 30
    else 31
  }

  /** The triples `datetime(year, month, day)` accepts. */
  predicate IsCalendarDate(d: Date) {
    && 1 <= d.year <= 9999
    && 1 <= d.month <= 12
    && 1 <= d.day <= DaysInMonth(d.year, d.month)
  }

  type CalendarDate = d: Date | IsCalendarDate(d) witness Date(1970, 1, 1)

  /** The three `strptime` layouts that occur in the collector. */
  datatype DateFormat =
    | FullYearDashed   // "%Y-%m-%d"
    | ShortYearDashed  // "%y-%m-%d"
    | ShortYearDotted  // "%y.%m.%d"

  function YearWidth(f: DateFormat): nat {
    if f.FullYearDashed? then 4 else 2
  }

  function Separator(f: DateFormat): char {
    if f.ShortYearDotted? then '.' else '-'
  }

  /** `%y`: 00-68 are read as 2000-2068, 69-99 as 1969-1999. */
  function ExpandShortYear(yy: int): (y: int)
    requires 0 <= yy <= 99
    ensures 1969 <= y <= 2068 && y % 100 == yy
  {
    if yy <= 68 then 2000 + yy else 1900 + yy
  }

  /** The text `%m` matches (`1[0-2]|0[1-9]|[1-9]`): one or two digits
      denoting 1 to 12. */
  predicate IsMonthToken(t: string) {
    (|t| == 1 || |t| == 2) && AllDigits(t) && 1 <= DigitsValue(t) <= 12
  }

  /** The text `%d` matches (`3[01]|[12]\d|0[1-9]|[1-9]| [1-9]`): one or two
      digits denoting 1 to 31, or a space followed by a non-zero digit. */
  predicate IsDayToken(t: string) {
    || ((|t| == 1 || |t| == 2) && AllDigits(t) && 1 <= DigitsValue(t) <= 31)
    || (|t| == 2 && t[0] == ' ' && IsDigit(t[1]) && t[1] != '0')
  }

  function DayTokenValue(t: string): int
    requires IsDayToken(t)
  {
    if t[0] == ' ' then DigitValue(t[1]) else DigitsValue(t)
  }

  /** The position of the first `c` in `s` at or after `i`. */
  function FindFrom(s: string, c: char, i: nat): (r: Option<nat>)
    requires i <= |s|
    ensures r.Some? ==> i <= r.value < |s| && s[r.value] == c
    ensures r.Some? ==> forall k :: i <= k < r.value ==> s[k] != c
    ensures r.None? ==> forall k :: i <= k < |s| ==> s[k] != c
    decreases |s| - i
  {
    if i == |s| then None else if s[i] == c then Some(i) else FindFrom(s, c, i + 1)
  }

  /** The year a `%Y` or `%y` field denotes. */
  function YearValue(t: string, f: DateFormat): (y: int)
    requires |t| == YearWidth(f) && AllDigits(t)
    ensures !f.FullYearDashed? ==> 1969 <= y <= 2068
  {
    if f.FullYearDashed? then DigitsValue(t) else ExpandShortYear(DigitValue(t[0]) * 10 + DigitValue(t[1]))
  }

  /** `datetime.strptime(s, f)`; `None` is the `ValueError` it raises.
      The whole string must be consumed, so no surrounding whitespace or
      trailing separator is tolerated, and the `%y` layouts only ever
      produce years 1969 to 2068. */
  function Strptime(s: string, f: DateFormat): (r: Option<CalendarDate>)
    ensures r.Some? ==> |s| > 0 && IsDigit(s[0]) && IsDigit(s[|s| - 1])
    ensures r.Some? && !f.FullYearDashed? ==> 1969 <= r.value.year <= 2068
  {
    var w := YearWidth(f);
    var sep := Separator(f);
    if |s| <= w || !AllDigits(s[..w]) || s[w] != sep then None
    else
      match FindFrom(s, sep, w + 1)
      case None => None
      case Some(k) =>
        var m := s[w + 1..k];
        var dd := s[k + 1..];
        if !IsMonthToken(m) || !IsDayToken(dd) then None
        else
          assert s[0] == s[..w][0];
          assert s[|s| - 1] == dd[|dd| - 1];
          var date := Date(YearValue(s[..w], f), DigitsValue(m), DayTokenValue(dd));
          if IsCalendarDate(date) then Some(date) else None
  }

  // ----- rendering a date in a layout, the inverse of Strptime -----

  function Pad2(n: int): (r: string)
    requires 0 <= n < 100
    ensures |r| == 2 && AllDigits(r)
  {
    [DigitChar(n / 10), DigitChar(n % 10)]
  }

  function Pad4(n: int): (r: string)
    requires 0 <= n < 10000
    ensures |r| == 4 && AllDigits(r)
  {
    Pad2(n / 100) + Pad2(n % 100)
  }

  /** `d.strftime(f)` */
  function FormatDate(d: CalendarDate, f: DateFormat): string {
    var sep := Separator(f);
    YearField(d, f) + [sep] + Pad2(d.month) + [sep] + Pad2(d.day)
  }

  lemma Pad2Value(n: int)
    requires 0 <= n < 100
    ensures DigitsValue(Pad2(n)) == n
  {
    var p := Pad2(n);
    assert p[..1] == [p[0]];
    assert [p[0]][..0] == [];
    assert DigitsValue(p[..1]) == n / 10;
    assert DigitsValue(p) == (n / 10) * 10 + n % 10;
  }

  lemma Pad4Value(n: int)
    requires 0 <= n < 10000
    ensures DigitsValue(Pad4(n)) == n
  {
    var p := Pad4(n);
    var hi, lo := Pad2(n / 100), Pad2(n % 100);
    Pad2Value(n / 100);
    assert p[..2] == hi;
    assert p[..3] == hi + [lo[0]];
    assert p[..3][..2] == hi;
    assert DigitsValue(p[..3]) == DigitsValue(hi) * 10 + DigitValue(lo[0]);
    assert DigitsValue(p) == DigitsValue(p[..3]) * 10 + DigitValue(lo[1]);
    assert DigitValue(lo[0]) == (n % 100) / 10 && DigitValue(lo[1]) == (n % 100) % 10;
  }

  /** Completeness of the layout: a year field, a month token and a day
      token joined by the separator parse to that date when it exists. */
  lemma StrptimeLayout(f: DateFormat, yt: string, mt: string, dt: string)
    requires |yt| == YearWidth(f) && AllDigits(yt) && IsMonthToken(mt) && IsDayToken(dt)
    ensures var date := Date(YearValue(yt, f), DigitsValue(mt), DayTokenValue(dt));
            Strptime(yt + [Separator(f)] + mt + [Separator(f)] + dt, f)
              == if IsCalendarDate(date) then Some(date) else None
  {
    var sep := Separator(f);
    var w := |yt|;
    var s := yt + [sep] + mt + [sep] + dt;
    var k := w + 1 + |mt|;
    assert s[..w] == yt;
    assert s[w] == sep;
    assert s[w + 1..k] == mt;
    assert s[k] == sep;
    assert s[k + 1..] == dt;
    forall j | w + 1 <= j < k ensures s[j] != sep {
      assert s[j] == mt[j - w - 1];
      assert IsDigit(mt[j - w - 1]);
    }
    assert FindFrom(s, sep, w + 1) == Some(k) by {
      FindFromFirst(s, sep, w + 1, k);
    }
  }

  lemma {:induction false} FindFromFirst(s: string, c: char, i: nat, k: nat)
    requires i <= k < |s| && s[k] == c
    requires forall j :: i <= j < k ==> s[j] != c
    ensures FindFrom(s, c, i) == Some(k)
    decreases k - i
  {
    if i < k {
      FindFromFirst(s, c, i + 1, k);
    }
  }

  /** Parsing a rendered date gives the date back; for the two-digit-year
      layouts this holds exactly inside the 1969-2068 pivot window. */
  lemma FormatParseRoundTrip(d: CalendarDate, f: DateFormat)
    requires f.FullYearDashed? || 1969 <= d.year <= 2068
    ensures Strptime(FormatDate(d, f), f) == Some(d)
  {
    var yt := YearField(d, f);
    var mt, dt := Pad2(d.month), Pad2(d.day);
    YearFieldValue(d, f);
    Pad2Value(d.month);
    Pad2Value(d.day);
    assert IsDigit(dt[0]);
    assert FormatDate(d, f) == yt + [Separator(f)] + mt + [Separator(f)] + dt;
    StrptimeLayout(f, yt, mt, dt);
  }

  /** The year as `strftime` writes it in layout `f`. */
  function YearField(d: CalendarDate, f: DateFormat): string {
    if f.FullYearDashed? then Pad4(d.year) else Pad2(d.year % 100)
  }

  /** The year field reads back as the year, inside the pivot window for
      the two-digit layouts. */
  lemma YearFieldValue(d: CalendarDate, f: DateFormat)
    requires f.FullYearDashed? || 1969 <= d.year <= 2068
    ensures |YearField(d, f)| == YearWidth(f) && AllDigits(YearField(d, f))
    ensures YearValue(YearField(d, f), f) == d.year
  {
    var yt := YearField(d, f);
    if f.FullYearDashed? {
      Pad4Value(d.year);
    } else {
      assert DigitValue(yt[0]) * 10 + DigitValue(yt[1]) == d.year % 100;
    }
  }

  /** The worked example "24.01.05" reads as 5 January 2024. */
  lemma ShortDateExample()
    ensures Strptime("24.01.05", ShortYearDotted) == Some(Date(2024, 1, 5))
  {
    var d: CalendarDate := Date(2024, 1, 5);
    FormatParseRoundTrip(d, ShortYearDotted);
    assert FormatDate(d, ShortYearDotted) == "24.01.05";
  }

  /** The worked example "2024-01-05" reads as 5 January 2024. */
  lemma FullDateExample()
    ensures Strptime("2024-01-05", FullYearDashed) == Some(Date(2024, 1, 5))
  {
    var d: CalendarDate := Date(2024, 1, 5);
    FormatParseRoundTrip(d, FullYearDashed);
    assert FormatDate(d, FullYearDashed) == "2024-01-05";
  }

  /** The rendered date followed by dots is already stripped, and dropping
      its trailing dots gives back the rendered date. */
  lemma RenderedCore(d: CalendarDate, f: DateFormat, dots: string)
    requires f.FullYearDashed? || 1969 <= d.year <= 2068
    requires forall k :: 0 <= k < |dots| ==> dots[k] == '.'
    ensures Stripped(FormatDate(d, f) + dots)
    ensures RStripDots(FormatDate(d, f) + dots) == FormatDate(d, f)
  {
    var text := FormatDate(d, f);
    var core := text + dots;
    FormatDateEnds(d, f);
    assert core[0] == text[0];
    assert IsDigit(text[|text| - 1]);
    if dots == [] {
      assert core[|core| - 1] == text[|text| - 1];
    } else {
      assert core[|core| - 1] == dots[|dots| - 1];
    }
    DotsStartOfDigits(text, dots);
  }

  /** A rendered date starts and ends with a digit. */
  lemma FormatDateEnds(d: CalendarDate, f: DateFormat)
    ensures var text := FormatDate(d, f);
            text != [] && IsDigit(text[0]) && IsDigit(text[|text| - 1])
  {
    var yt := YearField(d, f);
    var sep := Separator(f);
    var dt := Pad2(d.day);
    var text := FormatDate(d, f);
    assert text == yt + ([sep] + Pad2(d.month) + [sep] + dt);
    assert text[0] == yt[0];
    assert text[|text| - 1] == dt[1];
  }

  lemma DotsStartOfDigits(text: string, dots: string)
    requires text != [] && text[|text| - 1] != '.'
    requires forall k :: 0 <= k < |dots| ==> dots[k] == '.'
    ensures RStripDots(text + dots) == text
  {
    var s := text + dots;
    var r := RStripDots(s);
    assert s[|text| - 1] != '.';
    assert |text| <= |r|;
    assert forall k :: |text| <= k < |s| ==> s[k] == '.';
    assert r == s[..|text|] == text;
  }

  // ----- trying several layouts in order -----

  /** The first layout of `formats` that parses `s` decides the result. */
  function TryFormats(s: string, formats: seq<DateFormat>): (r: Option<CalendarDate>)
    ensures r.None? <==> forall i :: 0 <= i < |formats| ==> Strptime(s, formats[i]).None?
    ensures r.Some? ==> exists i :: 0 <= i < |formats| && Strptime(s, formats[i]) == r
  {
    var rs := Attempts(s, formats);
    FirstSomeNone(rs);
    if FirstSome(rs).None? then None
    else
      FirstSomeMatch(rs, FirstSome(rs).value);
      FirstSome(rs)
  }

  /** The parse of `s` by each layout of `formats`. */
  function Attempts(s: string, formats: seq<DateFormat>): (r: seq<Option<CalendarDate>>)
    ensures |r| == |formats|
    ensures forall i :: 0 <= i < |formats| ==> r[i] == Strptime(s, formats[i])
  {
    seq(|formats|, i requires 0 <= i < |formats| => Strptime(s, formats[i]))
  }

  /** The first successful parse, in order. */
  function FirstSome(rs: seq<Option<CalendarDate>>): Option<CalendarDate> {
    if rs == [] then None else if rs[0].Some? then rs[0] else FirstSome(rs[1..])
  }

  /** Nothing is found exactly when every parse failed. */
  lemma {:induction false} FirstSomeNone(rs: seq<Option<CalendarDate>>)
    ensures FirstSome(rs).None? <==> forall i :: 0 <= i < |rs| ==> rs[i].None?
  {
    if rs != [] {
      FirstSomeNone(rs[1..]);
      assert forall i :: 0 < i < |rs| ==> rs[i] == rs[1..][i - 1];
    }
  }

  /** First match wins: the result is the parse by some layout, and every
      earlier layout failed. */
  lemma TryFormatsFirstMatch(s: string, formats: seq<DateFormat>, d: CalendarDate)
    ensures TryFormats(s, formats) == Some(d) <==>
            exists i :: 0 <= i < |formats| && Strptime(s, formats[i]) == Some(d)
                        && forall j :: 0 <= j < i ==> Strptime(s, formats[j]).None?
  {
    var rs := Attempts(s, formats);
    FirstSomeMatch(rs, d);
    if TryFormats(s, formats) == Some(d) {
      var i :| 0 <= i < |rs| && rs[i] == Some(d) && forall j :: 0 <= j < i ==> rs[j].None?;
      assert Strptime(s, formats[i]) == Some(d);
    }
  }

  lemma {:induction false} FirstSomeMatch(rs: seq<Option<CalendarDate>>, d: CalendarDate)
    ensures FirstSome(rs) == Some(d) <==>
            exists i :: 0 <= i < |rs| && rs[i] == Some(d) && forall j :: 0 <= j < i ==> rs[j].None?
  {
    if rs != [] {
      var tail := rs[1..];
      FirstSomeMatch(tail, d);
      if FirstSome(rs) == Some(d) && rs[0].None? {
        var i :| 0 <= i < |tail| && tail[i] == Some(d) && forall j :: 0 <= j < i ==> tail[j].None?;
        assert rs[i + 1] == Some(d);
        assert forall j :: 0 < j < i + 1 ==> rs[j] == tail[j - 1];
      }
      if exists i :: 0 <= i < |rs| && rs[i] == Some(d) && forall j :: 0 <= j < i ==> rs[j].None? {
        var i :| 0 <= i < |rs| && rs[i] == Some(d) && forall j :: 0 <= j < i ==> rs[j].None?;
        if i > 0 {
          assert tail[i - 1] == Some(d);
          assert forall j :: 0 <= j < i - 1 ==> tail[j] == rs[j + 1];
        }
      }
    }
  }

  /** Appending a layout that is already in the list, or one that cannot
      parse `s`, never changes the outcome. */
  lemma TryFormatsRedundantTail(s: string, formats: seq<DateFormat>, f: DateFormat)
    requires f in formats || Strptime(s, f).None?
    ensures TryFormats(s, formats + [f]) == TryFormats(s, formats)
  {
    var rs := Attempts(s, formats);
    assert Attempts(s, formats + [f]) == rs + [Strptime(s, f)];
    if f in formats {
      var i :| 0 <= i < |formats| && formats[i] == f;
      assert rs[i] == Strptime(s, f);
    }
    FirstSomeRedundant(rs, Strptime(s, f));
  }

  lemma {:induction false} FirstSomeRedundant(rs: seq<Option<CalendarDate>>, x: Option<CalendarDate>)
    requires x in rs || x.None?
    ensures FirstSome(rs + [x]) == FirstSome(rs)
  {
    if rs != [] {
      assert (rs + [x])[1..] == rs[1..] + [x];
      if rs[0].None? {
        assert x in rs[1..] || x.None?;
        FirstSomeRedundant(rs[1..], x);
      }
    }
  }
}
