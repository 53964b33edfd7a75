/** `CollectReviewsUseCase.collect`: validate the product URL, ask the
    crawler for raw reviews, and normalize whatever shape comes back into a
    non-empty list of `ProductReview`s sorted by id. */
module CollectReviews {
  import opened Wrappers
  import opened PyText
  import opened Dates
  import opened RawValues
  import opened ProductReviews
  import opened CrawlerPort

  /** The exceptions `collect` raises: three `ValueError`s of its own, or
      whatever the crawler raised. */
  datatype CollectError =
    | ProductUrlRequired     // "product_url is required"
    | UnexpectedResultType   // "unexpected crawler result type"
    | NoReviewsCollected     // "no reviews collected"
    | CrawlFailed(cause: CrawlError)

  // ----- dates -----

  /** The layouts `_parse_date` tries, in this order. The two-digit dotted
      layout appears twice in the source list. */
  const DateFormats: seq<DateFormat> := [FullYearDashed, ShortYearDashed, ShortYearDotted, ShortYearDotted]

  const DistinctDateFormats: seq<DateFormat> := [FullYearDashed, ShortYearDashed, ShortYearDotted]

  /** `_parse_date`: a `datetime` passes through, a string is stripped, loses
      its trailing dots and is read by the first layout that accepts it,
      anything else is no date. */
  function ParseDateValue(v: RawValue): (r: Option<CalendarDate>)
    ensures v.DateTime? ==> r == Some(v.date)
    ensures !v.DateTime? && !v.Str? ==> r.None?
    ensures v.Str? ==> r == TryFormats(RStripDots(Strip(v.s)), DistinctDateFormats)
  {
    match v
    case DateTime(d) => Some(d)
    case Str(s) =>
      DuplicateFormatIsRedundant(RStripDots(Strip(s)));
      TryFormats(RStripDots(Strip(s)), DateFormats)
    case _ => None
  }

  /** Trying `%y.%m.%d` a second time never changes the outcome. */
  lemma DuplicateFormatIsRedundant(s: string)
    ensures TryFormats(s, DateFormats) == TryFormats(s, DistinctDateFormats)
  {
    assert DateFormats == DistinctDateFormats + [ShortYearDotted];
    TryFormatsRedundantTail(s, DistinctDateFormats, ShortYearDotted);
  }

  /** A date written in any of the layouts, with surrounding whitespace and
      trailing dots, is read back as that date. */
  lemma ReadsRenderedDate(d: CalendarDate, f: DateFormat, a: string, dots: string, b: string)
    requires f.FullYearDashed? || 1969 <= d.year <= 2068
    requires AllSpace(a) && AllSpace(b)
    requires forall k :: 0 <= k < |dots| ==> dots[k] == '.'
    ensures ParseDateValue(Str(a + FormatDate(d, f) + dots + b)) == Some(d)
  {
    var text := FormatDate(d, f);
    RenderedCore(d, f, dots);
    assert a + (text + dots) + b == a + text + dots + b;
    StripPadded(a, text + dots, b);
    RenderedLayoutFirst(d, f);
  }

  /** No layout listed before `f` accepts a date rendered in `f`. */
  lemma RenderedLayoutFirst(d: CalendarDate, f: DateFormat)
    requires f.FullYearDashed? || 1969 <= d.year <= 2068
    ensures TryFormats(FormatDate(d, f), DistinctDateFormats) == Some(d)
  {
    var text := FormatDate(d, f);
    FormatParseRoundTrip(d, f);
    assert text[YearWidth(f)] == Separator(f);
    if !f.FullYearDashed? {
      assert text[2] == Separator(f);
      assert text[..4][2] == text[2];
      assert Strptime(text, FullYearDashed).None?;
    }
    if f.ShortYearDotted? {
      assert Strptime(text, ShortYearDashed).None?;
    }
    var i := if f.FullYearDashed? then 0 else if f.ShortYearDashed? then 1 else 2;
    assert DistinctDateFormats[i] == f;
    TryFormatsFirstMatch(text, DistinctDateFormats, d);
  }

  // ----- one entry -----

  /** What `collect` reads from one raw value before attaching an id. */
  datatype Fields = Fields(content: string, grade: Option<real>, writer: Option<string>, createdAt: Option<CalendarDate>)

  /** The grade of a raw `rating`/`grade` value: `None` and `""` give no
      grade, otherwise `float()` of it, where a failed conversion is no grade. */
  function GradeOf(raw: RawValue, rt: Runtime): (r: Option<real>)
    ensures raw == Null || raw == Str("") ==> r.None?
    ensures raw.Int? ==> r == Some(raw.i as real)
    ensures raw.Float? ==> r == Some(raw.x)
    ensures raw.Bool? ==> r == Some(if raw.b then 1.0 else 0.0)
    ensures raw.Str? && raw.s != [] ==> r == rt.parseFloat(raw.s)
    ensures raw.DateTime? || raw.Dict? || raw.List? || raw.Other? ==> r.None?
  {
    if raw == Null || raw == Str("") then None else ToFloat(raw, rt)
  }

  /** A mapping yields content, grade, writer and date; any other value is
      the content itself and leaves the other fields empty. */
  function ReadFields(v: RawValue, rt: Runtime): (r: Fields)
    ensures Stripped(r.content)
    ensures r.writer.Some? ==> r.writer.value != [] && Stripped(r.writer.value)
    ensures !v.Dict? ==> r == Fields(Strip(StrOrEmpty(v, rt)), None, None, None)
    ensures v.Dict? ==> r.content == Strip(StrOrEmpty(Get(v.entries, "content"), rt))
    ensures v.Dict? && HasKey(v.entries, "rating") ==> r.grade == GradeOf(Get(v.entries, "rating"), rt)
    ensures v.Dict? && !HasKey(v.entries, "rating") ==> r.grade == GradeOf(Get(v.entries, "grade"), rt)
    ensures v.Dict? ==> r.createdAt == ParseDateValue(Get(v.entries, "created_at"))
    ensures v.Dict? ==> (r.writer.None? <==> Strip(StrOrEmpty(Get(v.entries, "review_writer"), rt)) == [])
    ensures v.Dict? && r.writer.Some? ==> r.writer.value == Strip(StrOrEmpty(Get(v.entries, "review_writer"), rt))
  {
    match v
    case Dict(es) =>
      var gradeRaw := if HasKey(es, "rating") then Get(es, "rating") else Get(es, "grade");
      var writer := Strip(StrOrEmpty(Get(es, "review_writer"), rt));
      Fields(
        Strip(StrOrEmpty(Get(es, "content"), rt)),
        GradeOf(gradeRaw, rt),
        if writer == [] then None else Some(writer),
        ParseDateValue(Get(es, "created_at")))
    case _ => Fields(Strip(StrOrEmpty(v, rt)), None, None, None)
  }

  /** The shape every returned review has. */
  predicate Accepted(r: ProductReview, url: string) {
    && r.content != [] && Stripped(r.content)
    && (r.reviewWriter.Some? ==> r.reviewWriter.value != [] && Stripped(r.reviewWriter.value))
    && r.productDomain.None? && r.productName.None?
    && r.sourceUrl == Some(url)
  }

  /** One loop iteration: skip the entry if its key is not an int or its
      content is blank, otherwise build the review. */
  function ToReview(key: RawValue, value: RawValue, url: string, rt: Runtime): (r: Option<ProductReview>)
    ensures r.Some? <==> ToInt(key).Some? && ReadFields(value, rt).content != []
    ensures r.Some? ==> r.value.id == ToInt(key).value && Accepted(r.value, url)
  {
    match ToInt(key)
    case None => None
    case Some(id) =>
      var f := ReadFields(value, rt);
      if f.content == [] then None
      else Some(ProductReview(id, f.content, None, None, f.writer, f.grade, f.createdAt, Some(url)))
  }

  /** Blank content drops an entry whatever else it carries. */
  lemma BlankContentIsDropped(key: RawValue, value: RawValue, url: string, rt: Runtime)
    requires value.Dict? ==> AllSpace(StrOrEmpty(Get(value.entries, "content"), rt))
    requires !value.Dict? ==> AllSpace(StrOrEmpty(value, rt))
    ensures ToReview(key, value, url, rt).None?
  {
    if value.Dict? {
      StripEmptyIffBlank(StrOrEmpty(Get(value.entries, "content"), rt));
    } else {
      StripEmptyIffBlank(StrOrEmpty(value, rt));
    }
  }

  // ----- the whole result -----

  /** `enumerate(xs, start=1)` */
  function Enumerate(xs: seq<RawValue>, start: int): (r: seq<(RawValue, RawValue)>)
    ensures |r| == |xs|
    ensures forall i :: 0 <= i < |xs| ==> r[i] == (Int(start + i), xs[i])
  {
    seq(|xs|, i requires 0 <= i < |xs| => (Int(start + i), xs[i]))
  }

  /** The key/value pairs `collect` iterates over: a mapping's own items, a
      list's elements keyed by position from 1, nothing for other shapes. */
  function Items(raw: RawValue): (r: Option<seq<(RawValue, RawValue)>>)
    ensures r.Some? <==> raw.Dict? || raw.List?
    ensures raw.Dict? ==> r == Some(raw.entries)
    ensures raw.List? ==> |r.value| == |raw.items| &&
                          forall i :: 0 <= i < |raw.items| ==> r.value[i] == (Int(i + 1), raw.items[i])
  {
    match raw
    case Dict(es) => Some(es)
    case List(xs) => Some(Enumerate(xs, 1))
    case _ => None
  }

  /** The review one entry contributes: none, or exactly one. */
  function Kept(e: (RawValue, RawValue), url: string, rt: Runtime): (r: seq<ProductReview>)
    ensures |r| <= 1
    ensures r == [] <==> ToReview(e.0, e.1, url, rt).None?
    ensures r != [] ==> r[0] == ToReview(e.0, e.1, url, rt).value && Accepted(r[0], url)
  {
    match ToReview(e.0, e.1, url, rt)
    case Some(x) => [x]
    case None => []
  }

  /** The reviews built from `entries`, in iteration order. */
  function Gather(entries: seq<(RawValue, RawValue)>, url: string, rt: Runtime): (r: seq<ProductReview>)
    ensures |r| <= |entries|
    ensures forall i :: 0 <= i < |r| ==> Accepted(r[i], url)
  {
    if entries == [] then [] else Kept(entries[0], url, rt) + Gather(entries[1..], url, rt)
  }

  lemma {:induction false} GatherAppend(a: seq<(RawValue, RawValue)>, b: seq<(RawValue, RawValue)>, url: string, rt: Runtime)
    ensures Gather(a + b, url, rt) == Gather(a, url, rt) + Gather(b, url, rt)
  {
    if a == [] {
      assert a + b == b;
    } else {
      assert (a + b)[0] == a[0];
      assert (a + b)[1..] == a[1..] + b;
      GatherAppend(a[1..], b, url, rt);
    }
  }

  /** An entry whose key `int()` rejects, or whose content is blank, is
      skipped and the other entries are unaffected. */
  lemma SkippedEntryChangesNothing(a: seq<(RawValue, RawValue)>, key: RawValue, value: RawValue,
                                   b: seq<(RawValue, RawValue)>, url: string, rt: Runtime)
    requires ToInt(key).None? || ReadFields(value, rt).content == []
    ensures Gather(a + [(key, value)] + b, url, rt) == Gather(a + b, url, rt)
  {
    GatherAppend(a + [(key, value)], b, url, rt);
    GatherAppend(a, [(key, value)], url, rt);
    GatherAppend(a, b, url, rt);
    GatherSingle((key, value), url, rt);
  }

  lemma GatherSingle(e: (RawValue, RawValue), url: string, rt: Runtime)
    ensures Gather([e], url, rt) == Kept(e, url, rt)
  {
    assert [e][1..] == [];
  }

  lemma GatherPair(e1: (RawValue, RawValue), e2: (RawValue, RawValue), url: string, rt: Runtime)
    ensures Gather([e1, e2], url, rt) == Kept(e1, url, rt) + Kept(e2, url, rt)
  {
    assert [e1, e2][1..] == [e2];
    GatherSingle(e2, url, rt);
  }

  /** Normalization of a crawler result, everything after the crawler call. */
  function Normalize(raw: RawValue, url: string, rt: Runtime): (r: Result<seq<ProductReview>, CollectError>)
    ensures Items(raw).None? <==> r == Failure(UnexpectedResultType)
    ensures Items(raw).Some? ==> (r == Failure(NoReviewsCollected) <==> Gather(Items(raw).value, url, rt) == [])
    ensures r.Failure? ==> r.error == UnexpectedResultType || r.error == NoReviewsCollected
    ensures r.Success? ==> 0 < |r.value| <= |Items(raw).value|
    ensures r.Success? ==> SortedById(r.value)
    ensures r.Success? ==> forall i :: 0 <= i < |r.value| ==> Accepted(r.value[i], url)
  {
    match Items(raw)
    case None => Failure(UnexpectedResultType)
    case Some(items) =>
      var kept := Gather(items, url, rt);
      if kept == [] then Failure(NoReviewsCollected)
      else
        var sorted := SortById(kept);
        SortByIdPermutes(kept);
        assert forall i :: 0 <= i < |sorted| ==> Accepted(sorted[i], url) by {
          forall i | 0 <= i < |sorted| ensures Accepted(sorted[i], url) {
            assert sorted[i] in multiset(kept);
          }
        }
        Success(sorted)
  }

  /** Normalization returns exactly the gathered reviews, reordered. */
  lemma NormalizePermutes(raw: RawValue, url: string, rt: Runtime)
    requires Normalize(raw, url, rt).Success?
    ensures multiset(Normalize(raw, url, rt).value) == multiset(Gather(Items(raw).value, url, rt))
  {
    SortByIdPermutes(Gather(Items(raw).value, url, rt));
  }

  /** The sort is stable: the reviews sharing an id come back in the
      order they were gathered in. */
  lemma NormalizeStable(raw: RawValue, url: string, rt: Runtime, k: int)
    requires Normalize(raw, url, rt).Success?
    ensures WithId(Normalize(raw, url, rt).value, k) == WithId(Gather(Items(raw).value, url, rt), k)
  {
    SortByIdStable(Gather(Items(raw).value, url, rt), k);
  }

  /** `collect(product_url)` with the crawler as a parameter. A blank URL
      fails before the crawler is consulted; otherwise the crawler is asked
      about the stripped URL only and its failure is propagated. */
  function Collect(productUrl: string, crawler: Crawler, rt: Runtime): (r: Result<seq<ProductReview>, CollectError>)
    ensures AllSpace(productUrl) <==> r == Failure(ProductUrlRequired)
    ensures !AllSpace(productUrl) && crawler(Strip(productUrl)).Failure? ==>
              r == Failure(CrawlFailed(crawler(Strip(productUrl)).error))
    ensures !AllSpace(productUrl) && crawler(Strip(productUrl)).Success? ==>
              r == Normalize(crawler(Strip(productUrl)).value, Strip(productUrl), rt)
    ensures r.Success? ==> |r.value| > 0 && SortedById(r.value)
    ensures r.Success? ==> forall i :: 0 <= i < |r.value| ==> Accepted(r.value[i], Strip(productUrl))
  {
    StripEmptyIffBlank(productUrl);
    var url := Strip(productUrl);
    if url == [] then Failure(ProductUrlRequired)
    else
      match crawler(url)
      case Failure(e) => Failure(CrawlFailed(e))
      case Success(raw) => Normalize(raw, url, rt)
  }

  /** The crawler is consulted only about the stripped URL: crawlers that
      agree there give the same outcome. */
  lemma CollectDependsOnStrippedUrlOnly(productUrl: string, c1: Crawler, c2: Crawler, rt: Runtime)
    requires c1(Strip(productUrl)) == c2(Strip(productUrl))
    ensures Collect(productUrl, c1, rt) == Collect(productUrl, c2, rt)
  {
  }

  // ----- keys and ids -----

  /** Keys that are ints in strictly increasing order, as a list's positions are. */
  /** Every id of `g` lies in `lo .. hi`. */
  predicate IdsWithin(g: seq<ProductReview>, lo: int, hi: int) {
    forall i :: 0 <= i < |g| ==> lo <= g[i].id <= hi
  }

  predicate IncreasingIntKeys(entries: seq<(RawValue, RawValue)>) {
    && (forall i :: 0 <= i < |entries| ==> entries[i].0.Int?)
    && (forall i, j :: 0 <= i < j < |entries| ==> entries[i].0.i < entries[j].0.i)
  }

  /** Over strictly increasing int keys the gathered ids increase strictly
      and stay within the range of the keys. */
  lemma {:induction false} GatherIncreasingKeys(entries: seq<(RawValue, RawValue)>, url: string, rt: Runtime)
    requires IncreasingIntKeys(entries)
    ensures StrictlyIncreasingIds(Gather(entries, url, rt))
    ensures entries != [] ==> IdsWithin(Gather(entries, url, rt), entries[0].0.i, entries[|entries| - 1].0.i)
  {
    if entries != [] {
      var tail := entries[1..];
      var lo, hi := entries[0].0.i, entries[|entries| - 1].0.i;
      IncreasingTail(entries);
      GatherIncreasingKeys(tail, url, rt);
      var gt := Gather(tail, url, rt);
      var h := Kept(entries[0], url, rt);
      KeptKeyId(entries[0], url, rt);
      assert Gather(entries, url, rt) == h + gt;
      PrependIncreasing(h, gt, lo, hi);
    }
  }

  /** The tail of increasing keys is increasing, and lies strictly between
      the first key and the last. */
  lemma IncreasingTail(entries: seq<(RawValue, RawValue)>)
    requires IncreasingIntKeys(entries) && entries != []
    ensures IncreasingIntKeys(entries[1..])
    ensures entries[0].0.i <= entries[|entries| - 1].0.i
    ensures entries[1..] != [] ==> entries[1..][0] == entries[1] && entries[1..][|entries| - 2] == entries[|entries| - 1]
    ensures forall i :: 0 <= i < |entries| - 1 ==> entries[0].0.i < entries[1..][i].0.i <= entries[|entries| - 1].0.i
  {
    var tail := entries[1..];
    assert forall i :: 0 <= i < |tail| ==> tail[i] == entries[i + 1];
  }

  /** The review an entry with an int key keeps carries that key as its id. */
  lemma KeptKeyId(e: (RawValue, RawValue), url: string, rt: Runtime)
    requires e.0.Int?
    ensures forall i :: 0 <= i < |Kept(e, url, rt)| ==> Kept(e, url, rt)[i].id == e.0.i
  {
  }

  /** At most one review with id `lo` in front of strictly increasing ids
      above `lo` keeps them strictly increasing. */
  lemma PrependIncreasing(h: seq<ProductReview>, t: seq<ProductReview>, lo: int, hi: int)
    requires |h| <= 1 && lo <= hi
    requires forall i :: 0 <= i < |h| ==> h[i].id == lo
    requires StrictlyIncreasingIds(t)
    requires forall i :: 0 <= i < |t| ==> lo < t[i].id <= hi
    ensures StrictlyIncreasingIds(h + t)
    ensures IdsWithin(h + t, lo, hi)
  {
    var g := h + t;
    forall i, j | 0 <= i < j < |g| ensures g[i].id < g[j].id {
      assert g[j] == t[j - |h|];
      if i >= |h| {
        assert g[i] == t[i - |h|];
      }
    }
  }

  /** A list result keeps its order: ids are positions 1..|xs|, strictly
      increasing, and sorting leaves the gathered reviews as they were. */
  lemma ListResultKeepsOrder(xs: seq<RawValue>, url: string, rt: Runtime)
    requires Normalize(List(xs), url, rt).Success?
    ensures var r := Normalize(List(xs), url, rt).value;
            && r == Gather(Enumerate(xs, 1), url, rt)
            && StrictlyIncreasingIds(r)
            && forall i :: 0 <= i < |r| ==> 1 <= r[i].id <= |xs|
  {
    var es := Enumerate(xs, 1);
    assert Items(List(xs)) == Some(es);
    EnumerateIncreasing(xs);
    GatherIncreasingKeys(es, url, rt);
    NormalizeKeepsSortedGather(List(xs), url, rt);
  }

  /** A list's positions are increasing int keys running from 1. */
  lemma EnumerateIncreasing(xs: seq<RawValue>)
    ensures IncreasingIntKeys(Enumerate(xs, 1))
    ensures xs != [] ==> Enumerate(xs, 1)[0].0.i == 1 && Enumerate(xs, 1)[|xs| - 1].0.i == |xs|
  {
  }

  /** An entry whose value is a non-blank stripped string becomes a review
      with that content and nothing else set. */
  lemma StringEntry(key: RawValue, id: int, s: string, url: string, rt: Runtime)
    requires ToInt(key) == Some(id)
    requires s != [] && Stripped(s)
    ensures Kept((key, Str(s)), url, rt) == [ProductReview(id, s, None, None, None, None, None, Some(url))]
  {
    StripOfStripped(s);
  }

  /** An entry with an int key and non-blank content becomes exactly the
      review built from its fields. */
  lemma EntryKept(key: RawValue, id: int, v: RawValue, url: string, rt: Runtime)
    requires ToInt(key) == Some(id) && ReadFields(v, rt).content != []
    ensures var f := ReadFields(v, rt);
            Kept((key, v), url, rt) == [ProductReview(id, f.content, None, None, f.writer, f.grade, f.createdAt, Some(url))]
  {
  }

  /** Keys such as "1" and "01" are distinct but `int()` reads both as 1. */
  lemma LeadingZeroKeys(n: nat)
    ensures Str(NatToDecimal(n)) != Str("0" + NatToDecimal(n))
    ensures ToInt(Str(NatToDecimal(n))) == Some(n)
    ensures ToInt(Str("0" + NatToDecimal(n))) == Some(n)
  {
    IntLiteralRoundTrip(n);
    LeadingZeroLiteral(n);
  }

  /** When the gathered reviews are already in id order, normalization
      returns them exactly as gathered. */
  lemma NormalizeKeepsSortedGather(raw: RawValue, url: string, rt: Runtime)
    requires Items(raw).Some?
    requires Gather(Items(raw).value, url, rt) != [] && SortedById(Gather(Items(raw).value, url, rt))
    ensures Normalize(raw, url, rt) == Success(Gather(Items(raw).value, url, rt))
  {
    SortSortedIsIdentity(Gather(Items(raw).value, url, rt));
  }

  lemma TwoInOrder(r1: ProductReview, r2: ProductReview)
    requires r1.id <= r2.id
    ensures SortedById([r1, r2])
  {
  }

  /** Ids need not be unique: two distinct keys that `int()` reads as the
      same number (such as "1" and "01", see `LeadingZeroKeys`) both become
      that id, and the stable sort keeps the two reviews in mapping order. */
  lemma DuplicateIdsArePossible(k1: RawValue, k2: RawValue, id: int, s1: string, s2: string, url: string, rt: Runtime)
    requires k1 != k2 && ToInt(k1) == Some(id) && ToInt(k2) == Some(id)
    requires s1 != [] && Stripped(s1) && s2 != [] && Stripped(s2)
    ensures var r := Normalize(Dict([(k1, Str(s1)), (k2, Str(s2))]), url, rt);
            && r.Success? && |r.value| == 2
            && r.value[0].id == id && r.value[1].id == id
            && r.value[0].content == s1 && r.value[1].content == s2
  {
    var e1, e2 := (k1, Str(s1)), (k2, Str(s2));
    var r1 := ProductReview(id, s1, None, None, None, None, None, Some(url));
    var r2 := ProductReview(id, s2, None, None, None, None, None, Some(url));
    StringEntry(k1, id, s1, url, rt);
    StringEntry(k2, id, s2, url, rt);
    TwoInOrder(r1, r2);
    NormalizePair(e1, e2, r1, r2, url, rt);
  }

  /** Two entries that each keep one review, in id order, come back as
      those two reviews. */
  lemma NormalizePair(e1: (RawValue, RawValue), e2: (RawValue, RawValue), r1: ProductReview, r2: ProductReview,
                      url: string, rt: Runtime)
    requires Kept(e1, url, rt) == [r1] && Kept(e2, url, rt) == [r2] && SortedById([r1, r2])
    ensures Normalize(Dict([e1, e2]), url, rt) == Success([r1, r2])
  {
    GatherPair(e1, e2, url, rt);
    NormalizeInOrder([e1, e2], [r1, r2], url, rt);
  }

  /** Entries whose reviews are already in id order are returned as they are. */
  lemma NormalizeInOrder(es: seq<(RawValue, RawValue)>, rs: seq<ProductReview>, url: string, rt: Runtime)
    requires Gather(es, url, rt) == rs && rs != [] && SortedById(rs)
    ensures Normalize(Dict(es), url, rt) == Success(rs)
  {
    assert Items(Dict(es)) == Some(es);
    NormalizeKeepsSortedGather(Dict(es), url, rt);
  }

  /** A mapping {"content": a + c + b, "rating": g} with blank `a`, `b`
      reads as content `c` with the grade `float(g)`. */
  lemma PaddedContentFields(a: string, c: string, b: string, g: string, rt: Runtime)
    requires AllSpace(a) && AllSpace(b) && Stripped(c) && g != []
    ensures var f := ReadFields(Dict([(Str("content"), Str(a + c + b)), (Str("rating"), Str(g))]), rt);
            f.content == c && f.grade == rt.parseFloat(g)
  {
    var inner := [(Str("content"), Str(a + c + b)), (Str("rating"), Str(g))];
    StripPadded(a, c, b);
    assert HasKey(inner, "rating") by { assert inner[1].0 == Str("rating"); }
    assert Get(inner, "rating") == Str(g) by {
      assert inner[1..][0] == (Str("rating"), Str(g));
    }
  }

  /** The worked example: {k1: s, k2: {"content": a + c + b, "rating": g}}
      with keys read as 1 and 2 and blank padding `a`, `b` gives review 1
      with content `s` and no grade, then review 2 with content `c` and
      the grade `float(g)`. */
  lemma MappingExample(k1: RawValue, k2: RawValue, s: string, a: string, c: string, b: string, g: string, url: string, rt: Runtime)
    requires ToInt(k1) == Some(1) && ToInt(k2) == Some(2)
    requires s != [] && Stripped(s) && c != [] && Stripped(c) && AllSpace(a) && AllSpace(b) && g != []
    ensures var raw := Dict([(k1, Str(s)), (k2, Dict([(Str("content"), Str(a + c + b)), (Str("rating"), Str(g))]))]);
            var r := Normalize(raw, url, rt);
            && r.Success? && |r.value| == 2
            && r.value[0].id == 1 && r.value[0].content == s && r.value[0].grade.None?
            && r.value[1].id == 2 && r.value[1].content == c && r.value[1].grade == rt.parseFloat(g)
  {
    var inner := Dict([(Str("content"), Str(a + c + b)), (Str("rating"), Str(g))]);
    var e1, e2 := (k1, Str(s)), (k2, inner);
    StringEntry(k1, 1, s, url, rt);
    PaddedContentFields(a, c, b, g, rt);
    var f := ReadFields(inner, rt);
    EntryKept(k2, 2, inner, url, rt);
    var r1 := ProductReview(1, s, None, None, None, None, None, Some(url));
    var r2 := ProductReview(2, c, None, None, f.writer, f.grade, f.createdAt, Some(url));
    TwoInOrder(r1, r2);
    NormalizePair(e1, e2, r1, r2, url, rt);
  }

  /** A present `rating` key decides the grade even when its value is
      `None`; the legacy `grade` key is then ignored. */
  lemma RatingKeyShadowsGrade(rt: Runtime)
    ensures ReadFields(Dict([(Str("rating"), Null), (Str("grade"), Float(4.5))]), rt).grade.None?
  {
    var es := [(Str("rating"), Null), (Str("grade"), Float(4.5))];
    assert HasKey(es, "rating") by { assert es[0].0 == Str("rating"); }
  }
}
