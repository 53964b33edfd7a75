/** The HTML side of the Naver crawler: what `_parse_reviews_from_html_list`
    and its three field extractors make of the captured review pages. The
    HTML parser itself is a parameter: it hands back, per page, the review
    items with the text of the nodes the crawler selects. */
module ReviewExtraction {
  import opened Wrappers
  import opened PyText
  import opened Dates
  import opened RawValues
  import opened CrawlerPort

  /** One review `<li>` as the selectors see it: the text of each selected
      node, or `None` when the selector matches nothing. `content` is the
      review-text span inside the first content `<div>`. */
  datatype ReviewItem = ReviewItem(
    content: Option<string>,
    ratingText: Option<string>,
    dateText: Option<string>,
    writerText: Option<string>)

  /** The HTML queries, taken as given: the review items of a page in
      document order, and the text of the review-count badge. */
  datatype Parser = Parser(
    items: string -> seq<ReviewItem>,
    reviewCountBadge: string -> Option<string>)

  // ----- field extractors -----

  /** `_extract_rating`: the stripped text of the rating node read by
      `float()`, and 0.0 when the node is missing or not a number. */
  function ExtractRating(tag: Option<string>, parseFloat: string -> Option<real>): (r: real)
    ensures tag.None? ==> r == 0.0
    ensures tag.Some? && parseFloat(Strip(tag.value)).None? ==> r == 0.0
    ensures tag.Some? && parseFloat(Strip(tag.value)).Some? ==> r == parseFloat(Strip(tag.value)).value
  {
    match tag
    case None => 0.0
    case Some(text) =>
      match parseFloat(Strip(text))
      case Some(x) => x
      case None => 0.0
  }

  /** `_extract_created_at`: the stripped text without trailing dots, read
      as `%y.%m.%d`; `None` when the node is missing or the text is not such
      a date. */
  function ExtractCreatedAt(tag: Option<string>): (r: Option<CalendarDate>)
    ensures tag.None? ==> r.None?
    ensures r.Some? ==> 1969 <= r.value.year <= 2068
  {
    match tag
    case None => None
    case Some(text) => Strptime(RStripDots(Strip(text)), ShortYearDotted)
  }

  /** A date rendered as `yy.mm.dd`, with surrounding whitespace and any
      number of trailing dots, is read back as that date. */
  lemma CreatedAtRoundTrip(d: CalendarDate, a: string, dots: string, b: string)
    requires 1969 <= d.year <= 2068
    requires AllSpace(a) && AllSpace(b)
    requires forall k :: 0 <= k < |dots| ==> dots[k] == '.'
    ensures ExtractCreatedAt(Some(a + FormatDate(d, ShortYearDotted) + dots + b)) == Some(d)
  {
    var text := FormatDate(d, ShortYearDotted);
    assert Stripped(text + dots) && RStripDots(text + dots) == text by {
      RenderedCore(d, ShortYearDotted, dots);
    }
    assert a + (text + dots) + b == a + text + dots + b;
    StripPadded(a, text + dots, b);
    FormatParseRoundTrip(d, ShortYearDotted);
  }

  /** `_extract_writer`: the stripped text of the writer node, `None` when
      the node is missing or its text is blank. */
  function ExtractWriter(tag: Option<string>): (r: Option<string>)
    ensures r.Some? ==> r.value != [] && Stripped(r.value)
    ensures tag.None? ==> r.None?
    ensures tag.Some? ==> (r.None? <==> AllSpace(tag.value))
  {
    match tag
    case None => None
    case Some(text) =>
      StripEmptyIffBlank(text);
      var w := Strip(text);
      if w == [] then None else Some(w)
  }

  /** A writer name padded with whitespace is read back as the name. */
  lemma WriterRoundTrip(a: string, w: string, b: string)
    requires AllSpace(a) && AllSpace(b) && w != [] && Stripped(w)
    ensures ExtractWriter(Some(a + w + b)) == Some(w)
  {
    StripPadded(a, w, b);
  }

  // ----- content normalization -----

  /** The characters the content normalization treats as blanks. */
  predicate IsBlank(c: char) {
    c == ' ' || c == '\n'
  }

  /** No two spaces in a row. */
  predicate NoDoubleSpace(s: string) {
    forall k :: 0 < k < |s| ==> !DoubleSpaceAt(s, k)
  }

  /** `s[k - 1]` and `s[k]` are both spaces. */
  predicate DoubleSpaceAt(s: string, k: int)
    requires 0 < k < |s|
  {
    s[k - 1] == ' ' && s[k] == ' '
  }

  /** What `re.sub(' +', ' ', re.sub('\n', ' ', s))` leaves alone. */
  predicate IsNormalContent(s: string) {
    (forall k :: 0 <= k < |s| ==> s[k] != '\n') && NoDoubleSpace(s)
  }

  /** `re.sub('\n', ' ', s)` */
  function ReplaceNewlines(s: string): (r: string)
    ensures |r| == |s|
    ensures forall k :: 0 <= k < |s| ==> r[k] == if s[k] == '\n' then ' ' else s[k]
    ensures forall k :: 0 <= k < |r| ==> r[k] != '\n'
  {
    if s == [] then []
    else [if s[0] == '\n' then ' ' else s[0]] + ReplaceNewlines(s[1..])
  }

  lemma {:induction false} ReplaceNewlinesAppend(a: string, b: string)
    ensures ReplaceNewlines(a + b) == ReplaceNewlines(a) + ReplaceNewlines(b)
  {
    if a == [] {
      assert a + b == b;
    } else {
      assert (a + b)[1..] == a[1..] + b;
      ReplaceNewlinesAppend(a[1..], b);
    }
  }

  lemma {:induction false} ReplaceNewlinesIdentity(s: string)
    requires forall k :: 0 <= k < |s| ==> s[k] != '\n'
    ensures ReplaceNewlines(s) == s
  {
    if s != [] {
      ReplaceNewlinesIdentity(s[1..]);
    }
  }

  /** `re.sub(' +', ' ', s)`: every run of spaces becomes a single space. */
  function CollapseSpaces(s: string): (r: string)
    ensures |r| <= |s|
    ensures s != [] ==> r != [] && r[0] == s[0]
  {
    if |s| < 2 then s
    else if s[0] == ' ' && s[1] == ' ' then CollapseSpaces(s[1..])
    else [s[0]] + CollapseSpaces(s[1..])
  }

  /** The collapse leaves no two spaces in a row and brings in no newline. */
  lemma {:induction false} CollapseNormal(s: string)
    ensures NoDoubleSpace(CollapseSpaces(s))
    ensures (forall k :: 0 <= k < |s| ==> s[k] != '\n') ==>
              forall k :: 0 <= k < |CollapseSpaces(s)| ==> CollapseSpaces(s)[k] != '\n'
  {
    if |s| >= 2 {
      var t := CollapseSpaces(s[1..]);
      CollapseNormal(s[1..]);
      if !(s[0] == ' ' && s[1] == ' ') {
        var r := [s[0]] + t;
        assert CollapseSpaces(s) == r;
        assert forall k :: 1 <= k < |r| ==> r[k] == t[k - 1];
        assert forall k :: 1 < k < |r| ==> DoubleSpaceAt(r, k) == DoubleSpaceAt(t, k - 1);
        if (forall k :: 0 <= k < |s| ==> s[k] != '\n') {
          assert forall k :: 0 <= k < |s| - 1 ==> s[1..][k] == s[k + 1];
        }
      } else if (forall k :: 0 <= k < |s| ==> s[k] != '\n') {
        assert forall k :: 0 <= k < |s| - 1 ==> s[1..][k] == s[k + 1];
      }
    }
  }

  /** A character other than a space is never merged with its neighbours:
      the collapse works on each side of it separately. */
  lemma CollapseSplitsAtNonSpace(x: string, c: char, y: string)
    requires c != ' '
    ensures CollapseSpaces(x + [c] + y) == CollapseSpaces(x) + [c] + CollapseSpaces(y)
  {
    var s := x + [c] + y;
    assert s[..|x|] == x && s[|x|] == c && s[|x| + 1..] == y;
    CollapseSplitsAt(s, |x|);
  }

  /** The same split, at position `i` of one string. */
  lemma {:induction false} CollapseSplitsAt(s: string, i: nat)
    requires i < |s| && s[i] != ' '
    ensures CollapseSpaces(s) == CollapseSpaces(s[..i]) + [s[i]] + CollapseSpaces(s[i + 1..])
    decreases i
  {
    if i == 0 {
      assert s == [s[0]] + s[1..];
      CollapseNonSpaceFront(s[0], s[1..]);
    } else {
      CollapseSplitsAt(s[1..], i - 1);
      CollapseSplitsStep(s, i);
    }
    AppendAssoc(CollapseSpaces(s[..i]), [s[i]], CollapseSpaces(s[i + 1..]));
  }

  lemma CollapseSplitsStep(s: string, i: nat)
    requires 0 < i < |s| && s[i] != ' '
    requires var tail := s[1..];
             CollapseSpaces(tail) == CollapseSpaces(tail[..i - 1]) + [tail[i - 1]] + CollapseSpaces(tail[i..])
    ensures CollapseSpaces(s) == CollapseSpaces(s[..i]) + ([s[i]] + CollapseSpaces(s[i + 1..]))
  {
    var tail := s[1..];
    assert tail[..i - 1] == s[..i][1..] && tail[i - 1] == s[i] && tail[i..] == s[i + 1..];
    AppendAssoc(CollapseSpaces(tail[..i - 1]), [tail[i - 1]], CollapseSpaces(tail[i..]));
    CollapseHead(s[..i], s, CollapseSpaces(tail), [s[i]] + CollapseSpaces(s[i + 1..]));
  }

  lemma AppendAssoc<T>(a: seq<T>, b: seq<T>, c: seq<T>)
    ensures a + b + c == a + (b + c)
  {
  }

  /** A leading character other than a space is kept as it is. */
  lemma CollapseNonSpaceFront(c: char, y: string)
    requires c != ' '
    ensures CollapseSpaces([c] + y) == [c] + CollapseSpaces(y)
  {
    if y != [] {
      assert ([c] + y)[1..] == y;
      CollapseStep([c] + y);
    }
  }

  /** Two strings with the same first character, whose tails collapse to
      `x`'s tail followed by `z`, collapse alike up to `z`. */
  lemma CollapseHead(x: string, s: string, t: string, z: string)
    requires |s| >= 2 && x != [] && s[0] == x[0]
    requires |x| >= 2 ==> s[1] == x[1]
    requires |x| < 2 ==> s[1] != ' '
    requires t == CollapseSpaces(s[1..]) && t == CollapseSpaces(x[1..]) + z
    ensures CollapseSpaces(s) == CollapseSpaces(x) + z
  {
    if |x| >= 2 {
      CollapseStep(s);
      CollapseStep(x);
    } else {
      CollapseSingle(x, s, t, z);
    }
  }

  lemma CollapseSingle(x: string, s: string, t: string, z: string)
    requires |s| >= 2 && |x| == 1 && s[0] == x[0] && s[1] != ' '
    requires t == CollapseSpaces(s[1..]) && t == CollapseSpaces(x[1..]) + z
    ensures CollapseSpaces(s) == CollapseSpaces(x) + z
  {
    assert x[1..] == [];
    assert CollapseSpaces(x) == x == [s[0]];
    CollapseStep(s);
  }

  /** One step of the collapse: a space followed by a space is dropped,
      any other first character is kept. */
  lemma CollapseStep(s: string)
    requires |s| >= 2
    ensures s[0] == ' ' && s[1] == ' ' ==> CollapseSpaces(s) == CollapseSpaces(s[1..])
    ensures !(s[0] == ' ' && s[1] == ' ') ==> CollapseSpaces(s) == [s[0]] + CollapseSpaces(s[1..])
  {
  }

  /** A non-empty run of spaces collapses to one space. */
  lemma {:induction false} CollapseSpaceRun(s: string)
    requires s != [] && forall k :: 0 <= k < |s| ==> s[k] == ' '
    ensures CollapseSpaces(s) == " "
  {
    if |s| >= 2 {
      CollapseSpaceRun(s[1..]);
    }
  }

  /** A string without double spaces is left as it is. */
  lemma {:induction false} CollapseIdentity(s: string)
    requires NoDoubleSpace(s)
    ensures CollapseSpaces(s) == s
  {
    if |s| >= 2 {
      assert !DoubleSpaceAt(s, 1);
      assert forall k :: 0 < k < |s| - 1 ==> DoubleSpaceAt(s[1..], k) == DoubleSpaceAt(s, k + 1);
      CollapseIdentity(s[1..]);
    }
  }

  /** The content normalization of `_parse_reviews_from_html_list`:
      newlines become spaces, then runs of spaces become one space. Nothing
      is stripped. */
  function NormalizeContent(s: string): (r: string)
    ensures IsNormalContent(r)
    ensures |r| <= |s|
    ensures s != [] ==> r != []
  {
    CollapseNormal(ReplaceNewlines(s));
    CollapseSpaces(ReplaceNewlines(s))
  }

  /** Normalizing twice is normalizing once. */
  lemma NormalizeIdempotent(s: string)
    ensures NormalizeContent(NormalizeContent(s)) == NormalizeContent(s)
  {
    var r := NormalizeContent(s);
    ReplaceNewlinesIdentity(r);
    CollapseIdentity(r);
  }

  /** Exactly the normal strings are left unchanged. */
  lemma NormalizeFixpoints(s: string)
    ensures NormalizeContent(s) == s <==> IsNormalContent(s)
  {
    if IsNormalContent(s) {
      ReplaceNewlinesIdentity(s);
      CollapseIdentity(s);
    }
  }

  /** Characters other than blanks survive in place: normalization works on
      each side of them separately. */
  lemma NormalizeSplitsAtVisible(x: string, c: char, y: string)
    requires !IsBlank(c)
    ensures NormalizeContent(x + [c] + y) == NormalizeContent(x) + [c] + NormalizeContent(y)
  {
    ReplaceNewlinesAppend(x + [c], y);
    ReplaceNewlinesAppend(x, [c]);
    assert ReplaceNewlines([c]) == [c];
    CollapseSplitsAtNonSpace(ReplaceNewlines(x), c, ReplaceNewlines(y));
  }

  /** A non-empty run of spaces and newlines becomes one space. */
  lemma NormalizeBlankRun(s: string)
    requires s != [] && forall k :: 0 <= k < |s| ==> IsBlank(s[k])
    ensures NormalizeContent(s) == " "
  {
    var t := ReplaceNewlines(s);
    assert forall k :: 0 <= k < |t| ==> t[k] == ' ' by {
      ReplaceNewlinesSpaces(s);
    }
    CollapseSpaceRun(t);
  }

  lemma {:induction false} ReplaceNewlinesSpaces(s: string)
    requires forall k :: 0 <= k < |s| ==> IsBlank(s[k])
    ensures forall k :: 0 <= k < |ReplaceNewlines(s)| ==> ReplaceNewlines(s)[k] == ' '
  {
    if s != [] {
      ReplaceNewlinesSpaces(s[1..]);
      var t := ReplaceNewlines(s[1..]);
      assert ReplaceNewlines(s) == [' '] + t;
    }
  }

  // ----- building the result mapping -----

  /** The review items of all pages, page after page. */
  function AllItems(pages: seq<string>, parser: Parser): (r: seq<ReviewItem>)
    ensures pages == [] ==> r == []
    ensures |pages| == 1 ==> r == parser.items(pages[0])
    ensures forall p :: 0 <= p < |pages| ==> multiset(parser.items(pages[p])) <= multiset(r)
  {
    if pages == [] then []
    else
      var rest := AllItems(pages[1..], parser);
      assert forall p :: 0 < p < |pages| ==> pages[p] == pages[1..][p - 1];
      parser.items(pages[0]) + rest
  }

  /** One page contributes exactly its own items, once and in document
      order; with `AllItemsAppend` this fixes the items of any run of pages. */
  lemma AllItemsSingle(page: string, parser: Parser)
    ensures AllItems([page], parser) == parser.items(page)
  {
  }

  lemma {:induction false} AllItemsAppend(a: seq<string>, b: seq<string>, parser: Parser)
    ensures AllItems(a + b, parser) == AllItems(a, parser) + AllItems(b, parser)
  {
    if a == [] {
      assert a + b == b;
    } else {
      assert (a + b)[1..] == a[1..] + b;
      AllItemsAppend(a[1..], b, parser);
    }
  }

  /** The record stored for one review item whose content node exists. */
  function ItemRecord(item: ReviewItem, parseFloat: string -> Option<real>): (r: RawValue)
    requires item.content.Some?
    ensures r.Dict? && |r.entries| == 4
    ensures r.entries[0].0 == Str("content") && r.entries[0].1.Str? && IsNormalContent(r.entries[0].1.s)
    ensures r.entries[1].0 == Str("rating") && r.entries[1].1.Float?
    ensures r.entries[2].0 == Str("created_at") && (r.entries[2].1.Null? <==> ExtractCreatedAt(item.dateText).None?)
    ensures r.entries[3].0 == Str("review_writer") && (r.entries[3].1.Null? <==> ExtractWriter(item.writerText).None?)
    ensures r.entries[3].1.Str? ==> r.entries[3].1.s != [] && Stripped(r.entries[3].1.s)
  {
    Dict([
      (Str("content"), Str(NormalizeContent(item.content.value))),
      (Str("rating"), Float(ExtractRating(item.ratingText, parseFloat))),
      (Str("created_at"), DateOrNull(ExtractCreatedAt(item.dateText))),
      (Str("review_writer"), StrOrNull(ExtractWriter(item.writerText)))])
  }

  /** A date, or Python's `None`. */
  function DateOrNull(d: Option<CalendarDate>): RawValue {
    match d
    case Some(x) => DateTime(x)
    case None => Null
  }

  /** A string, or Python's `None`. */
  function StrOrNull(w: Option<string>): RawValue {
    match w
    case Some(x) => Str(x)
    case None => Null
  }

  predicate HasContent(item: ReviewItem) {
    item.content.Some?
  }

  /** The `(review_count, record)` pairs for `items`, counting from `next`.
      The loop raises at the first item without a content node, and the
      exception discards everything built so far, so one missing node
      anywhere fails the whole parse. */
  function Records(items: seq<ReviewItem>, next: int, parseFloat: string -> Option<real>): (r: Result<seq<(RawValue, RawValue)>, CrawlError>)
    ensures r.Failure? <==> SomeMissing(items)
    ensures r.Failure? ==> r.error == ReviewContentMissing
    ensures r.Success? ==> |r.value| == |items|
    ensures r.Success? ==> forall i :: 0 <= i < |items| ==> r.value[i].0 == Int(next + i)
    ensures r.Success? ==> forall i :: 0 <= i < |items| ==> r.value[i].1 == ItemRecord(items[i], parseFloat)
  {
    if SomeMissing(items) then Failure(ReviewContentMissing)
    else Success(seq(|items|, i requires 0 <= i < |items| && HasContent(items[i]) => (Int(next + i), ItemRecord(items[i], parseFloat))))
  }

  predicate SomeMissing(items: seq<ReviewItem>) {
    exists i :: 0 <= i < |items| && !HasContent(items[i])
  }

  /** `_parse_reviews_from_html_list`: no pages is a 404; otherwise every
      review item of every page, in page order, is stored under consecutive
      ints from 1. */
  function ParseReviews(pages: seq<string>, parser: Parser, parseFloat: string -> Option<real>): (r: Result<RawValue, CrawlError>)
    ensures pages == [] <==> r == Failure(NoPagesLoaded)
    ensures r.Failure? ==> r.error == NoPagesLoaded || r.error == ReviewContentMissing
    ensures pages != [] ==> (r.Failure? <==> SomeMissing(AllItems(pages, parser)))
    ensures r.Success? ==> r.value.Dict? && |r.value.entries| == |AllItems(pages, parser)|
    ensures r.Success? ==> forall i :: 0 <= i < |r.value.entries| ==> r.value.entries[i].0 == Int(i + 1)
    ensures r.Success? ==> forall i :: 0 <= i < |AllItems(pages, parser)| ==>
              r.value.entries[i].1 == ItemRecord(AllItems(pages, parser)[i], parseFloat)
  {
    if pages == [] then Failure(NoPagesLoaded)
    else
      match Records(AllItems(pages, parser), 1, parseFloat)
      case Failure(e) => Failure(e)
      case Success(es) => Success(Dict(es))
  }
}
