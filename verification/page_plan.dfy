/** The pagination plan of the Naver crawler: how many reviews and pages
    are visited, which page controls are clicked, and the browser calls
    one crawl session makes when nothing goes wrong. */
module PagePlan {
  import opened Wrappers
  import opened PyText
  import opened ReviewExtraction

  /** Reviews counted at most. */
  const ReviewCountLimit := 100
  /** Reviews shown on one page. */
  const ReviewsPerPage := 20
  /** Pages visited at most. */
  const PageLimit := 5
  /** The position (`nth-child`) of the control for page 2; the control for
      page `p` sits at position `p + 1`. */
  const FirstPageControl := 3

  /** `min(count, 100)` */
  function CappedReviewCount(n: int): (c: int)
    ensures c <= ReviewCountLimit
    ensures n <= ReviewCountLimit ==> c == n
    ensures n >= ReviewCountLimit ==> c == ReviewCountLimit
  {
    if n <= ReviewCountLimit then n else ReviewCountLimit
  }

  /** `min(capped // 20 + 1, 5)`; Python's `//` and Dafny's `/` agree for a
      positive divisor. */
  function PageCount(n: int): (p: int)
    ensures p <= PageLimit
  {
    var c := CappedReviewCount(n);
    if c / ReviewsPerPage + 1 <= PageLimit then c / ReviewsPerPage + 1 else PageLimit
  }

  /** For a non-negative count the plan visits one to five pages. */
  lemma PageCountRange(n: int)
    requires 0 <= n
    ensures 1 <= PageCount(n) <= PageLimit
  {
  }

  /** The pages hold every counted review (up to the cap of 100), and the
      plan asks for at most one page beyond the last full one: with `p`
      pages, `20 * (p - 1) <= min(n, 100) <= 20 * p`, and below five pages
      the last page is never full to the brim. */
  lemma PageCountCoversReviews(n: int)
    requires 0 <= n
    ensures var c, p := CappedReviewCount(n), PageCount(n);
            && ReviewsPerPage * (p - 1) <= c <= ReviewsPerPage * p
            && (p < PageLimit ==> c < ReviewsPerPage * p)
  {
    var c := CappedReviewCount(n);
    assert ReviewsPerPage * (c / ReviewsPerPage) <= c < ReviewsPerPage * (c / ReviewsPerPage + 1);
  }

  /** More reviews never mean fewer pages. */
  lemma PageCountMonotone(n: int, m: int)
    requires n <= m
    ensures PageCount(n) <= PageCount(m)
  {
    var c, d := CappedReviewCount(n), CappedReviewCount(m);
    assert c <= d;
    assert c / 20 <= d / 20 by {
      assert 20 * (c / 20) <= c <= d < 20 * (d / 20) + 20;
    }
  }

  /** A negative count (which the badge is not expected to show) gives no
      page at all beyond the initial one. */
  lemma NegativeCountHasNoPages(n: int)
    requires n < 0
    ensures PageCount(n) <= 0
  {
    assert n / ReviewsPerPage <= -1;
  }

  /** `range(3, pages + 2)`: the positions of the page controls clicked. */
  function PageButtons(pages: int): (r: seq<int>)
    ensures |r| == if pages >= 2 then pages - 1 else 0
    ensures forall k :: 0 <= k < |r| ==> r[k] == FirstPageControl + k
    decreases pages
  {
    if pages < 2 then [] else PageButtons(pages - 1) + [pages + 1]
  }

  /** The number of snapshots a full run returns: the initial page plus one
      per page control. */
  function SnapshotCount(pages: int): (s: nat)
    ensures s == 1 + |PageButtons(pages)|
    ensures 1 <= pages ==> s == pages
  {
    if pages >= 1 then pages else 1
  }

  /** `get_number_of_reviews_registered`: the badge text with its commas
      removed, read by `int()`; `None` when the badge is missing or not an
      integer. */
  function ReviewCount(parser: Parser, html: string): (r: Option<int>)
    ensures parser.reviewCountBadge(html).None? ==> r.None?
    ensures r.Some? ==> Strip(RemoveChar(parser.reviewCountBadge(html).value, ',')) != []
  {
    match parser.reviewCountBadge(html)
    case None => None
    case Some(text) => ParseIntLiteral(RemoveChar(text, ','))
  }

  /** A badge showing a count in plain decimal is read as that count. */
  lemma ReviewCountReadsDecimal(parser: Parser, html: string, n: int)
    requires parser.reviewCountBadge(html) == Some(IntToDecimal(n))
    ensures ReviewCount(parser, html) == Some(n)
  {
    DecimalHasNoComma(n);
    RemoveAbsentChar(IntToDecimal(n), ',');
    IntLiteralRoundTrip(n);
  }

  lemma DecimalHasNoComma(n: int)
    ensures forall k :: 0 <= k < |IntToDecimal(n)| ==> IntToDecimal(n)[k] != ','
  {
    var m: nat := if n < 0 then -n else n;
    var digits := NatToDecimal(m);
    assert AllDigits(digits);
    if n < 0 {
      assert IntToDecimal(n) == "-" + digits;
      assert forall k :: 1 <= k < |IntToDecimal(n)| ==> IntToDecimal(n)[k] == digits[k - 1];
    }
  }

  // ----- the browser calls of one session -----

  /** The elements the crawler waits for and clicks. */
  datatype Selector =
    | ReviewAllButton     // the "all reviews" control
    | PageButton(nth: int)  // the pagination control at position `nth`

  /** The browser operations the crawler performs. */
  datatype Call =
    | Build(headless: bool)
    | Open(url: string)
    | WaitClickable(target: Selector)
    | Click(target: Selector)
    | Capture
    | Quit

  /** Open the product page, reveal all reviews, capture the first page. */
  function OpeningCalls(url: string): seq<Call> {
    [Open(url), WaitClickable(ReviewAllButton), Click(ReviewAllButton), Capture]
  }

  /** Visiting one further page: wait for its control, click it, capture. */
  function PageStep(nth: int): seq<Call> {
    [WaitClickable(PageButton(nth)), Click(PageButton(nth)), Capture]
  }

  /** The calls for the controls at positions `lo` up to `hi - 1`. */
  function PageCalls(lo: int, hi: int): (r: seq<Call>)
    ensures |r| == if lo <= hi then 3 * (hi - lo) else 0
    decreases hi - lo
  {
    if hi <= lo then [] else PageCalls(lo, hi - 1) + PageStep(hi - 1)
  }

  /** Every call of a session that succeeds with `pages` pages. */
  function SessionCalls(url: string, pages: int): seq<Call> {
    OpeningCalls(url) + PageCalls(FirstPageControl, pages + 2)
  }

  /** Visiting one more control extends the calls so far to a prefix of the
      calls for any later bound. */
  lemma {:induction false} PageCallsGrow(lo: int, i: int, hi: int)
    requires lo <= i < hi
    ensures PageCalls(lo, i + 1) == PageCalls(lo, i) + PageStep(i)
    ensures PageCalls(lo, i + 1) <= PageCalls(lo, hi)
    decreases hi - i
  {
    if i + 1 < hi {
      PageCallsGrow(lo, i + 1, hi);
    }
  }

  /** The page controls a list of calls clicks, in order. */
  function ClickedPages(calls: seq<Call>): seq<int> {
    if calls == [] then []
    else
      var last := calls[|calls| - 1];
      ClickedPages(calls[..|calls| - 1]) + (if last.Click? && last.target.PageButton? then [last.target.nth] else [])
  }

  /** How many captures a list of calls makes. */
  function CaptureCount(calls: seq<Call>): nat {
    if calls == [] then 0
    else CaptureCount(calls[..|calls| - 1]) + (if calls[|calls| - 1] == Capture then 1 else 0)
  }

  lemma {:induction false} ClickedPagesAppend(a: seq<Call>, b: seq<Call>)
    ensures ClickedPages(a + b) == ClickedPages(a) + ClickedPages(b)
    ensures CaptureCount(a + b) == CaptureCount(a) + CaptureCount(b)
    decreases |b|
  {
    if b == [] {
      assert a + b == a;
    } else {
      var b' := b[..|b| - 1];
      assert (a + b)[..|a + b| - 1] == a + b';
      ClickedPagesAppend(a, b');
    }
  }

  lemma OneCallCounts(c: Call)
    ensures ClickedPages([c]) == if c.Click? && c.target.PageButton? then [c.target.nth] else []
    ensures CaptureCount([c]) == if c == Capture then 1 else 0
  {
    assert [c][..0] == [];
  }

  lemma PageStepCounts(nth: int)
    ensures ClickedPages(PageStep(nth)) == [nth]
    ensures CaptureCount(PageStep(nth)) == 1
  {
    var w, c := WaitClickable(PageButton(nth)), Click(PageButton(nth));
    assert PageStep(nth) == [w, c] + [Capture];
    assert [w, c] == [w] + [c];
    ClickedPagesAppend([w, c], [Capture]);
    ClickedPagesAppend([w], [c]);
    OneCallCounts(w);
    OneCallCounts(c);
    OneCallCounts(Capture);
  }

  lemma {:induction false} PageCallsCounts(lo: int, hi: int)
    requires lo <= hi
    ensures ClickedPages(PageCalls(lo, hi)) == seq(hi - lo, k requires 0 <= k < hi - lo => lo + k)
    ensures CaptureCount(PageCalls(lo, hi)) == hi - lo
    decreases hi - lo
  {
    if lo < hi {
      PageCallsCounts(lo, hi - 1);
      ClickedPagesAppend(PageCalls(lo, hi - 1), PageStep(hi - 1));
      PageStepCounts(hi - 1);
      assert seq(hi - lo, k requires 0 <= k < hi - lo => lo + k)
          == seq(hi - 1 - lo, k requires 0 <= k < hi - 1 - lo => lo + k) + [hi - 1];
    }
  }

  lemma OpeningCounts(url: string)
    ensures ClickedPages(OpeningCalls(url)) == []
    ensures CaptureCount(OpeningCalls(url)) == 1
  {
    var o, w, c := Open(url), WaitClickable(ReviewAllButton), Click(ReviewAllButton);
    assert OpeningCalls(url) == [o, w, c] + [Capture];
    assert [o, w, c] == [o, w] + [c];
    assert [o, w] == [o] + [w];
    ClickedPagesAppend([o, w, c], [Capture]);
    ClickedPagesAppend([o, w], [c]);
    ClickedPagesAppend([o], [w]);
    OneCallCounts(o);
    OneCallCounts(w);
    OneCallCounts(c);
    OneCallCounts(Capture);
  }

  /** A full session clicks exactly the page controls `3 .. pages + 1`, in
      increasing order, and captures one snapshot per page. */
  lemma SessionClicksPageButtons(url: string, pages: int)
    ensures ClickedPages(SessionCalls(url, pages)) == PageButtons(pages)
    ensures CaptureCount(SessionCalls(url, pages)) == SnapshotCount(pages)
  {
    var opening, rest := OpeningCalls(url), PageCalls(FirstPageControl, pages + 2);
    ClickedPagesAppend(opening, rest);
    OpeningCounts(url);
    PageCallsClicks(pages);
  }

  /** The page visits of a full session click the controls `3 .. pages + 1`
      and capture once per control. */
  lemma PageCallsClicks(pages: int)
    ensures ClickedPages(PageCalls(FirstPageControl, pages + 2)) == PageButtons(pages)
    ensures CaptureCount(PageCalls(FirstPageControl, pages + 2)) == |PageButtons(pages)|
  {
    if FirstPageControl <= pages + 2 {
      PageCallsCounts(FirstPageControl, pages + 2);
      PageButtonsRange(pages);
    } else {
      assert PageCalls(FirstPageControl, pages + 2) == [];
    }
  }

  lemma PageButtonsRange(pages: int)
    requires 1 <= pages
    ensures PageButtons(pages) == seq(pages - 1, k requires 0 <= k < pages - 1 => FirstPageControl + k)
  {
  }
}
