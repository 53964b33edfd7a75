/** `_analyze_naver_shopping_product_url_and_get_html_list` over an abstract
    browser: build a driver (headless first, headed once as the fallback),
    run the pagination plan, translate the two selenium errors the crawler
    catches, and quit the driver on every path once one was built. */
module Pagination {
  import opened Wrappers
  import opened CrawlerPort
  import opened ReviewExtraction
  import opened PagePlan
  import opened RawValues

  /** One browser operation and the exception it raised, if any. */
  datatype Step = Step(call: Call, fault: Option<DriverFault>)

  /** The browser, taken as given: whether an operation raises depends on
      everything done before it, and so does the page source a capture
      returns. */
  datatype Browser = Browser(
    perform: (seq<Step>, Call) -> Option<DriverFault>,
    pageSource: seq<Step> -> string)

  function Calls(t: seq<Step>): (r: seq<Call>)
    ensures |r| == |t|
    ensures forall k {:trigger r[k]} :: 0 <= k < |t| ==> r[k] == t[k].call
  {
    seq(|t|, k requires 0 <= k < |t| => t[k].call)
  }

  lemma CallsAppend(t: seq<Step>, s: Step)
    ensures Calls(t + [s]) == Calls(t) + [s.call]
  {
  }

  predicate Faultless(t: seq<Step>) {
    forall k :: 0 <= k < |t| ==> t[k].fault.None?
  }

  /** Every step's outcome is what the browser answered, given the steps
      before it (`before` first, then the earlier steps of `t`). */
  predicate AnsweredBy(b: Browser, before: seq<Step>, t: seq<Step>) {
    forall k :: 0 <= k < |t| ==> AnsweredAt(b, before, t, k)
  }

  /** Step `k` of `t` raised what the browser answered at that point. */
  predicate AnsweredAt(b: Browser, before: seq<Step>, t: seq<Step>, k: int)
    requires 0 <= k < |t|
  {
    t[k].fault == b.perform(before + t[..k], t[k].call)
  }

  /** The page sources of the captures in `t` that did not raise, in order. */
  function Snapshots(b: Browser, before: seq<Step>, t: seq<Step>): seq<string> {
    if t == [] then []
    else
      var init, last := t[..|t| - 1], t[|t| - 1];
      Snapshots(b, before, init)
        + (if last.call == Capture && last.fault.None? then [b.pageSource(before + init)] else [])
  }

  /** The selenium exceptions caught around the session become HTTP 500
      errors; every other exception propagates unchanged. */
  function Translate(f: DriverFault): (e: CrawlError)
    ensures HttpStatus(e) == Some(500) <==> f == NoSuchElement || f == ElementNotInteractable
    ensures f == NoSuchElement <==> e == ElementNotFound
    ensures f == ElementNotInteractable <==> e == InteractionFailed
    ensures !(f == NoSuchElement || f == ElementNotInteractable) ==> e == Raised(f)
  {
    if f == NoSuchElement then ElementNotFound
    else if f == ElementNotInteractable then InteractionFailed
    else Raised(f)
  }

  // ----- building the driver, headless first -----

  /** `builds` is the build phase: a headless build, and a headed build
      exactly when the headless one raised a `WebDriverException`. */
  predicate BuildPhase(b: Browser, builds: seq<Step>) {
    && 1 <= |builds| <= 2
    && builds[0] == Step(Build(true), b.perform([], Build(true)))
    && (|builds| == 2 <==> builds[0].fault.Some? && IsWebDriverException(builds[0].fault.value))
    && (|builds| == 2 ==> builds[1] == Step(Build(false), b.perform(builds[..1], Build(false))))
  }

  /** The build phase ended with a driver. */
  predicate Launched(builds: seq<Step>)
    requires builds != []
  {
    builds[|builds| - 1].fault.None?
  }

  method BuildDriver(b: Browser) returns (builds: seq<Step>)
    ensures BuildPhase(b, builds)
  {
    var headless := b.perform([], Build(true));
    builds := [Step(Build(true), headless)];
    if headless.Some? && IsWebDriverException(headless.value) {
      var headed := b.perform(builds, Build(false));
      builds := builds + [Step(Build(false), headed)];
    }
  }

  /** At most one headed build, and only after a headless build that raised
      a `WebDriverException`; no other step builds a driver. */
  lemma FallbackAtMostOnce(b: Browser, builds: seq<Step>)
    requires BuildPhase(b, builds)
    ensures forall k :: 0 <= k < |builds| && builds[k].call == Build(false) ==>
              k == 1 && builds[0].fault.Some? && IsWebDriverException(builds[0].fault.value)
    ensures |Calls(builds)| <= 2 && Calls(builds)[0] == Build(true)
  {
  }

  // ----- the session inside the `try` block -----

  /** The review count on the first captured page, once the session got
      that far. */
  function FirstCount(b: Browser, parser: Parser, before: seq<Step>, session: seq<Step>): Option<int>
    requires |session| >= 3
  {
    ReviewCount(parser, b.pageSource(before + session[..3]))
  }

  /** The calls of `session` follow the plan: the opening calls, then the
      page visits the review count on the first page asks for. */
  predicate OnPlan(b: Browser, parser: Parser, url: string, before: seq<Step>, session: seq<Step>) {
    if |session| <= 4 then Calls(session) <= OpeningCalls(url)
    else
      var n := FirstCount(b, parser, before, session);
      n.Some? && Calls(session) <= SessionCalls(url, PageCount(n.value))
  }

  /** What the session block does with the browser and what it yields
      (before the driver is quit): it follows the plan, stops at the first
      exception and translates it, fails if the count cannot be read, and
      otherwise yields the snapshots of the whole plan. */
  predicate SessionOutcome(b: Browser, parser: Parser, url: string, before: seq<Step>, session: seq<Step>,
                           r: Result<seq<string>, CrawlError>) {
    && StopsAtFirstFault(b, before, session)
    && OnPlan(b, parser, url, before, session)
    && (session[|session| - 1].fault.Some? ==> r == Failure(Translate(session[|session| - 1].fault.value)))
    && (session[|session| - 1].fault.None? ==> SessionYield(b, parser, url, before, session, r))
  }

  /** The steps were answered by the browser and only the last one may
      have raised. */
  predicate StopsAtFirstFault(b: Browser, before: seq<Step>, session: seq<Step>) {
    && session != []
    && AnsweredBy(b, before, session)
    && (forall k :: 0 <= k < |session| - 1 ==> session[k].fault.None?)
  }

  /** What a session that raised nothing yields: the count-unreadable
      failure right after the opening calls, or the snapshots of the whole
      plan. */
  predicate SessionYield(b: Browser, parser: Parser, url: string, before: seq<Step>, session: seq<Step>,
                         r: Result<seq<string>, CrawlError>) {
    && |session| >= 4
    && match FirstCount(b, parser, before, session)
       case None => |session| == 4 && r == Failure(ReviewCountUnreadable)
       case Some(n) =>
         && Calls(session) == SessionCalls(url, PageCount(n))
         && r == Success(Snapshots(b, before, session))
         && |r.value| == SnapshotCount(PageCount(n))
         && r.value[0] == b.pageSource(before + session[..3])
         && ClickedPages(Calls(session)) == PageButtons(PageCount(n))
  }

  /** One browser operation after `before + t`. */
  function Perform(b: Browser, before: seq<Step>, t: seq<Step>, c: Call): (r: seq<Step>)
    ensures |r| == |t| + 1 && r[..|t|] == t && r[|t|].call == c
    ensures r[|t|].fault == b.perform(before + t, c)
  {
    t + [Step(c, b.perform(before + t, c))]
  }

  lemma PerformAnswered(b: Browser, before: seq<Step>, t: seq<Step>, c: Call)
    requires AnsweredBy(b, before, t)
    ensures AnsweredBy(b, before, Perform(b, before, t, c))
    ensures Calls(Perform(b, before, t, c)) == Calls(t) + [c]
    ensures Faultless(t) ==> forall k :: 0 <= k < |t| ==> Perform(b, before, t, c)[k].fault.None?
  {
    var r := Perform(b, before, t, c);
    assert r[..|r| - 1] == t;
    forall k | 0 <= k < |r| ensures AnsweredAt(b, before, r, k) {
      if k < |t| {
        assert r[..k] == t[..k] && AnsweredAt(b, before, t, k);
      }
    }
  }

  lemma {:induction false} SnapshotsWithoutCapture(b: Browser, before: seq<Step>, t: seq<Step>, u: seq<Step>)
    requires |t| <= |u| && u[..|t|] == t
    requires forall k :: |t| <= k < |u| ==> u[k].call != Capture
    ensures Snapshots(b, before, u) == Snapshots(b, before, t)
    decreases |u|
  {
    if |u| > |t| {
      var init := u[..|u| - 1];
      assert init[..|t|] == t;
      SnapshotsWithoutCapture(b, before, t, init);
    } else {
      assert u == t;
    }
  }

  /** Steps after `t` whose only capture is the last one, and it did not
      raise, add exactly the page source at that capture. */
  lemma SnapshotsEndingInCapture(b: Browser, before: seq<Step>, t: seq<Step>, u: seq<Step>)
    requires |t| < |u| && u[..|t|] == t
    requires forall k :: |t| <= k < |u| - 1 ==> u[k].call != Capture
    requires u[|u| - 1] == Step(Capture, None)
    ensures Snapshots(b, before, u) == Snapshots(b, before, t) + [b.pageSource(before + u[..|u| - 1])]
  {
    var init := u[..|u| - 1];
    assert init[..|t|] == t;
    SnapshotsWithoutCapture(b, before, t, init);
  }

  /** Performs `calls` in order after `t`, stopping at the first one that
      raises. */
  method PerformAll(b: Browser, before: seq<Step>, t: seq<Step>, calls: seq<Call>) returns (u: seq<Step>)
    requires calls != [] && AnsweredBy(b, before, t) && Faultless(t)
    ensures |t| < |u| <= |t| + |calls| && u[..|t|] == t
    ensures AnsweredBy(b, before, u)
    ensures Calls(u) == Calls(t) + calls[..|u| - |t|]
    ensures forall k :: 0 <= k < |u| - 1 ==> u[k].fault.None?
    ensures u[|u| - 1].fault.None? ==> |u| == |t| + |calls|
  {
    u := t;
    var j := 0;
    while j < |calls|
      invariant 0 <= j <= |calls| && |u| == |t| + j && u[..|t|] == t
      invariant Faultless(u) && AnsweredBy(b, before, u)
      invariant Calls(u) == Calls(t) + calls[..j]
    {
      var next := Perform(b, before, u, calls[j]);
      PerformStep(b, before, t, u, calls, j);
      u := next;
      if u[|u| - 1].fault.Some? {
        return;
      }
      j := j + 1;
    }
  }

  lemma PerformStep(b: Browser, before: seq<Step>, t: seq<Step>, u: seq<Step>, calls: seq<Call>, j: nat)
    requires j < |calls| && |u| == |t| + j && u[..|t|] == t
    requires AnsweredBy(b, before, u) && Faultless(u)
    requires Calls(u) == Calls(t) + calls[..j]
    ensures var next := Perform(b, before, u, calls[j]);
            && next[..|t|] == t
            && AnsweredBy(b, before, next)
            && Calls(next) == Calls(t) + calls[..j + 1]
            && forall k :: 0 <= k < |next| - 1 ==> next[k].fault.None?
  {
    PerformAnswered(b, before, u, calls[j]);
    assert calls[..j + 1] == calls[..j] + [calls[j]];
    var next := Perform(b, before, u, calls[j]);
    assert next[..|t|] == u[..|t|];
  }

  lemma StoppedOutcome(b: Browser, parser: Parser, url: string, before: seq<Step>, session: seq<Step>, f: DriverFault)
    requires session != [] && AnsweredBy(b, before, session)
    requires forall k :: 0 <= k < |session| - 1 ==> session[k].fault.None?
    requires OnPlan(b, parser, url, before, session)
    requires session[|session| - 1].fault == Some(f)
    ensures SessionOutcome(b, parser, url, before, session, Failure(Translate(f)))
  {
  }

  lemma UnreadableOutcome(b: Browser, parser: Parser, url: string, before: seq<Step>, session: seq<Step>)
    requires AnsweredBy(b, before, session) && Faultless(session)
    requires Calls(session) == OpeningCalls(url)
    requires FirstCount(b, parser, before, session).None?
    ensures SessionOutcome(b, parser, url, before, session, Failure(ReviewCountUnreadable))
  {
  }

  lemma CompletedOutcome(b: Browser, parser: Parser, url: string, before: seq<Step>, session: seq<Step>,
                         n: int, snaps: seq<string>)
    requires AnsweredBy(b, before, session) && Faultless(session) && |session| >= 4
    requires FirstCount(b, parser, before, session) == Some(n)
    requires Calls(session) == SessionCalls(url, PageCount(n))
    requires snaps == Snapshots(b, before, session)
    requires |snaps| == SnapshotCount(PageCount(n)) && snaps[0] == b.pageSource(before + session[..3])
    ensures SessionOutcome(b, parser, url, before, session, Success(snaps))
  {
    SessionClicksPageButtons(url, PageCount(n));
  }

  /** The `try` block of `_analyze_naver_shopping_product_url_and_get_html_list`,
      without the `except` and `finally` parts: the opening calls, the count
      on the first page, then one visit per page control, stopping at the
      first exception. */
  method RunSession(b: Browser, parser: Parser, url: string, before: seq<Step>)
    returns (r: Result<seq<string>, CrawlError>, session: seq<Step>)
    ensures SessionOutcome(b, parser, url, before, session, r)
  {
    session := PerformAll(b, before, [], OpeningCalls(url));
    if session[|session| - 1].fault.Some? {
      r := Failure(Translate(session[|session| - 1].fault.value));
      OpeningStopped(b, parser, url, before, session);
    } else {
      Opened(b, before, url, session);
      var count := ReviewCount(parser, b.pageSource(before + session[..3]));
      if count.None? {
        r := Failure(ReviewCountUnreadable);
        UnreadableOutcome(b, parser, url, before, session);
      } else {
        r, session := RunPages(b, parser, url, before, session, count.value);
      }
    }
  }

  /** The opening calls stopped at an exception. */
  lemma OpeningStopped(b: Browser, parser: Parser, url: string, before: seq<Step>, session: seq<Step>)
    requires 0 < |session| <= 4 && AnsweredBy(b, before, session)
    requires Calls(session) == OpeningCalls(url)[..|session|]
    requires forall k :: 0 <= k < |session| - 1 ==> session[k].fault.None?
    requires session[|session| - 1].fault.Some?
    ensures SessionOutcome(b, parser, url, before, session, Failure(Translate(session[|session| - 1].fault.value)))
  {
    StoppedOutcome(b, parser, url, before, session, session[|session| - 1].fault.value);
  }

  /** The opening calls all went through: the first page was captured. */
  lemma Opened(b: Browser, before: seq<Step>, url: string, session: seq<Step>)
    requires |session| == 4 && AnsweredBy(b, before, session)
    requires Calls(session) == OpeningCalls(url)[..|session|]
    requires forall k :: 0 <= k < |session| - 1 ==> session[k].fault.None?
    requires session[|session| - 1].fault.None?
    ensures Faultless(session) && Calls(session) == OpeningCalls(url)
    ensures Snapshots(b, before, session) == [b.pageSource(before + session[..3])]
  {
    assert session[..0] == [];
    forall k | 0 <= k < 4 ensures session[k].call == OpeningCalls(url)[k] {
      assert session[k].call == Calls(session)[k];
    }
    SnapshotsEndingInCapture(b, before, [], session);
  }

  /** The session once the first page's count `n` was read: the page
      visits the count asks for. */
  method RunPages(b: Browser, parser: Parser, url: string, before: seq<Step>, start: seq<Step>, n: int)
    returns (r: Result<seq<string>, CrawlError>, session: seq<Step>)
    requires AnsweredBy(b, before, start) && Faultless(start) && |start| == 4
    requires Calls(start) == OpeningCalls(url)
    requires Snapshots(b, before, start) == [b.pageSource(before + start[..3])]
    requires FirstCount(b, parser, before, start) == Some(n)
    ensures SessionOutcome(b, parser, url, before, session, r)
  {
    var snaps;
    r, session, snaps := VisitPages(b, before, url, PageCount(n), start);
    PagesOutcome(b, parser, url, before, start, n, r, session, snaps);
  }

  /** What the page visits did, after the opening calls `start`: stopped at
      the first exception, on the plan, or made every call of the plan and
      captured one snapshot per page. */
  predicate PagesVisited(b: Browser, before: seq<Step>, url: string, pages: int, start: seq<Step>,
                         r: Result<seq<string>, CrawlError>, session: seq<Step>, snaps: seq<string>)
    requires |start| == 4
  {
    && |session| >= 4 && session[..4] == start
    && AnsweredBy(b, before, session)
    && (forall k :: 0 <= k < |session| - 1 ==> session[k].fault.None?)
    && (r.Failure? <==> session[|session| - 1].fault.Some?)
    && (r.Failure? ==> r == Failure(Translate(session[|session| - 1].fault.value)))
    && (r.Failure? ==> Calls(session) <= SessionCalls(url, pages))
    && (r.Success? ==>
          && Calls(session) == SessionCalls(url, pages)
          && r.value == snaps == Snapshots(b, before, session)
          && |snaps| == SnapshotCount(pages) && snaps[0] == b.pageSource(before + start[..3]))
  }

  lemma PagesOutcome(b: Browser, parser: Parser, url: string, before: seq<Step>, start: seq<Step>, n: int,
                     r: Result<seq<string>, CrawlError>, session: seq<Step>, snaps: seq<string>)
    requires |start| == 4 && FirstCount(b, parser, before, start) == Some(n)
    requires PagesVisited(b, before, url, PageCount(n), start, r, session, snaps)
    ensures SessionOutcome(b, parser, url, before, session, r)
  {
    FirstCountKept(b, parser, before, start, session);
    if r.Failure? {
      StoppedOutcome(b, parser, url, before, session, session[|session| - 1].fault.value);
    } else {
      VisitedAllPages(b, before, url, PageCount(n), start, r, session, snaps);
      CompletedOutcome(b, parser, url, before, session, n, snaps);
    }
  }

  /** Later steps do not change the first page's count. */
  lemma FirstCountKept(b: Browser, parser: Parser, before: seq<Step>, start: seq<Step>, session: seq<Step>)
    requires |start| == 4 && |session| >= 4 && session[..4] == start
    ensures FirstCount(b, parser, before, session) == FirstCount(b, parser, before, start)
  {
    assert session[..3] == session[..4][..3];
  }

  /** The page visits made every call of the plan. */
  lemma VisitedAllPages(b: Browser, before: seq<Step>, url: string, pages: int, start: seq<Step>,
                        r: Result<seq<string>, CrawlError>, session: seq<Step>, snaps: seq<string>)
    requires |start| == 4 && PagesVisited(b, before, url, pages, start, r, session, snaps) && r.Success?
    ensures AnsweredBy(b, before, session) && Faultless(session) && |session| >= 4
    ensures Calls(session) == SessionCalls(url, pages)
    ensures snaps == Snapshots(b, before, session)
    ensures |snaps| == SnapshotCount(pages) && snaps[0] == b.pageSource(before + session[..3])
  {
    assert session[..3] == session[..4][..3];
  }

  /** The `for i in range(3, pages + 2)` loop: one visit per page control
      `3 .. pages + 1` after the opening calls. */
  method VisitPages(b: Browser, before: seq<Step>, url: string, pages: int, start: seq<Step>)
    returns (r: Result<seq<string>, CrawlError>, session: seq<Step>, snaps: seq<string>)
    requires AnsweredBy(b, before, start) && Faultless(start) && |start| == 4
    requires Calls(start) == OpeningCalls(url)
    requires Snapshots(b, before, start) == [b.pageSource(before + start[..3])]
    ensures PagesVisited(b, before, url, pages, start, r, session, snaps)
  {
    session := start;
    snaps := [b.pageSource(before + start[..3])];
    var i := FirstPageControl;
    assert start[..4] == start;
    while i < pages + 2
      invariant FirstPageControl <= i && (FirstPageControl <= pages + 2 ==> i <= pages + 2)
      invariant pages + 2 < FirstPageControl ==> i == FirstPageControl
      invariant Visited(b, before, url, start, session, snaps, i)
      decreases pages + 2 - i
    {
      var prev := session;
      session := VisitPage(b, before, prev, i);
      if session[|session| - 1].fault.Some? {
        r := Failure(Translate(session[|session| - 1].fault.value));
        VisitStopped(b, before, url, pages, start, prev, session, snaps, i);
        return;
      }
      VisitedNext(b, before, url, pages, start, prev, session, snaps, i);
      snaps := snaps + [b.pageSource(before + session[..|session| - 1])];
      i := i + 1;
    }
    VisitedAll(b, before, url, pages, start, session, snaps, i);
    r := Success(snaps);
  }

  /** Once every control of the plan was visited, the session made the
      whole plan's calls and captured one snapshot per page. */
  lemma VisitedAll(b: Browser, before: seq<Step>, url: string, pages: int, start: seq<Step>,
                   session: seq<Step>, snaps: seq<string>, i: int)
    requires |start| == 4 && Visited(b, before, url, start, session, snaps, i)
    requires i == if FirstPageControl <= pages + 2 then pages + 2 else FirstPageControl
    ensures Calls(session) == SessionCalls(url, pages)
    ensures snaps == Snapshots(b, before, session)
    ensures |snaps| == SnapshotCount(pages)
    ensures AnsweredBy(b, before, session) && session[|session| - 1].fault.None?
    ensures forall k :: 0 <= k < |session| - 1 ==> session[k].fault.None?
  {
    if pages + 2 < FirstPageControl {
      assert PageCalls(FirstPageControl, i) == [] == PageCalls(FirstPageControl, pages + 2);
    }
  }

  /** The state of `VisitPages` once the controls `3 .. i - 1` were visited
      without an exception. */
  predicate Visited(b: Browser, before: seq<Step>, url: string, start: seq<Step>,
                    session: seq<Step>, snaps: seq<string>, i: int)
    requires |start| == 4
  {
    && |session| >= 4 && session[..4] == start
    && Calls(session) == OpeningCalls(url) + PageCalls(FirstPageControl, i)
    && Faultless(session) && AnsweredBy(b, before, session)
    && snaps == Snapshots(b, before, session)
    && FirstPageControl <= i && |snaps| == i - 2 && snaps[0] == b.pageSource(before + start[..3])
  }

  /** A page visit that did not raise extends the visited controls by one. */
  lemma VisitedNext(b: Browser, before: seq<Step>, url: string, pages: int, start: seq<Step>,
                    prev: seq<Step>, session: seq<Step>, snaps: seq<string>, i: int)
    requires |start| == 4 && FirstPageControl <= i < pages + 2
    requires Visited(b, before, url, start, prev, snaps, i)
    requires PageVisited(b, before, prev, session, i) && session[|session| - 1].fault.None?
    ensures Visited(b, before, url, start, session, snaps + [b.pageSource(before + session[..|session| - 1])], i + 1)
  {
    assert session[..4] == session[..|prev|][..4];
    PageCallsGrow(FirstPageControl, i, pages + 2);
    assert Calls(session) == (OpeningCalls(url) + PageCalls(FirstPageControl, i)) + PageStep(i);
  }

  /** A page visit that raised leaves calls on the plan. */
  lemma VisitStopped(b: Browser, before: seq<Step>, url: string, pages: int, start: seq<Step>,
                     prev: seq<Step>, session: seq<Step>, snaps: seq<string>, i: int)
    requires |start| == 4 && FirstPageControl <= i < pages + 2
    requires Visited(b, before, url, start, prev, snaps, i)
    requires PageVisited(b, before, prev, session, i)
    ensures |session| >= 4 && session[..4] == start
    ensures Calls(session) <= SessionCalls(url, pages)
    ensures AnsweredBy(b, before, session)
    ensures forall k :: 0 <= k < |session| - 1 ==> session[k].fault.None?
  {
    assert session[..4] == session[..|prev|][..4];
    PageVisitOnPlan(url, pages, i, Calls(prev), Calls(session), |session| - |prev|);
  }

  /** What visiting the page control at position `nth` after `prev` did:
      the steps answered by the browser, stopping at the first exception,
      with the wait, click and capture on success and one more snapshot. */
  predicate PageVisited(b: Browser, before: seq<Step>, prev: seq<Step>, u: seq<Step>, nth: int) {
    && |prev| < |u| <= |prev| + 3 && u[..|prev|] == prev
    && AnsweredBy(b, before, u)
    && Calls(u) == Calls(prev) + PageStep(nth)[..|u| - |prev|]
    && (forall k :: 0 <= k < |u| - 1 ==> u[k].fault.None?)
    && (u[|u| - 1].fault.None? ==>
          && |u| == |prev| + 3 && Faultless(u)
          && Snapshots(b, before, u) == Snapshots(b, before, prev) + [b.pageSource(before + u[..|u| - 1])])
  }

  /** Visiting the page control at position `nth`: wait for it, click it
      and capture the page, stopping at the first exception. */
  method VisitPage(b: Browser, before: seq<Step>, prev: seq<Step>, nth: int) returns (u: seq<Step>)
    requires AnsweredBy(b, before, prev) && Faultless(prev)
    ensures PageVisited(b, before, prev, u, nth)
  {
    u := PerformAll(b, before, prev, PageStep(nth));
    if u[|u| - 1].fault.None? {
      assert Calls(u) == Calls(prev) + PageStep(nth);
      assert forall k :: |prev| <= k < |u| - 1 ==> u[k].call != Capture by {
        forall k | |prev| <= k < |u| - 1 ensures u[k].call != Capture {
          assert u[k].call == Calls(u)[k] == PageStep(nth)[k - |prev|];
        }
      }
      assert u[|u| - 1].call == Calls(u)[|u| - 1] == Capture;
      SnapshotsEndingInCapture(b, before, prev, u);
    }
  }

  /** Calls stopped part-way through a page visit are still on the plan. */
  lemma PageVisitOnPlan(url: string, pages: int, i: int, done: seq<Call>, now: seq<Call>, m: nat)
    requires FirstPageControl <= i < pages + 2 && m <= 3
    requires done == OpeningCalls(url) + PageCalls(FirstPageControl, i)
    requires now == done + PageStep(i)[..m]
    ensures now <= SessionCalls(url, pages)
  {
    PageCallsGrow(FirstPageControl, i, pages + 2);
    var opening, visited := OpeningCalls(url), PageCalls(FirstPageControl, i + 1);
    var plan := PageCalls(FirstPageControl, pages + 2);
    assert done + PageStep(i) == opening + visited;
    PrefixOfAppend(done, PageStep(i)[..m], PageStep(i));
    PrefixOfAppend(opening, visited, plan);
  }

  /** Extending a sequence by prefixes of a longer sequence keeps prefixes. */
  lemma PrefixOfAppend<T>(a: seq<T>, b: seq<T>, c: seq<T>)
    requires b <= c
    ensures a + b <= a + c
  {
    assert (a + c)[..|a + b|] == a + c[..|b|];
  }

  // ----- the whole fetch: build, session, `finally: driver.quit()` -----

  /** The HTML snapshots of a product page. A driver is built headless,
      or headed once if that raised a `WebDriverException`; a build failure
      propagates with nothing to quit. Otherwise the session runs and the
      driver is quit afterwards whatever happened, an exception from `quit()`
      replacing the session's outcome. */
  method Crawl(b: Browser, parser: Parser, url: string)
    returns (r: Result<seq<string>, CrawlError>, builds: seq<Step>, session: seq<Step>, closing: seq<Step>)
    ensures BuildPhase(b, builds)
    ensures !Launched(builds) ==>
              session == [] && closing == [] && r == Failure(Raised(builds[|builds| - 1].fault.value))
    ensures Launched(builds) ==> closing == [Step(Quit, b.perform(builds + session, Quit))]
    ensures Launched(builds) && closing[0].fault.Some? ==> r == Failure(Raised(closing[0].fault.value))
    ensures Launched(builds) && closing[0].fault.None? ==> SessionOutcome(b, parser, url, builds, session, r)
    ensures Launched(builds) ==> exists r0 :: SessionOutcome(b, parser, url, builds, session, r0)
  {
    builds := BuildDriver(b);
    if !Launched(builds) {
      r := Failure(Raised(builds[|builds| - 1].fault.value));
      session, closing := [], [];
      return;
    }
    var outcome;
    outcome, session := RunSession(b, parser, url, builds);
    var q := b.perform(builds + session, Quit);
    closing := [Step(Quit, q)];
    r := if q.Some? then Failure(Raised(q.value)) else outcome;
  }

  /** No session step builds or quits a driver, so across a whole crawl
      the driver is quit once, as the very last step, exactly when one was
      built. */
  lemma QuitOnlyAtTheEnd(b: Browser, parser: Parser, url: string, builds: seq<Step>, session: seq<Step>)
    requires OnPlan(b, parser, url, builds, session)
    ensures forall k :: 0 <= k < |session| ==> session[k].call != Quit && !session[k].call.Build?
  {
    var calls := Calls(session);
    var plan := if |session| <= 4 then OpeningCalls(url)
                else SessionCalls(url, PageCount(FirstCount(b, parser, builds, session).value));
    assert calls <= plan;
    PlanHasNoQuit(url, if |session| <= 4 then 0 else PageCount(FirstCount(b, parser, builds, session).value));
    assert OpeningCalls(url) <= SessionCalls(url, 0);
    forall k | 0 <= k < |session| ensures session[k].call != Quit && !session[k].call.Build? {
      assert session[k].call == calls[k] == plan[k];
      if |session| <= 4 {
        assert plan[k] == SessionCalls(url, 0)[k];
      }
    }
  }

  lemma PlanHasNoQuit(url: string, pages: int)
    ensures forall k :: 0 <= k < |SessionCalls(url, pages)| ==>
              SessionCalls(url, pages)[k] != Quit && !SessionCalls(url, pages)[k].Build?
  {
    PageCallsHaveNoQuit(FirstPageControl, pages + 2);
  }

  lemma {:induction false} PageCallsHaveNoQuit(lo: int, hi: int)
    ensures forall k :: 0 <= k < |PageCalls(lo, hi)| ==>
              PageCalls(lo, hi)[k] != Quit && !PageCalls(lo, hi)[k].Build?
    decreases hi - lo
  {
    if lo < hi {
      PageCallsHaveNoQuit(lo, hi - 1);
    }
  }

  /** `fetch_reviews`: the crawl's snapshots handed to the HTML parsing. A
      successful crawl yields at least the initial page, so the "no HTML"
      404 never arises here. */
  method FetchReviews(b: Browser, parser: Parser, parseFloat: string -> Option<real>, url: string)
    returns (r: Result<RawValue, CrawlError>, builds: seq<Step>, session: seq<Step>, closing: seq<Step>)
    ensures BuildPhase(b, builds)
    ensures Launched(builds) <==> closing == [Step(Quit, b.perform(builds + session, Quit))]
    ensures r != Failure(NoPagesLoaded)
    ensures !Launched(builds) ==> r == Failure(Raised(builds[|builds| - 1].fault.value))
    ensures Launched(builds) && closing[0].fault.Some? ==> r == Failure(Raised(closing[0].fault.value))
    ensures Launched(builds) ==> session != []
    ensures Launched(builds) && closing[0].fault.None? && session[|session| - 1].fault.Some? ==>
              r == Failure(Translate(session[|session| - 1].fault.value))
    ensures Launched(builds) && closing[0].fault.None? && Faultless(session) && |session| >= 3 &&
            FirstCount(b, parser, builds, session).None? ==>
              r == Failure(ReviewCountUnreadable)
    ensures Launched(builds) && closing[0].fault.None? && Faultless(session) && |session| >= 3 &&
            FirstCount(b, parser, builds, session).Some? ==>
              r == ParseReviews(Snapshots(b, builds, session), parser, parseFloat)
  {
    var crawled;
    crawled, builds, session, closing := Crawl(b, parser, url);
    match crawled
    case Failure(e) =>
      r := Failure(e);
    case Success(pages) =>
      r := ParseReviews(pages, parser, parseFloat);
  }
}
