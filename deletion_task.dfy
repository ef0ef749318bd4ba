/**
 * The retention sweep of the deletion task runner: list the container page
 * by page until the continuation token is null, delete the expired blobs of
 * each page in page order, count what was listed and what was deleted, and
 * report a summary.
 *
 * The storage service is replaced by its answers: `listing[k]` is the segment
 * returned by the k-th listing call, and `clock(k)` is the k-th reading of the
 * UTC clock (reading 0 is the start time, reading i + 1 is taken for page i,
 * and the reading after the last page is the end time). Deletion calls are
 * recorded, in the order issued, in the `deletions` the sweep returns.
 */
module DeletionTask {
  import opened Wrappers
  import opened Expiry

  /** An opaque continuation token of the listing protocol. */
  type Token = string

  /** One answer of the paged listing call: some blobs and the token for the next call. */
  datatype Segment = Segment(results: seq<Blob>, continuation: Option<Token>)

  /** The per-page report line: how many blobs were listed and how many are to be deleted. */
  datatype PageReport = PageReport(listed: nat, toBeDeleted: nat)

  /** Why a sweep stops before its summary. */
  datatype Failure =
    | InvalidConnectionString  // the storage connection string does not parse
    | CutoffOutOfRange         // "now minus 90 days" falls before 0001-01-01

  /** The quantities of the final summary. */
  datatype Summary = Summary(deleted: int, startTime: Ticks, endTime: Ticks, before: int, after: int, elapsed: int)

  datatype Outcome = Completed(summary: Summary) | Aborted(failure: Failure)

  /** Successive readings of DateTime.UtcNow. */
  type Clock = nat -> Ticks

  /** A clock that never goes backwards. */
  ghost predicate Monotone(clock: Clock)
  {
    forall i: nat, j: nat :: i <= j ==> clock(i) <= clock(j)
  }

  /** The service eventually answers with a segment that carries no continuation token. */
  predicate EndsListing(listing: seq<Segment>)
  {
    exists i :: 0 <= i < |listing| && listing[i].continuation.None?
  }

  /** The cutoff of page i, computed from the reading taken after listing it. */
  function PageCutoff(clock: Clock, i: nat): Result<Ticks, ClockError>
  {
    Cutoff(clock(i + 1))
  }

  /** The sweep does not go past page i: it is the last page or its cutoff throws. */
  predicate HaltsAt(listing: seq<Segment>, clock: Clock, i: nat)
    requires i < |listing|
  {
    listing[i].continuation.None? || PageCutoff(clock, i).Err?
  }

  /** The index of the first segment without a continuation token. */
  function FinalPage(listing: seq<Segment>): (n: nat)
    requires EndsListing(listing)
    ensures n < |listing| && listing[n].continuation.None?
    ensures forall i :: 0 <= i < n ==> listing[i].continuation.Some?
  {
    if listing[0].continuation.None? then 0
    else
      var i :| 0 <= i < |listing| && listing[i].continuation.None?;
      assert listing[1..][i - 1] == listing[i];
      1 + FinalPage(listing[1..])
  }

  /**
   * The sweep halts on some page of the listing: a segment without a
   * continuation token, or a page whose cutoff throws, comes up eventually.
   */
  predicate Halts(listing: seq<Segment>, clock: Clock)
  {
    exists i :: 0 <= i < |listing| && (listing[i].continuation.None? || PageCutoff(clock, i).Err?)
  }

  /** The first page at or after `from` where the sweep halts. */
  function FirstHalt(listing: seq<Segment>, clock: Clock, from: nat): (n: nat)
    requires exists i :: from <= i < |listing| && HaltsAt(listing, clock, i)
    ensures from <= n < |listing| && HaltsAt(listing, clock, n)
    ensures forall i :: from <= i < n ==> !HaltsAt(listing, clock, i)
    decreases |listing| - from
  {
    if HaltsAt(listing, clock, from) then from
    else
      var i :| from <= i < |listing| && HaltsAt(listing, clock, i);
      assert from + 1 <= i;
      FirstHalt(listing, clock, from + 1)
  }

  /** The index of the page at which the sweep stops. */
  function Stop(listing: seq<Segment>, clock: Clock): (s: nat)
    requires Halts(listing, clock)
    ensures s < |listing| && HaltsAt(listing, clock, s)
    ensures forall i :: 0 <= i < s ==> !HaltsAt(listing, clock, i)
    ensures EndsListing(listing) ==> s <= FinalPage(listing)
  {
    var i :| 0 <= i < |listing| && (listing[i].continuation.None? || PageCutoff(clock, i).Err?);
    assert HaltsAt(listing, clock, i);
    var s := FirstHalt(listing, clock, 0);
    assert EndsListing(listing) ==> HaltsAt(listing, clock, FinalPage(listing));
    s
  }

  /** The tokens passed to the first n listing calls. */
  function RequestsOf(listing: seq<Segment>, n: nat): seq<Option<Token>>
    requires n <= |listing|
  {
    if n == 0 then [] else RequestsOf(listing, n - 1) + [if n == 1 then None else listing[n - 2].continuation]
  }

  /** The number of blobs on the first n pages. */
  function TotalOf(listing: seq<Segment>, n: nat): nat
    requires n <= |listing|
  {
    if n == 0 then 0 else TotalOf(listing, n - 1) + |listing[n - 1].results|
  }

  /**
   * The cutoff page i is filtered with. When computing it throws, the page
   * loses nothing, which tick 0 stands for: no timestamp lies before it.
   */
  function SelectionCutoff(clock: Clock, i: nat): Ticks
  {
    match PageCutoff(clock, i)
    case Ok(cutoff) => cutoff
    case Err(_) => 0
  }

  /** What page i loses: its expired blobs. */
  function PageDeletions(listing: seq<Segment>, clock: Clock, i: nat): seq<Blob>
    requires i < |listing|
  {
    Expired(listing[i].results, SelectionCutoff(clock, i))
  }

  /** What page i keeps: its unexpired blobs. */
  function PageRetained(listing: seq<Segment>, clock: Clock, i: nat): seq<Blob>
    requires i < |listing|
  {
    Kept(listing[i].results, SelectionCutoff(clock, i))
  }

  /** The deletion calls for the first n pages, in the order they are issued. */
  function DeletionsOf(listing: seq<Segment>, clock: Clock, n: nat): seq<Blob>
    requires n <= |listing|
  {
    if n == 0 then [] else DeletionsOf(listing, clock, n - 1) + PageDeletions(listing, clock, n - 1)
  }

  /** The blobs of the first n pages that remain in the container. */
  function RetainedOf(listing: seq<Segment>, clock: Clock, n: nat): seq<Blob>
    requires n <= |listing|
  {
    if n == 0 then [] else RetainedOf(listing, clock, n - 1) + PageRetained(listing, clock, n - 1)
  }

  /** The per-page report lines for the first n pages. */
  function ReportsOf(listing: seq<Segment>, clock: Clock, n: nat): seq<PageReport>
    requires n <= |listing|
  {
    if n == 0 then []
    else ReportsOf(listing, clock, n - 1) + [PageReport(|listing[n - 1].results|, |PageDeletions(listing, clock, n - 1)|)]
  }

  /** Everything a sweep produces: its outcome and the calls and report lines it issues. */
  datatype Run = Run(outcome: Outcome, requests: seq<Option<Token>>, deletions: seq<Blob>, reports: seq<PageReport>)

  /** The summary after the first n pages were processed; the end time is the next clock reading. */
  function SummaryOf(listing: seq<Segment>, clock: Clock, n: nat): Summary
    requires n <= |listing|
  {
    var deleted := |DeletionsOf(listing, clock, n)|;
    var total := TotalOf(listing, n);
    Summary(deleted, clock(0), clock(n + 1), total, total - deleted, clock(n + 1) as int - clock(0))
  }

  /**
   * What a sweep does, page-wise: nothing at all when the connection string
   * is invalid; otherwise every page up to the stop page is listed, every
   * page before it is swept, and the stop page is swept too unless its
   * cutoff throws.
   */
  function SweepSpec(connectionParses: bool, listing: seq<Segment>, clock: Clock): Run
    requires Halts(listing, clock)
  {
    if !connectionParses then Run(Aborted(InvalidConnectionString), [], [], [])
    else
      var s := Stop(listing, clock);
      if PageCutoff(clock, s).Err? then
        Run(Aborted(CutoffOutOfRange), RequestsOf(listing, s + 1), DeletionsOf(listing, clock, s), ReportsOf(listing, clock, s))
      else
        Run(Completed(SummaryOf(listing, clock, s + 1)), RequestsOf(listing, s + 1),
            DeletionsOf(listing, clock, s + 1), ReportsOf(listing, clock, s + 1))
  }

  /**
   * The sweep. A connection string that does not parse stops it before any
   * listing call. Otherwise the pages are listed until the first one without
   * a continuation token, or until computing a page's cutoff throws, which
   * ends the run on that page; each page's expired blobs are deleted one by one
   * in page order and the two counters grow by the page's size and its
   * number of deletions. The summary reports the deleted count, the counts
   * before and after deletion, and the start, end and elapsed time.
   */
  method Sweep(connectionParses: bool, listing: seq<Segment>, clock: Clock)
    returns (outcome: Outcome, requests: seq<Option<Token>>, deletions: seq<Blob>, reports: seq<PageReport>)
    requires Halts(listing, clock)
    ensures Run(outcome, requests, deletions, reports) == SweepSpec(connectionParses, listing, clock)
  {
    requests, deletions, reports := [], [], [];
    var startTime := clock(0);
    if !connectionParses {
      outcome := Aborted(InvalidConnectionString);
      return;
    }
    var token: Option<Token> := None;
    var totalCount := 0;
    var deleteCount := 0;
    var page := 0;  // the number of pages fully processed
    while true
      invariant page <= Stop(listing, clock)
      invariant token == if page == 0 then None else listing[page - 1].continuation
      invariant requests == RequestsOf(listing, page)
      invariant deletions == DeletionsOf(listing, clock, page)
      invariant reports == ReportsOf(listing, clock, page)
      invariant totalCount == TotalOf(listing, page)
      invariant deleteCount == |deletions|
      invariant 0 <= deleteCount <= totalCount
      decreases Stop(listing, clock) - page
    {
      requests := requests + [token];
      var segment := listing[page];
      token := segment.continuation;
      var cutoff := Cutoff(clock(page + 1));
      if cutoff.Err? {
        AbortsAt(listing, clock, page);
        outcome := Aborted(CutoffOutOfRange);
        return;
      }
      var toBeDeleted := Expired(segment.results, cutoff.value);
      reports := reports + [PageReport(|segment.results|, |toBeDeleted|)];
      deletions := DeleteEach(deletions, toBeDeleted);
      assert deletions == DeletionsOf(listing, clock, page) + toBeDeleted;
      totalCount := totalCount + |segment.results|;
      deleteCount := deleteCount + |toBeDeleted|;
      page := page + 1;
      if token.None? {
        CompletesAt(listing, clock, page - 1);
        break;
      }
    }
    var endTime := clock(page + 1);
    outcome := Completed(Summary(deleteCount, startTime, endTime, totalCount, totalCount - deleteCount, endTime as int - startTime));
    assert outcome == Completed(SummaryOf(listing, clock, page));
  }

  /**
   * The inner loop of a page: one deletion call per selected blob, in the
   * order of the selection, appended to the calls issued so far.
   */
  method DeleteEach(issued: seq<Blob>, toBeDeleted: seq<Blob>) returns (calls: seq<Blob>)
    ensures |calls| == |issued| + |toBeDeleted|
    ensures calls[..|issued|] == issued
    ensures forall j :: 0 <= j < |toBeDeleted| ==> calls[|issued| + j] == toBeDeleted[j]
  {
    calls := issued;
    for j := 0 to |toBeDeleted|
      invariant |calls| == |issued| + j
      invariant calls[..|issued|] == issued
      invariant forall k :: 0 <= k < j ==> calls[|issued| + k] == toBeDeleted[k]
    {
      calls := calls + [toBeDeleted[j]];
    }
  }

  /** Reaching page p with a cutoff that throws: the sweep aborts there, before deleting from it. */
  lemma AbortsAt(listing: seq<Segment>, clock: Clock, p: nat)
    requires Halts(listing, clock) && p <= Stop(listing, clock) && PageCutoff(clock, p).Err?
    ensures Stop(listing, clock) == p
    ensures SweepSpec(true, listing, clock) ==
      Run(Aborted(CutoffOutOfRange), RequestsOf(listing, p + 1), DeletionsOf(listing, clock, p), ReportsOf(listing, clock, p))
  {
    assert HaltsAt(listing, clock, p);
  }

  /** Sweeping page p, whose token is null: the sweep completes after it. */
  lemma CompletesAt(listing: seq<Segment>, clock: Clock, p: nat)
    requires Halts(listing, clock) && p <= Stop(listing, clock)
    requires PageCutoff(clock, p).Ok? && listing[p].continuation.None?
    ensures Stop(listing, clock) == p
    ensures SweepSpec(true, listing, clock) ==
      Run(Completed(SummaryOf(listing, clock, p + 1)), RequestsOf(listing, p + 1),
          DeletionsOf(listing, clock, p + 1), ReportsOf(listing, clock, p + 1))
  {
    assert HaltsAt(listing, clock, p);
  }

  /**
   * An invalid connection string is reported before anything is listed or
   * deleted; otherwise at least one listing call is made, even for an empty
   * container.
   */
  lemma SweepFailsFast(connectionParses: bool, listing: seq<Segment>, clock: Clock)
    requires Halts(listing, clock)
    ensures var run := SweepSpec(connectionParses, listing, clock);
      !connectionParses <==> run.outcome == Aborted(InvalidConnectionString)
    ensures var run := SweepSpec(connectionParses, listing, clock);
      !connectionParses ==> run.requests == [] && run.deletions == [] && run.reports == []
    ensures var run := SweepSpec(connectionParses, listing, clock);
      connectionParses ==> |run.requests| >= 1 && run.requests[0] == None
  {
    if connectionParses {
      RequestsCarryTokens(listing, Stop(listing, clock) + 1);
    }
  }

  /**
   * The listing calls of a sweep: the first carries no token, each later one
   * the token of the segment before it, and the last segment listed is the
   * first without a token, unless that page's cutoff throws first.
   */
  lemma SweepListsUntilNullToken(listing: seq<Segment>, clock: Clock)
    requires Halts(listing, clock)
    ensures var run := SweepSpec(true, listing, clock); var n := |run.requests|;
      1 <= n <= |listing| &&
      (forall k :: 0 <= k < n ==> run.requests[k] == if k == 0 then None else listing[k - 1].continuation) &&
      (forall k :: 0 <= k < n - 1 ==> listing[k].continuation.Some?) &&
      (run.outcome.Completed? ==> listing[n - 1].continuation.None?)
  {
    RequestsCarryTokens(listing, Stop(listing, clock) + 1);
  }

  /**
   * The summary of a completed sweep: the deleted count is between zero and
   * the count before deletion, the count after deletion is the number of
   * blobs left on the listed pages, and with a monotone clock the elapsed
   * time is non-negative.
   */
  lemma SweepSummary(listing: seq<Segment>, clock: Clock)
    requires Halts(listing, clock)
    ensures var run := SweepSpec(true, listing, clock);
      run.outcome.Completed? ==>
        var sum := run.outcome.summary;
        sum.deleted == |run.deletions| && 0 <= sum.deleted <= sum.before &&
        sum.after == |RetainedOf(listing, clock, Stop(listing, clock) + 1)| &&
        sum.startTime == clock(0) && (Monotone(clock) ==> sum.elapsed >= 0)
  {
    var s := Stop(listing, clock);
    RequestsCarryTokens(listing, s + 1);
    DeletedWithinTotal(listing, clock, s + 1);
    AfterIsRetained(listing, clock, s + 1);
  }

  /** The deleted count never exceeds the listed count, so the after-deletion count is non-negative. */
  lemma {:induction false} DeletedWithinTotal(listing: seq<Segment>, clock: Clock, n: nat)
    requires n <= |listing|
    ensures |DeletionsOf(listing, clock, n)| <= TotalOf(listing, n)
  {
    if n > 0 {
      DeletedWithinTotal(listing, clock, n - 1);
    }
  }

  /** Listed minus deleted is exactly the number of blobs left in the container. */
  lemma {:induction false} AfterIsRetained(listing: seq<Segment>, clock: Clock, n: nat)
    requires n <= |listing|
    ensures TotalOf(listing, n) - |DeletionsOf(listing, clock, n)| == |RetainedOf(listing, clock, n)|
  {
    if n > 0 {
      AfterIsRetained(listing, clock, n - 1);
      PartitionPage(listing[n - 1].results, SelectionCutoff(clock, n - 1));
    }
  }

  /** Page i of the processed pages deleted `b`: `b` was listed there and is older than its cutoff. */
  ghost predicate ExpiredOnPage(listing: seq<Segment>, clock: Clock, i: nat, b: Blob)
    requires i < |listing|
  {
    b in listing[i].results && PageCutoff(clock, i).Ok? && IsExpired(b, PageCutoff(clock, i).value)
  }

  /**
   * A blob is deleted exactly when it was listed on one of the processed
   * pages and is older than that page's cutoff.
   */
  lemma DeletedExactly(listing: seq<Segment>, clock: Clock, n: nat, b: Blob)
    requires n <= |listing|
    ensures b in DeletionsOf(listing, clock, n) <==> exists i :: 0 <= i < n && ExpiredOnPage(listing, clock, i, b)
  {
    if b in DeletionsOf(listing, clock, n) {
      var i := DeletedFromPage(listing, clock, n, b);
    }
    if i :| 0 <= i < n && ExpiredOnPage(listing, clock, i, b) {
      ExpiredOnPageDeleted(listing, clock, n, i, b);
    }
  }

  /** Every deletion comes from a processed page on which the blob is expired. */
  lemma {:induction false} DeletedFromPage(listing: seq<Segment>, clock: Clock, n: nat, b: Blob) returns (i: nat)
    requires n <= |listing| && b in DeletionsOf(listing, clock, n)
    ensures i < n && ExpiredOnPage(listing, clock, i, b)
  {
    var last := PageDeletions(listing, clock, n - 1);
    assert DeletionsOf(listing, clock, n) == DeletionsOf(listing, clock, n - 1) + last;
    if b in last {
      ExpiredMembers(listing[n - 1].results, SelectionCutoff(clock, n - 1), b);
      i := n - 1;
    } else {
      i := DeletedFromPage(listing, clock, n - 1, b);
    }
  }

  /** Every blob expired on a processed page is deleted. */
  lemma {:induction false} ExpiredOnPageDeleted(listing: seq<Segment>, clock: Clock, n: nat, i: nat, b: Blob)
    requires i < n <= |listing| && ExpiredOnPage(listing, clock, i, b)
    ensures b in DeletionsOf(listing, clock, n)
  {
    assert DeletionsOf(listing, clock, n) == DeletionsOf(listing, clock, n - 1) + PageDeletions(listing, clock, n - 1);
    if i == n - 1 {
      ExpiredMembers(listing[i].results, SelectionCutoff(clock, i), b);
    } else {
      ExpiredOnPageDeleted(listing, clock, n - 1, i, b);
    }
  }

  /**
   * The first listing call passes no token, every later one passes the token
   * returned by the call before it, so the loop body runs at least once.
   */
  lemma {:induction false} RequestsCarryTokens(listing: seq<Segment>, n: nat)
    requires n <= |listing|
    ensures |RequestsOf(listing, n)| == n
    ensures forall k :: 0 <= k < n ==>
      RequestsOf(listing, n)[k] == if k == 0 then None else listing[k - 1].continuation
  {
    if n > 0 {
      RequestsCarryTokens(listing, n - 1);
    }
  }

  /**
   * With a monotone clock whose first page cutoff is representable, no
   * cutoff throws, and the sweep stops exactly at the first page whose
   * continuation token is null.
   */
  lemma StopAtFinalPage(listing: seq<Segment>, clock: Clock)
    requires EndsListing(listing) && Monotone(clock) && PageCutoff(clock, 0).Ok?
    ensures Stop(listing, clock) == FinalPage(listing)
    ensures PageCutoff(clock, Stop(listing, clock)).Ok?
  {
    var s := Stop(listing, clock);
    CutoffMonotone(clock(1), clock(s + 1));
  }

  /** With a monotone clock, the cutoffs of later pages never move backwards. */
  lemma PageCutoffsAdvance(clock: Clock, i: nat, j: nat)
    requires Monotone(clock) && i <= j && PageCutoff(clock, i).Ok?
    ensures PageCutoff(clock, j).Ok? && PageCutoff(clock, i).value <= PageCutoff(clock, j).value
  {
    CutoffMonotone(clock(i + 1), clock(j + 1));
  }

  /** The deletions of fewer pages are a prefix of those of more pages: page order is kept. */
  lemma {:induction false} DeletionsInPageOrder(listing: seq<Segment>, clock: Clock, m: nat, n: nat)
    requires m <= n <= |listing|
    ensures DeletionsOf(listing, clock, m) <= DeletionsOf(listing, clock, n)
  {
    if m < n {
      DeletionsInPageOrder(listing, clock, m, n - 1);
      PrefixExtends(DeletionsOf(listing, clock, m), DeletionsOf(listing, clock, n - 1), PageDeletions(listing, clock, n - 1));
    }
  }

  /** Appending to a sequence keeps its prefixes. */
  lemma PrefixExtends<T>(p: seq<T>, q: seq<T>, r: seq<T>)
    requires p <= q
    ensures p <= q + r
  {
    assert (q + r)[..|p|] == q[..|p|];
  }

  /**
   * An empty container answers one empty segment without a token: one
   * listing call, nothing deleted, and equal counts before and after.
   */
  lemma EmptyContainer(clock: Clock)
    requires PageCutoff(clock, 0).Ok?
    ensures var listing := [Segment([], None)];
      EndsListing(listing) && Halts(listing, clock) &&
      var run := SweepSpec(true, listing, clock);
      run.requests == [None] && run.deletions == [] && run.reports == [PageReport(0, 0)] &&
      run.outcome.Completed? && run.outcome.summary.deleted == 0 &&
      run.outcome.summary.before == 0 && run.outcome.summary.after == 0
  {
    var listing := [Segment([], None)];
    assert listing[0].continuation.None?;
    assert Stop(listing, clock) == 0;
  }

  /**
   * Three blobs aged 120, 91 and 10 days on a single final page: the first
   * two are deleted, in that order; three are counted before and one after.
   */
  lemma ThreeBlobs(clock: Clock, a: string, b: string, c: string)
    requires clock(1) >= 120 * TicksPerDay
    ensures
      var now := clock(1);
      var old120 := Blob(a, now - 120 * TicksPerDay);
      var old91 := Blob(b, now - 91 * TicksPerDay);
      var new10 := Blob(c, now - 10 * TicksPerDay);
      var listing := [Segment([old120, old91, new10], None)];
      EndsListing(listing) && Halts(listing, clock) &&
      var run := SweepSpec(true, listing, clock);
      run.deletions == [old120, old91] && run.outcome.Completed? &&
      run.outcome.summary.before == 3 && run.outcome.summary.deleted == 2 && run.outcome.summary.after == 1
  {
    var now := clock(1);
    var old120 := Blob(a, now - 120 * TicksPerDay);
    var old91 := Blob(b, now - 91 * TicksPerDay);
    var new10 := Blob(c, now - 10 * TicksPerDay);
    var page := [old120, old91, new10];
    var listing := [Segment(page, None)];
    var cutoff := now - RetentionTicks;
    assert page[1..] == [old91, new10] && page[1..][1..] == [new10];
    ExpiredSingle(new10, cutoff);
    assert Expired([old91, new10], cutoff) == [old91] + Expired([new10], cutoff);
    assert Expired(page, cutoff) == [old120, old91];
    assert SelectionCutoff(clock, 0) == cutoff;
    assert DeletionsOf(listing, clock, 1) == [old120, old91];
    assert TotalOf(listing, 1) == 3;
    assert listing[0].continuation.None?;
    assert Stop(listing, clock) == 0;
    assert SummaryOf(listing, clock, 1).after == 1;
  }

  /**
   * A clock less than 90 days past 0001-01-01 makes the first cutoff throw:
   * the run ends on the first page although the service still hands out a
   * continuation token, after one listing call and before any deletion.
   */
  lemma EarlyClockAborts(clock: Clock, blobs: seq<Blob>, token: Token)
    requires clock(1) < RetentionTicks
    ensures var listing := [Segment(blobs, Some(token))];
      !EndsListing(listing) && Halts(listing, clock) &&
      var run := SweepSpec(true, listing, clock);
      run.outcome == Aborted(CutoffOutOfRange) && run.requests == [None] &&
      run.deletions == [] && run.reports == []
  {
    var listing := [Segment(blobs, Some(token))];
    assert PageCutoff(clock, 0).Err?;
    assert Stop(listing, clock) == 0;
    assert RequestsOf(listing, 1) == [None];
  }
}
