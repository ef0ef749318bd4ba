/**
 * The retention rule of the deletion task: timestamps in .NET ticks, the
 * "now minus 90 days" cutoff and the filter that selects expired blobs.
 */
module Expiry {
  import opened Wrappers

  /** One tick is 100 nanoseconds, so a day of 86,400,000 milliseconds is this many ticks. */
  const TicksPerDay: int := 864_000_000_000

  /** The retention window: blobs older than this many days are deleted. */
  const RetentionDays: int := 90

  /** The retention window in ticks. */
  const RetentionTicks: int := RetentionDays * TicksPerDay

  /** Ticks of DateTime.MaxValue (23:59:59.9999999 on 9999-12-31). */
  const MaxTicks: int := 3_155_378_975_999_999_999

  /** A DateTime value as its tick count since 0001-01-01 00:00:00 UTC. */
  type Ticks = t: int | 0 <= t <= MaxTicks

  /** A listed block blob: its name and the UTC ticks of its last modification. */
  datatype Blob = Blob(name: string, lastModifiedTicks: Ticks)

  /** DateTime arithmetic throws when the result leaves the representable range. */
  datatype ClockError = ArgumentOutOfRange

  /**
   * The cutoff for a page: the current UTC time moved back by the retention
   * window, as DateTime.AddDays(-90) computes it for whole days.
   */
  function Cutoff(now: Ticks): (r: Result<Ticks, ClockError>)
    ensures r.Ok? <==> now >= RetentionDays * TicksPerDay
    ensures r.Ok? ==> r.value < now && now - r.value == RetentionDays * TicksPerDay
  {
    var shifted := now - RetentionTicks;
    if 0 <= shifted then Ok(shifted) else Err(ArgumentOutOfRange)
  }

  /** A later clock reading never gives an earlier cutoff, nor a failing one. */
  lemma CutoffMonotone(now1: Ticks, now2: Ticks)
    requires now1 <= now2
    requires Cutoff(now1).Ok?
    ensures Cutoff(now2).Ok? && Cutoff(now1).value <= Cutoff(now2).value
  {
  }

  /** The deletion criterion: modified strictly before the cutoff. */
  predicate IsExpired(b: Blob, cutoff: Ticks)
  {
    b.lastModifiedTicks < cutoff
  }

  /** The blobs of a page selected for deletion, in page order. */
  function Expired(page: seq<Blob>, cutoff: Ticks): (r: seq<Blob>)
    ensures |r| <= |page|
    ensures forall j :: 0 <= j < |r| ==> IsExpired(r[j], cutoff)
  {
    if |page| == 0 then []
    else if IsExpired(page[0], cutoff) then [page[0]] + Expired(page[1..], cutoff)
    else Expired(page[1..], cutoff)
  }

  /** The blobs of a page that survive the sweep, in page order. */
  function Kept(page: seq<Blob>, cutoff: Ticks): (r: seq<Blob>)
    ensures |r| <= |page|
    ensures forall j :: 0 <= j < |r| ==> !IsExpired(r[j], cutoff)
  {
    if |page| == 0 then []
    else if IsExpired(page[0], cutoff) then Kept(page[1..], cutoff)
    else [page[0]] + Kept(page[1..], cutoff)
  }

  /** A blob is selected exactly when it is on the page and expired. */
  lemma {:induction false} ExpiredMembers(page: seq<Blob>, cutoff: Ticks, b: Blob)
    ensures b in Expired(page, cutoff) <==> b in page && IsExpired(b, cutoff)
  {
    if page != [] {
      ExpiredMembers(page[1..], cutoff, b);
      assert page == [page[0]] + page[1..];
    }
  }

  /** A blob is kept exactly when it is on the page and not expired. */
  lemma {:induction false} KeptMembers(page: seq<Blob>, cutoff: Ticks, b: Blob)
    ensures b in Kept(page, cutoff) <==> b in page && !IsExpired(b, cutoff)
  {
    if page != [] {
      KeptMembers(page[1..], cutoff, b);
      assert page == [page[0]] + page[1..];
    }
  }

  /** Selecting from a blob followed by more blobs: that blob first, if expired, then the rest. */
  lemma ExpiredCons(x: Blob, rest: seq<Blob>, cutoff: Ticks)
    ensures Expired([x] + rest, cutoff) == (if IsExpired(x, cutoff) then [x] else []) + Expired(rest, cutoff)
    ensures Kept([x] + rest, cutoff) == (if IsExpired(x, cutoff) then [] else [x]) + Kept(rest, cutoff)
  {
    assert ([x] + rest)[0] == x;
    assert ([x] + rest)[1..] == rest;
  }

  /**
   * The selection works blob by blob in page order: selecting from two
   * consecutive runs of blobs is selecting from each and concatenating, so
   * every expired blob is taken exactly once, at its own place.
   */
  lemma {:induction false} ExpiredConcat(a: seq<Blob>, b: seq<Blob>, cutoff: Ticks)
    ensures Expired(a + b, cutoff) == Expired(a, cutoff) + Expired(b, cutoff)
    ensures Kept(a + b, cutoff) == Kept(a, cutoff) + Kept(b, cutoff)
  {
    if |a| == 0 {
      assert a + b == b;
    } else {
      var x, rest := a[0], a[1..];
      assert a == [x] + rest;
      assert a + b == [x] + (rest + b);
      ExpiredConcat(rest, b, cutoff);
      ExpiredCons(x, rest + b, cutoff);
      ExpiredCons(x, rest, cutoff);
    }
  }

  /** A single blob is selected exactly when it is expired. */
  lemma ExpiredSingle(b: Blob, cutoff: Ticks)
    ensures Expired([b], cutoff) == (if IsExpired(b, cutoff) then [b] else [])
    ensures Kept([b], cutoff) == (if IsExpired(b, cutoff) then [] else [b])
  {
    assert [b][1..] == [];
  }

  /** Every blob of a page is either selected or kept, and none is lost or duplicated. */
  lemma {:induction false} PartitionPage(page: seq<Blob>, cutoff: Ticks)
    ensures |Expired(page, cutoff)| + |Kept(page, cutoff)| == |page|
    ensures multiset(Expired(page, cutoff)) + multiset(Kept(page, cutoff)) == multiset(page)
  {
    if page != [] {
      PartitionPage(page[1..], cutoff);
      assert page == [page[0]] + page[1..];
    }
  }

  /** Strict inequality: a blob modified exactly at the cutoff is kept, not deleted. */
  lemma BoundaryKept(page: seq<Blob>, cutoff: Ticks, i: nat)
    requires i < |page| && page[i].lastModifiedTicks == cutoff
    ensures page[i] !in Expired(page, cutoff) && page[i] in Kept(page, cutoff)
  {
    ExpiredMembers(page, cutoff, page[i]);
    KeptMembers(page, cutoff, page[i]);
  }

  /**
   * Sweeping again with the same cutoff deletes nothing more: what was kept
   * has nothing expired in it, and the selection is stable.
   */
  lemma {:induction false} SweepIdempotent(page: seq<Blob>, cutoff: Ticks)
    ensures Expired(Kept(page, cutoff), cutoff) == []
    ensures Expired(Expired(page, cutoff), cutoff) == Expired(page, cutoff)
  {
    if page != [] {
      SweepIdempotent(page[1..], cutoff);
    }
  }

  /** A later (or equal) cutoff deletes at least what an earlier one did. */
  lemma {:induction false} LaterCutoffDeletesMore(page: seq<Blob>, early: Ticks, late: Ticks)
    requires early <= late
    ensures multiset(Expired(page, early)) <= multiset(Expired(page, late))
  {
    if page != [] {
      LaterCutoffDeletesMore(page[1..], early, late);
    }
  }
}
