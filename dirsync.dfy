/**
 * The dirsync queue: the directories the copy thread still has to
 * reconcile with the server.  Each job is a path relative to the copy
 * root, stored without leading or trailing '/'.  A new job is dropped when
 * a queued job already covers it, and it removes every queued job inside
 * it.  The queue also keeps its length (num_dirsyncs) and the earliest
 * deadline of the jobs accepted since it last emptied (dirsync_deadline).
 */
module Dirsync {
  import opened Types

  // ---------------------------------------------------------------------
  // Paths

  /** A stored job path: no '/' at either end. */
  predicate Normalised(p: string) { p == [] || (p[0] != '/' && p[|p| - 1] != '/') }

  /** The first index at or after i that does not hold '/'. */
  function LeadEnd(s: string, i: nat): (j: nat)
    requires i <= |s|
    ensures i <= j <= |s|
    ensures j < |s| ==> s[j] != '/'
    decreases |s| - i
  {
    if i < |s| && s[i] == '/' then LeadEnd(s, i + 1) else i
  }

  /** Counting down from `end`, the end of s once the '/' characters above
   *  `start` are dropped. */
  function TrailStart(s: string, start: nat, end: nat): (j: nat)
    requires start <= end <= |s|
    ensures start <= j <= end
    ensures j > start ==> s[j - 1] != '/'
    decreases end
  {
    if end > start && s[end - 1] == '/' then TrailStart(s, start, end - 1) else end
  }

  /** The path copy_dirsync stores for its argument (a missing path is the
   *  root, ""). */
  function Normalise(path: Option<string>): (p: string)
    ensures Normalised(p)
  {
    var s := if path.Some? then path.value else "";
    var start := LeadEnd(s, 0);
    s[start..TrailStart(s, start, |s|)]
  }

  lemma {:induction false} LeadEndSkips(s: string, i: nat)
    requires i <= |s|
    ensures forall k :: i <= k < LeadEnd(s, i) ==> s[k] == '/'
    decreases |s| - i
  {
    if i < |s| && s[i] == '/' { LeadEndSkips(s, i + 1); }
  }

  lemma {:induction false} TrailStartSkips(s: string, start: nat, end: nat)
    requires start <= end <= |s|
    ensures forall k :: TrailStart(s, start, end) <= k < end ==> s[k] == '/'
    decreases end
  {
    if end > start && s[end - 1] == '/' { TrailStartSkips(s, start, end - 1); }
  }

  /** The stored path is what lies between the leading and the trailing
   *  runs of '/', and it has none at either end. */
  lemma NormaliseShape(path: Option<string>)
    ensures var s := if path.Some? then path.value else "";
      exists i, j :: 0 <= i <= j <= |s| && Normalise(path) == s[i..j] &&
        (forall k :: 0 <= k < i ==> s[k] == '/') && (forall k :: j <= k < |s| ==> s[k] == '/')
  {
    var s := if path.Some? then path.value else "";
    var start := LeadEnd(s, 0);
    LeadEndSkips(s, 0);
    TrailStartSkips(s, start, |s|);
    var j := TrailStart(s, start, |s|);
    assert Normalise(path) == s[start..j];
  }

  lemma {:induction false} LeadEndAt(s: string, i: nat, n: nat)
    requires i + n <= |s|
    requires forall k :: i <= k < i + n ==> s[k] == '/'
    requires i + n < |s| ==> s[i + n] != '/'
    ensures LeadEnd(s, i) == i + n
    decreases n
  {
    if n > 0 { LeadEndAt(s, i + 1, n - 1); }
  }

  /** Normalising a stored path changes nothing. */
  lemma NormaliseStored(p: string)
    requires Normalised(p)
    ensures Normalise(Some(p)) == p
  {
    LeadEndAt(p, 0, 0);
    assert p[0..|p|] == p;
  }

  lemma NormaliseIdempotent(path: Option<string>)
    ensures Normalise(Some(Normalise(path))) == Normalise(path)
  {
    NormaliseStored(Normalise(path));
  }

  /** The queued job q already covers the new path p: p equals q or lies
   *  inside it (q is a prefix of p followed by '/' in p). */
  predicate Covers(q: string, p: string)
  {
    (|q| == |p| || (|q| < |p| && p[|q|] == '/')) && q == p[..|q|]
  }

  /** The queued job q lies strictly inside the new path p. */
  predicate StrictlyInside(q: string, p: string)
  {
    |q| > |p| && q[|p|] == '/' && q[..|p|] == p
  }

  lemma CoversCases(q: string, p: string)
    ensures Covers(q, p) <==> q == p || StrictlyInside(p, q)
  {
  }

  lemma CoversTransitive(a: string, b: string, c: string)
    requires Covers(a, b) && Covers(b, c)
    ensures Covers(a, c)
  {
    assert c[..|b|][..|a|] == c[..|a|];
    if |a| < |b| {
      assert c[|a|] == b[|a|];
    }
  }

  /** Both tests need a '/' just after the shorter path, so the root job
   *  "" only ever matches another root job. */
  lemma RootMatchesOnlyRoot(p: string)
    requires Normalised(p)
    ensures Covers("", p) <==> p == ""
    ensures !StrictlyInside(p, "")
  {
  }

  // ---------------------------------------------------------------------
  // The queue as a value

  /** The queued jobs that survive the new path p: those not inside it. */
  function Kept(jobs: seq<string>, p: string): (r: seq<string>)
    ensures |r| <= |jobs|
  {
    if jobs == [] then []
    else
      var q := jobs[|jobs| - 1];
      Kept(jobs[..|jobs| - 1], p) + (if StrictlyInside(q, p) then [] else [q])
  }

  /** No queued job covers p, so copy_dirsync inserts it. */
  predicate Accepts(jobs: seq<string>, p: string)
  {
    forall k :: 0 <= k < |jobs| ==> !Covers(jobs[k], p)
  }

  /** The queue after copy_dirsync: the jobs inside p are gone; p is added at
   *  the tail when a reason is given and at the head otherwise, unless a
   *  queued job covers it. */
  function Scheduled(jobs: seq<string>, p: string, hasReason: bool): seq<string>
  {
    var kept := Kept(jobs, p);
    if !Accepts(jobs, p) then kept
    else if hasReason then kept + [p]
    else [p] + kept
  }

  /** No job covers another one. */
  predicate Antichain(jobs: seq<string>)
  {
    forall i, j :: 0 <= i < |jobs| && 0 <= j < |jobs| && i != j ==> !Covers(jobs[i], jobs[j])
  }

  lemma {:induction false} KeptMembers(jobs: seq<string>, p: string, x: string)
    ensures x in Kept(jobs, p) <==> x in jobs && !StrictlyInside(x, p)
    decreases |jobs|
  {
    if jobs != [] {
      var init := jobs[..|jobs| - 1];
      KeptMembers(init, p, x);
      assert jobs == init + [jobs[|jobs| - 1]];
    }
  }

  /** The jobs kept appear in their old order and none of them lies inside p. */
  lemma {:induction false} KeptAntichain(jobs: seq<string>, p: string)
    requires Antichain(jobs)
    ensures Antichain(Kept(jobs, p))
    ensures forall k :: 0 <= k < |Kept(jobs, p)| ==> !StrictlyInside(Kept(jobs, p)[k], p)
    decreases |jobs|
  {
    if jobs != [] {
      var init := jobs[..|jobs| - 1];
      var q := jobs[|jobs| - 1];
      assert Antichain(init) by {
        forall i, j | 0 <= i < |init| && 0 <= j < |init| && i != j
          ensures !Covers(init[i], init[j])
        {
          assert init[i] == jobs[i] && init[j] == jobs[j];
        }
      }
      KeptAntichain(init, p);
      var k := Kept(init, p);
      if !StrictlyInside(q, p) {
        forall y | y in k
          ensures !Covers(y, q) && !Covers(q, y)
        {
          KeptMembers(init, p, y);
          var i :| 0 <= i < |init| && init[i] == y;
          assert jobs[i] == y;
        }
        AntichainSnoc(k, q);
      }
    }
  }

  lemma AntichainSnoc(s: seq<string>, x: string)
    requires Antichain(s)
    requires forall y :: y in s ==> !Covers(y, x) && !Covers(x, y)
    ensures Antichain(s + [x])
  {
    var t := s + [x];
    forall i, j | 0 <= i < |t| && 0 <= j < |t| && i != j
      ensures !Covers(t[i], t[j])
    {
      if i < |s| && j < |s| {
        assert t[i] == s[i] && t[j] == s[j];
      } else if i < |s| {
        assert t[i] in s;
      } else {
        assert t[j] in s;
      }
    }
  }

  lemma AntichainCons(x: string, s: seq<string>)
    requires Antichain(s)
    requires forall y :: y in s ==> !Covers(y, x) && !Covers(x, y)
    ensures Antichain([x] + s)
  {
    var t := [x] + s;
    forall i, j | 0 <= i < |t| && 0 <= j < |t| && i != j
      ensures !Covers(t[i], t[j])
    {
      if i > 0 && j > 0 {
        assert t[i] == s[i - 1] && t[j] == s[j - 1];
      } else if i > 0 {
        assert t[i] in s;
      } else {
        assert t[j] in s;
      }
    }
  }

  /** Scheduling keeps the queue an antichain of stored paths. */
  lemma ScheduledAntichain(jobs: seq<string>, p: string, hasReason: bool)
    requires Antichain(jobs)
    requires forall k :: 0 <= k < |jobs| ==> Normalised(jobs[k])
    requires Normalised(p)
    ensures Antichain(Scheduled(jobs, p, hasReason))
    ensures forall k :: 0 <= k < |Scheduled(jobs, p, hasReason)| ==> Normalised(Scheduled(jobs, p, hasReason)[k])
  {
    KeptAntichain(jobs, p);
    var kept := Kept(jobs, p);
    forall x | x in kept
      ensures x in jobs && Normalised(x)
    {
      KeptMembers(jobs, p, x);
    }
    if Accepts(jobs, p) {
      forall y | y in kept
        ensures !Covers(y, p) && !Covers(p, y)
      {
        KeptMembers(jobs, p, y);
        CoversCases(p, y);
      }
      if hasReason { AntichainSnoc(kept, p); } else { AntichainCons(p, kept); }
    }
  }

  /**
   * Nothing is lost: after scheduling p, p and every job queued before are
   * covered by a job in the queue.
   */
  lemma ScheduledCovers(jobs: seq<string>, p: string, hasReason: bool)
    ensures var r := Scheduled(jobs, p, hasReason);
      (exists j :: j in r && Covers(j, p)) &&
      (forall q :: q in jobs ==> exists j :: j in r && Covers(j, q))
  {
    var r := Scheduled(jobs, p, hasReason);
    var kept := Kept(jobs, p);
    assert forall x :: x in kept ==> x in r;
    // p itself is covered
    var cover: string;
    if Accepts(jobs, p) {
      cover := p;
      assert p in r;
    } else {
      var k :| 0 <= k < |jobs| && Covers(jobs[k], p);
      cover := jobs[k];
      KeptMembers(jobs, p, cover);
    }
    assert cover in r && Covers(cover, p);
    forall q | q in jobs
      ensures exists j :: j in r && Covers(j, q)
    {
      KeptMembers(jobs, p, q);
      if StrictlyInside(q, p) {
        CoversCases(p, q);
        CoversTransitive(cover, p, q);
      } else {
        assert q in r && Covers(q, q);
      }
    }
  }

  /** A job with a reason goes to the tail, one without to the head, and
   *  the jobs kept stay in their order. */
  lemma ScheduledOrder(jobs: seq<string>, p: string, hasReason: bool)
    requires Accepts(jobs, p)
    ensures hasReason ==> Scheduled(jobs, p, hasReason) == Kept(jobs, p) + [p]
    ensures !hasReason ==> Scheduled(jobs, p, hasReason) == [p] + Kept(jobs, p)
    ensures |Scheduled(jobs, p, hasReason)| == |Kept(jobs, p)| + 1
  {
  }

  // ---------------------------------------------------------------------
  // Deadlines

  /** The earliest of a list of positive deadlines, 0 for none, computed the
   *  way copy_dirsync folds each accepted deadline into dirsync_deadline. */
  function MinDeadline(ds: seq<int>): int
  {
    if ds == [] then 0
    else
      var m := MinDeadline(ds[..|ds| - 1]);
      var d := ds[|ds| - 1];
      if d > 0 && (m == 0 || m > d) then d else m
  }

  /** For positive deadlines the fold is the minimum, and 0 only when there
   *  are none. */
  lemma {:induction false} MinDeadlineIsMin(ds: seq<int>)
    requires forall k :: 0 <= k < |ds| ==> ds[k] > 0
    ensures ds == [] <==> MinDeadline(ds) == 0
    ensures ds != [] ==> MinDeadline(ds) in ds
    ensures forall k :: 0 <= k < |ds| ==> MinDeadline(ds) <= ds[k]
    decreases |ds|
  {
    if ds != [] {
      var init := ds[..|ds| - 1];
      MinDeadlineIsMin(init);
      assert forall k :: 0 <= k < |init| ==> ds[k] == init[k];
    }
  }

  /** The "waiting too long" test of the copy loop, as written. */
  function WaitingTooLongAsWritten(numDirsyncs: int, deadline: int, now: int): bool
  {
    numDirsyncs != 0 && deadline > 0 && deadline >= now
  }

  /** The test fires while the deadline is still ahead and never once it
   *  has passed. */
  lemma WaitingTooLongAsWrittenInverted()
    ensures WaitingTooLongAsWritten(1, 1000, 400)
    ensures !WaitingTooLongAsWritten(1, 1000, 2000)
  {
  }

  /** The test as intended: jobs are waiting and their earliest deadline
   *  has arrived. */
  function WaitingTooLong(numDirsyncs: int, deadline: int, now: int): bool
  {
    numDirsyncs != 0 && deadline > 0 && deadline <= now
  }

  /** With dirsync_deadline the earliest deadline accepted, the intended
   *  test fires exactly when some accepted deadline has passed. */
  lemma WaitingTooLongMeansOverdue(ds: seq<int>, numDirsyncs: int, now: int)
    requires forall k :: 0 <= k < |ds| ==> ds[k] > 0
    ensures WaitingTooLong(numDirsyncs, MinDeadline(ds), now) <==>
      numDirsyncs != 0 && exists k :: 0 <= k < |ds| && ds[k] <= now
  {
    MinDeadlineIsMin(ds);
    if numDirsyncs != 0 && ds != [] && MinDeadline(ds) <= now {
      var k :| 0 <= k < |ds| && ds[k] == MinDeadline(ds);
    }
  }

  // ---------------------------------------------------------------------
  // The queue invariant

  /** What the queue always satisfies: the count is the length, the jobs are
   *  stored paths none of which covers another, and the deadline is the
   *  earliest of the positive deadlines accepted since the queue emptied. */
  ghost predicate QueueInv(jobs: seq<string>, count: int, deadline: int, pending: seq<int>)
  {
    count == |jobs| &&
    (forall k :: 0 <= k < |jobs| ==> Normalised(jobs[k])) &&
    Antichain(jobs) &&
    (forall k :: 0 <= k < |pending| ==> pending[k] > 0) &&
    deadline == MinDeadline(pending) &&
    (jobs == [] ==> pending == [])
  }

  /** dirsync_deadline after copy_dirsync. */
  function NextDeadline(jobs: seq<string>, p: string, deadline: int, jobDeadline: int): int
  {
    if Accepts(jobs, p) && jobDeadline > 0 && (deadline == 0 || deadline > jobDeadline) then jobDeadline else deadline
  }

  /** The deadlines pending after copy_dirsync. */
  function NextPending(jobs: seq<string>, p: string, pending: seq<int>, jobDeadline: int): seq<int>
  {
    if Accepts(jobs, p) && jobDeadline > 0 then pending + [jobDeadline] else pending
  }

  /** copy_dirsync keeps the queue invariant. */
  lemma ScheduleKeepsInv(jobs: seq<string>, deadline: int, pending: seq<int>, p: string, hasReason: bool, jobDeadline: int)
    requires QueueInv(jobs, |jobs|, deadline, pending) && Normalised(p)
    ensures var r := Scheduled(jobs, p, hasReason);
      QueueInv(r, |r|, NextDeadline(jobs, p, deadline, jobDeadline), NextPending(jobs, p, pending, jobDeadline))
  {
    ScheduledAntichain(jobs, p, hasReason);
    ScheduledCovers(jobs, p, hasReason);
    var pend := NextPending(jobs, p, pending, jobDeadline);
    if Accepts(jobs, p) && jobDeadline > 0 {
      assert pend[..|pend| - 1] == pending;
    }
  }

  /** Popping the head keeps the queue invariant. */
  lemma PopKeepsInv(jobs: seq<string>, deadline: int, pending: seq<int>)
    requires QueueInv(jobs, |jobs|, deadline, pending) && jobs != []
    ensures var rest := jobs[1..];
      QueueInv(rest, |rest|, if rest == [] then 0 else deadline, if rest == [] then [] else pending)
  {
    var rest := jobs[1..];
    forall i, j | 0 <= i < |rest| && 0 <= j < |rest| && i != j
      ensures !Covers(rest[i], rest[j])
    {
      assert rest[i] == jobs[i + 1] && rest[j] == jobs[j + 1];
    }
  }

  // ---------------------------------------------------------------------
  // The queue as state

  class DirsyncQueue {
    /** The queued paths, head first. */
    var jobs: seq<string>
    /** num_dirsyncs. */
    var count: int
    /** dirsync_deadline: 0 or the earliest deadline pending. */
    var deadline: int
    /** The positive deadlines of the jobs accepted since the queue last
     *  emptied. */
    ghost var pending: seq<int>

    ghost predicate Valid()
      reads this
    {
      QueueInv(jobs, count, deadline, pending)
    }

    constructor ()
      ensures Valid() && jobs == [] && deadline == 0
    {
      jobs := [];
      count := 0;
      deadline := 0;
      pending := [];
    }

    /** copy_dirsync: schedule path, dropping it when covered and removing
     *  the queued jobs inside it. */
    method Schedule(reason: Option<string>, path: Option<string>, jobDeadline: int)
      requires Valid()
      modifies this
      ensures Valid()
      ensures jobs == Scheduled(old(jobs), Normalise(path), reason.Some?)
      ensures deadline == NextDeadline(old(jobs), Normalise(path), old(deadline), jobDeadline)
    {
      var p := NormalisePath(path);
      var kept, doIt, removed := ScanQueue(jobs, p);
      ScheduleKeepsInv(jobs, deadline, pending, p, reason.Some?, jobDeadline);
      ghost var r := Scheduled(jobs, p, reason.Some?);
      ghost var dl := NextDeadline(jobs, p, deadline, jobDeadline);
      ghost var pend := NextPending(jobs, p, pending, jobDeadline);
      var newCount := count - removed;
      var newDeadline := deadline;
      var newJobs := kept;
      if doIt {
        if jobDeadline > 0 && (deadline == 0 || deadline > jobDeadline) {
          newDeadline := jobDeadline;
        }
        if jobDeadline > 0 {
          pending := pending + [jobDeadline];
        }
        if reason.Some? {
          newJobs := kept + [p];
        } else {
          newJobs := [p] + kept;
        }
        newCount := newCount + 1;
      }
      assert newJobs == r && newCount == |r| && newDeadline == dl && pending == pend;
      jobs, count, deadline := newJobs, newCount, newDeadline;
    }

    /** The pop at the start of do_dirsync: the head job, if any. */
    method Pop() returns (job: Option<string>)
      requires Valid()
      modifies this
      ensures Valid()
      ensures old(jobs) == [] ==> job == None && jobs == [] && count == 0 && deadline == old(deadline)
      ensures old(jobs) != [] ==> job == Some(old(jobs)[0]) && jobs == old(jobs)[1..]
      ensures old(jobs) != [] ==> deadline == if jobs == [] then 0 else old(deadline)
    {
      if jobs == [] {
        count := 0;
        return None;
      }
      PopKeepsInv(jobs, deadline, pending);
      job := Some(jobs[0]);
      jobs := jobs[1..];
      if jobs == [] {
        deadline := 0;
        pending := [];
      }
      count := count - 1;
    }
  }

  /** The walk of copy_dirsync over the queue: the jobs that stay, whether
   *  the new path is still wanted, and how many jobs were unlinked. */
  method ScanQueue(jobs: seq<string>, p: string) returns (kept: seq<string>, doIt: bool, removed: int)
    ensures kept == Kept(jobs, p)
    ensures doIt == Accepts(jobs, p)
    ensures removed == |jobs| - |kept|
  {
    var i := 0;
    kept := [];
    doIt := true;
    removed := 0;
    while i < |jobs|
      invariant 0 <= i <= |jobs|
      invariant kept == Kept(jobs[..i], p)
      invariant doIt == Accepts(jobs[..i], p)
      invariant removed == i - |kept|
    {
      var q := jobs[i];
      assert jobs[..i + 1] == jobs[..i] + [q];
      if Covers(q, p) {
        doIt := false;
      }
      if StrictlyInside(q, p) {
        removed := removed + 1;
      } else {
        kept := kept + [q];
      }
      i := i + 1;
    }
    assert jobs[..i] == jobs;
  }

  lemma {:induction false} TrailStartAt(s: string, start: nat, end: nat, n: nat)
    requires start <= end && end + n <= |s|
    requires forall k :: end <= k < end + n ==> s[k] == '/'
    requires end > start ==> s[end - 1] != '/'
    ensures TrailStart(s, start, end + n) == end
    decreases n
  {
    if n > 0 { TrailStartAt(s, start, end, n - 1); }
  }

  /** The two loops of copy_dirsync that strip the slashes. */
  method NormalisePath(path: Option<string>) returns (p: string)
    ensures p == Normalise(path)
  {
    var s := if path.Some? then path.value else "";
    var start := 0;
    while start < |s| && s[start] == '/'
      invariant 0 <= start <= |s|
      invariant forall k :: 0 <= k < start ==> s[k] == '/'
    {
      start := start + 1;
    }
    var end := |s|;
    while end > start && s[end - 1] == '/'
      invariant start <= end <= |s|
      invariant forall k :: end <= k < |s| ==> s[k] == '/'
    {
      end := end - 1;
    }
    LeadEndAt(s, 0, start);
    TrailStartAt(s, start, end, |s| - end);
    p := s[start..end];
  }
}
