/**
 One run of the scheduler over waiting printers and queued jobs (selectj in src/sh_plist.c).
 Jobs and printers are numbered by their places in the two queues, which selectj does not change.
 */
module SelectJobs {
  import opened Common

  /** A class code is the set of its bits. */
  datatype Job = Job(netid: int, cps: Byte, assign: bool, abortj: bool, proposed: bool, warned: bool, printed: bool,
                     pq: bool, localOnly: bool, hold: int, size: nat, cls: set<nat>, form: string, ptr: string,
                     pslot: Option<int>)

  datatype Ptr = Ptr(waiting: bool, select: bool, proposed: bool, netid: int, minsize: nat, maxsize: nat,
                     localOnly: bool, cls: set<nat>, form: string, name: string, jslot: Option<int>)

  /** What is sent to other hosts, and to the printer processes */
  datatype Msg =
    | Propose(job: int, ptr: int)
    | LocAssign(job: int)
    | Assigned(job: int, ptr: int)
    | Req(job: int, ptr: int)

  /** How form types are compared up to a suffix, and printer names with the pattern of a job */
  datatype Matching = Matching(forms: (string, string) -> bool, names: (string, string) -> bool)

  // ----- Which job a printer gets -----

  /** spp_state is SPP_WAIT, the printer is of this host and not taken. */
  predicate Ready(p: Ptr) {
    p.waiting && !p.select && p.netid == 0
  }

  /** There are copies to print, and nobody has the job. */
  predicate Open(j: Job) {
    j.cps != 0 && !j.assign && !j.abortj
  }

  predicate Suits(j: Job, p: Ptr, m: Matching) {
    && p.minsize <= j.size && (p.maxsize != 0 ==> j.size <= p.maxsize)
    && !(j.netid != 0 && p.localOnly)
    && j.cls * p.cls != {}
    && m.forms(j.form, p.form)
    && (j.ptr != "" ==> m.names(j.ptr, p.name))
  }

  predicate Eligible(j: Job, p: Ptr, now: int, m: Matching) {
    Open(j) && j.hold <= now && Suits(j, p, m)
  }

  /** The first eligible job from place k on; the number of jobs if there is none */
  function FirstFit(jobs: seq<Job>, k: nat, p: Ptr, now: int, m: Matching): (n: nat)
    requires k <= |jobs|
    ensures k <= n <= |jobs|
    ensures forall x :: k <= x < n ==> !Eligible(jobs[x], p, now, m)
    ensures n < |jobs| ==> Eligible(jobs[n], p, now, m)
    decreases |jobs| - k
  {
    if k == |jobs| || Eligible(jobs[k], p, now, m) then k else FirstFit(jobs, k + 1, p, now, m)
  }

  /** The waiting time after meeting an open job; 0 means that there is nothing to wait for. */
  function Waited(wtime: nat, j: Job, now: int): nat {
    if Open(j) && j.hold > now && (wtime == 0 || j.hold - now < wtime) then j.hold - now else wtime
  }

  function WaitedFor(jobs: seq<Job>, wtime: nat, now: int): nat {
    if jobs == [] then wtime else Waited(WaitedFor(jobs[..|jobs| - 1], wtime, now), jobs[|jobs| - 1], now)
  }

  /** What assign does to the job and the printer */
  function TakenJob(j: Job, i: int): Job {
    j.(assign := true, proposed := j.proposed || j.netid != 0, pslot := Some(i))
  }

  function TakenPtr(p: Ptr, j: Job, k: int): Ptr {
    if j.netid != 0 then p.(select := true, proposed := true)
    else p.(select := true, proposed := false, jslot := Some(k))
  }

  function TakenMsgs(j: Job, k: int, p: Ptr, i: int): seq<Msg> {
    if j.netid != 0 then [Propose(k, i)]
    else (if j.localOnly then [] else if p.localOnly then [LocAssign(k)] else [Assigned(k, i)]) + [Req(k, i)]
  }

  datatype State = State(jobs: seq<Job>, ptrs: seq<Ptr>, sent: seq<Msg>, wtime: nat)

  /** The turn of printer i */
  function Turn(s: State, i: nat, now: int, m: Matching): (s': State)
    requires i < |s.ptrs|
    ensures |s'.ptrs| == |s.ptrs| && |s'.jobs| == |s.jobs|
  {
    var p := s.ptrs[i];
    if !Ready(p) then s
    else
      var k := FirstFit(s.jobs, 0, p, now, m);
      var w := WaitedFor(s.jobs[..k], s.wtime, now);
      if k == |s.jobs| then s.(wtime := w)
      else State(s.jobs[k := TakenJob(s.jobs[k], i)], s.ptrs[i := TakenPtr(p, s.jobs[k], k)],
                 s.sent + TakenMsgs(s.jobs[k], k, p, i), w)
  }

  /** The turns of the first n printers */
  function Turns(s: State, n: nat, now: int, m: Matching): (s': State)
    requires n <= |s.ptrs|
    ensures |s'.ptrs| == |s.ptrs| && |s'.jobs| == |s.jobs|
  {
    if n == 0 then s else Turn(Turns(s, n - 1, now, m), n - 1, now, m)
  }

  // ----- The warning of users whose job is at the top of the queue -----

  /** Is the job one that ends the warnings? */
  predicate Stops(j: Job, now: int) {
    j.netid == 0 && j.hold <= now && (j.printed || j.pq)
  }

  function Warn(j: Job, now: int): Job {
    if j.netid == 0 && j.hold <= now then j.(warned := true) else j
  }

  ghost predicate StoppedBy(jobs: seq<Job>, k: nat, now: int) {
    exists x :: 0 <= x <= k && x < |jobs| && Stops(jobs[x], now)
  }

  /** The jobs when their users have been warned: of the local jobs that could be printed now
      those before the first one that is being printed, or has been */
  ghost function Warned(jobs: seq<Job>, now: int): (r: seq<Job>)
    ensures |r| == |jobs|
  {
    seq(|jobs|, k requires 0 <= k < |jobs| => if StoppedBy(jobs, k, now) then jobs[k] else Warn(jobs[k], now))
  }

  /** A warning does not make a job eligible. */
  lemma WarnSame(j: Job, now: int, p: Ptr, m: Matching)
    ensures Eligible(Warn(j, now), p, now, m) <==> Eligible(j, p, now, m)
  {
  }

  lemma WarnedSame(jobs: seq<Job>, now: int, k: nat, p: Ptr, m: Matching)
    requires k < |jobs|
    ensures Eligible(Warned(jobs, now)[k], p, now, m) <==> Eligible(jobs[k], p, now, m)
  {
    hide Eligible, Warn, StoppedBy;
    WarnSame(jobs[k], now, p, m);
  }

  // ----- The program -----

  class Scheduler {
    const m: Matching
    const jobs: array<Job>
    const ptrs: array<Ptr>
    var sent: seq<Msg>

    constructor (m: Matching, jobs: array<Job>, ptrs: array<Ptr>)
      ensures this.m == m && this.jobs == jobs && this.ptrs == ptrs && sent == []
    {
      this.m, this.jobs, this.ptrs, sent := m, jobs, ptrs, [];
    }

    function Now(wtime: nat): State
      reads this, jobs, ptrs
    {
      State(jobs[..], ptrs[..], sent, wtime)
    }

    /** assign, with startj */
    method Assign(k: nat, i: nat)
      requires k < jobs.Length && i < ptrs.Length
      modifies this`sent, jobs, ptrs
      ensures jobs[..] == old(jobs[..])[k := TakenJob(old(jobs[k]), i)]
      ensures ptrs[..] == old(ptrs[..])[i := TakenPtr(old(ptrs[i]), old(jobs[k]), k)]
      ensures sent == old(sent) + TakenMsgs(old(jobs[k]), k, old(ptrs[i]), i)
    {
      var j, p := jobs[k], ptrs[i];
      jobs[k] := j.(assign := true, pslot := Some(i));
      if j.netid != 0 {
        ptrs[i] := p.(select := true, proposed := true);
        jobs[k] := jobs[k].(proposed := true);
        sent := sent + [Propose(k, i)];
      } else {
        ptrs[i] := p.(jslot := Some(k));
        if !j.localOnly {
          sent := sent + [if p.localOnly then LocAssign(k) else Assigned(k, i)];
        }
        ptrs[i] := ptrs[i].(select := true, proposed := false);
        sent := sent + [Req(k, i)];
      }
    }

    /** The inner loop: assign the first eligible job to printer i, if there is one. */
    method Serve(i: nat, now: int, wtime0: nat) returns (wtime: nat)
      requires i < ptrs.Length && Ready(ptrs[i])
      modifies this`sent, jobs, ptrs
      ensures Now(wtime) == Turn(old(Now(wtime0)), i, now, m)
    {
      wtime := wtime0;
      ghost var s := Now(wtime0);
      var p, k := ptrs[i], 0;
      assert s.jobs[..0] == [];
      while k < jobs.Length
        invariant k <= jobs.Length && Now(wtime0) == s
        invariant FirstFit(s.jobs, 0, p, now, m) == FirstFit(s.jobs, k, p, now, m)
        invariant wtime == WaitedFor(s.jobs[..k], wtime0, now)
      {
        var j := jobs[k];
        assert s.jobs[..k + 1][..k] == s.jobs[..k];
        if Eligible(j, p, now, m) {
          Assign(k, i);
          return;
        }
        if Open(j) && j.hold > now {
          if wtime == 0 || j.hold - now < wtime {
            wtime := j.hold - now;
          }
        }
        k := k + 1;
      }
    }

    /** The outer loop */
    method ServeAll(now: int) returns (wtime: nat)
      modifies this`sent, jobs, ptrs
      ensures Now(wtime) == Turns(old(Now(0)), ptrs.Length, now, m)
    {
      wtime := 0;
      var i := 0;
      ghost var s := Now(0);
      while i < ptrs.Length
        invariant i <= ptrs.Length && Now(wtime) == Turns(s, i, now, m)
      {
        if Ready(ptrs[i]) {
          wtime := Serve(i, now, wtime);
        }
        i := i + 1;
      }
    }

    /** The last loop */
    method WarnUsers(now: int)
      modifies jobs
      ensures jobs[..] == Warned(old(jobs[..]), now)
    {
      var k := 0;
      while k < jobs.Length
        invariant k <= jobs.Length
        invariant forall x :: 0 <= x < k ==> !Stops(old(jobs[x]), now) && jobs[x] == Warn(old(jobs[x]), now)
        invariant forall x :: k <= x < jobs.Length ==> jobs[x] == old(jobs[x])
      {
        if jobs[k].netid == 0 && jobs[k].hold <= now {
          if jobs[k].printed || jobs[k].pq {
            return;
          }
          if !jobs[k].warned {
            jobs[k] := jobs[k].(warned := true);
          }
        }
        k := k + 1;
      }
    }

    /** selectj: how many seconds until it should be called again, or 0.  No waiting printer of
        this host is left with an eligible job. */
    method SelectJ(now: int, suspendSched: int) returns (wtime: nat)
      modifies this`sent, jobs, ptrs
      ensures suspendSched > now ==> wtime == suspendSched - now && Now(0) == old(Now(0))
      ensures suspendSched <= now ==>
                var s := Turns(old(Now(0)), ptrs.Length, now, m);
                && ptrs[..] == s.ptrs && sent == s.sent && wtime == s.wtime && jobs[..] == Warned(s.jobs, now)
      ensures suspendSched <= now ==>
                forall i, k :: 0 <= i < ptrs.Length && 0 <= k < jobs.Length && Ready(ptrs[i]) ==>
                    !Eligible(jobs[k], ptrs[i], now, m)
    {
      if suspendSched > now {
        return suspendSched - now;
      }
      wtime := ServeAll(now);
      ghost var s := Now(wtime);
      forall i, k | 0 <= i < ptrs.Length && 0 <= k < jobs.Length
        ensures Ready(s.ptrs[i]) ==> !Eligible(s.jobs[k], s.ptrs[i], now, m)
      {
        NoneLeft(old(Now(0)), now, m, i, k);
      }
      WarnUsers(now);
      forall i, k | 0 <= i < ptrs.Length && 0 <= k < jobs.Length && Ready(ptrs[i])
        ensures !Eligible(jobs[k], ptrs[i], now, m)
      {
        WarnedSame(s.jobs, now, k, ptrs[i], m);
        assert jobs[..][k] == Warned(s.jobs, now)[k] && ptrs[..][i] == s.ptrs[i];
      }
    }
  }

  // ----- What a run achieves -----

  /** The job that printer i gets at its turn */
  function Got(s: State, i: nat, now: int, m: Matching): Option<nat>
    requires i < |s.ptrs|
  {
    var t := Turns(s, i, now, m);
    var k := FirstFit(t.jobs, 0, s.ptrs[i], now, m);
    if Ready(s.ptrs[i]) && k < |s.jobs| then Some(k) else None
  }

  /** A printer whose turn has not come is as it was. */
  lemma {:induction false} NotYet(s: State, n: nat, now: int, m: Matching, i: nat)
    requires n <= i < |s.ptrs|
    ensures Turns(s, n, now, m).ptrs[i] == s.ptrs[i]
  {
    if n > 0 {
      NotYet(s, n - 1, now, m, i);
    }
  }

  /** After its turn a printer changes no more. */
  lemma {:induction false} NoMore(s: State, i: nat, n: nat, now: int, m: Matching)
    requires i < n <= |s.ptrs|
    ensures Turns(s, n, now, m).ptrs[i] == Turns(s, i + 1, now, m).ptrs[i]
    decreases n
  {
    if n > i + 1 {
      NoMore(s, i, n - 1, now, m);
    }
  }

  lemma TurnKeeps(s: State, n: nat, now: int, m: Matching, k: nat)
    requires n < |s.ptrs| && k < |s.jobs|
    ensures var (a, b) := (Turns(s, n, now, m).jobs[k], Turns(s, n + 1, now, m).jobs[k]);
            if Got(s, n, now, m) == Some(k) then Open(a) && b.assign else a == b
  {
    NotYet(s, n, now, m, n);
  }

  /** A job changes only when a printer gets it, and then it is assigned for good. */
  lemma {:induction false} JobsKept(s: State, n: nat, n': nat, now: int, m: Matching, k: nat)
    requires n <= n' <= |s.ptrs| && k < |s.jobs|
    ensures var (a, b) := (Turns(s, n, now, m).jobs[k], Turns(s, n', now, m).jobs[k]);
            && (a == b || (Open(a) && b.assign))
            && (a != b ==> exists i :: n <= i < n' && Got(s, i, now, m) == Some(k))
    decreases n'
  {
    hide Turn, Got;
    if n' > n {
      JobsKept(s, n, n' - 1, now, m, k);
      TurnKeeps(s, n' - 1, now, m, k);
      assert Got(s, n' - 1, now, m) == Some(k) || Got(s, n' - 1, now, m) != Some(k);
    }
  }

  /** No waiting printer of this host is left with an eligible job in the queue. */
  lemma NoneLeft(s: State, now: int, m: Matching, i: nat, k: nat)
    requires i < |s.ptrs| && k < |s.jobs|
    ensures var s' := Turns(s, |s.ptrs|, now, m); Ready(s'.ptrs[i]) ==> !Eligible(s'.jobs[k], s'.ptrs[i], now, m)
  {
    var t, s' := Turns(s, i, now, m), Turns(s, |s.ptrs|, now, m);
    NotYet(s, i, now, m, i);
    NoMore(s, i, |s.ptrs|, now, m);
    JobsKept(s, i, |s.ptrs|, now, m, k);
    if Ready(s'.ptrs[i]) {
      assert FirstFit(t.jobs, 0, s.ptrs[i], now, m) == |t.jobs|;
    }
  }

  /** A printer that was served got the first job in queue order that was eligible at its turn,
      and the job says so. */
  lemma ServedFirst(s: State, now: int, m: Matching, i: nat)
    requires i < |s.ptrs|
    ensures var (t, s') := (Turns(s, i, now, m), Turns(s, |s.ptrs|, now, m));
            match Got(s, i, now, m)
            case None => s'.ptrs[i] == s.ptrs[i]
            case Some(k) =>
              && Eligible(t.jobs[k], s.ptrs[i], now, m)
              && (forall x :: 0 <= x < k ==> !Eligible(t.jobs[x], s.ptrs[i], now, m))
              && t.jobs[k] == s.jobs[k] && s'.jobs[k] == TakenJob(s.jobs[k], i)
              && s'.ptrs[i] == TakenPtr(s.ptrs[i], s.jobs[k], k)
  {
    NotYet(s, i, now, m, i);
    NoMore(s, i, |s.ptrs|, now, m);
    var got := Got(s, i, now, m);
    if got.Some? {
      JobsKept(s, 0, i, now, m, got.value);
      JobsKept(s, i + 1, |s.ptrs|, now, m, got.value);
    }
  }

  /** No job is given to two printers. */
  lemma NoJobTwice(s: State, now: int, m: Matching, i: nat, i': nat)
    requires i < i' < |s.ptrs| && Got(s, i, now, m).Some?
    ensures Got(s, i, now, m) != Got(s, i', now, m)
  {
    var k := Got(s, i, now, m).value;
    NotYet(s, i, now, m, i);
    JobsKept(s, i + 1, i', now, m, k);
  }

  /** Jobs that no printer got are as they were; those that one got were open, and are assigned. */
  lemma JobsGiven(s: State, now: int, m: Matching, k: nat)
    requires k < |s.jobs|
    ensures var s' := Turns(s, |s.ptrs|, now, m);
            && (s'.jobs[k] != s.jobs[k] <==> exists i :: 0 <= i < |s.ptrs| && Got(s, i, now, m) == Some(k))
            && (s'.jobs[k] != s.jobs[k] ==> Open(s.jobs[k]))
  {
    JobsKept(s, 0, |s.ptrs|, now, m, k);
    forall i: nat | i < |s.ptrs| && Got(s, i, now, m) == Some(k)
      ensures Turns(s, |s.ptrs|, now, m).jobs[k] != s.jobs[k] && Open(s.jobs[k])
    {
      ServedFirst(s, now, m, i);
    }
  }

  /** The time to wait never grows once it is set, and is never longer than an open job is held. */
  lemma {:induction false} WaitsFor(jobs: seq<Job>, wtime: nat, now: int, k: nat)
    requires k < |jobs|
    ensures var w := WaitedFor(jobs, wtime, now);
            && (wtime > 0 ==> 0 < w <= wtime)
            && (Open(jobs[k]) && jobs[k].hold > now ==> 0 < w <= jobs[k].hold - now)
  {
    var before := jobs[..|jobs| - 1];
    if k < |before| {
      WaitsFor(before, wtime, now, k);
    } else if before != [] {
      WaitsFor(before, wtime, now, 0);
    }
  }

  lemma {:induction false} WaitsLess(s: State, n: nat, n': nat, now: int, m: Matching)
    requires n <= n' <= |s.ptrs|
    ensures var (w, w') := (Turns(s, n, now, m).wtime, Turns(s, n', now, m).wtime); w > 0 ==> 0 < w' <= w
    decreases n'
  {
    if n' > n {
      WaitsLess(s, n, n' - 1, now, m);
      var t := Turns(s, n' - 1, now, m);
      var k := FirstFit(t.jobs, 0, t.ptrs[n' - 1], now, m);
      if k > 0 {
        WaitsFor(t.jobs[..k], t.wtime, now, 0);
      }
    }
  }

  /** When a waiting printer is left over, the scheduler comes back before any job still open
      comes off hold. */
  lemma WakesInTime(s: State, now: int, m: Matching, i: nat, k: nat)
    requires i < |s.ptrs| && k < |s.jobs|
    ensures var s' := Turns(s, |s.ptrs|, now, m);
            Ready(s'.ptrs[i]) && Open(s'.jobs[k]) && s'.jobs[k].hold > now ==> 0 < s'.wtime <= s'.jobs[k].hold - now
  {
    var t, s' := Turns(s, i, now, m), Turns(s, |s.ptrs|, now, m);
    NotYet(s, i, now, m, i);
    NoMore(s, i, |s.ptrs|, now, m);
    JobsKept(s, i, |s.ptrs|, now, m, k);
    WaitsLess(s, i + 1, |s.ptrs|, now, m);
    if Ready(s'.ptrs[i]) && Open(s'.jobs[k]) && s'.jobs[k].hold > now {
      assert t.jobs[..|t.jobs|] == t.jobs;
      WaitsFor(t.jobs, t.wtime, now, k);
    }
  }

  /** ... and it comes back for the sake of some open job. */
  lemma {:induction false} WaitedForOne(jobs: seq<Job>, wtime: nat, now: int)
    ensures var w := WaitedFor(jobs, wtime, now);
            w == wtime || exists k :: 0 <= k < |jobs| && Open(jobs[k]) && jobs[k].hold - now == w > 0
  {
    if jobs != [] {
      WaitedForOne(jobs[..|jobs| - 1], wtime, now);
      assert jobs[..|jobs| - 1] + [jobs[|jobs| - 1]] == jobs;
    }
  }

  lemma {:induction false} WakesForOne(s: State, n: nat, now: int, m: Matching)
    requires n <= |s.ptrs|
    ensures var w := Turns(s, n, now, m).wtime;
            w == s.wtime || exists k :: 0 <= k < |s.jobs| && Open(s.jobs[k]) && s.jobs[k].hold - now == w > 0
  {
    if n > 0 {
      WakesForOne(s, n - 1, now, m);
      var t := Turns(s, n - 1, now, m);
      var k := FirstFit(t.jobs, 0, t.ptrs[n - 1], now, m);
      WaitedForOne(t.jobs[..k], t.wtime, now);
      if x: nat :| x < k && Open(t.jobs[x]) && t.jobs[x].hold - now == Turns(s, n, now, m).wtime > 0 {
        JobsKept(s, 0, n - 1, now, m, x);
      }
    }
  }

  // ----- Which jobs, which messages -----

  /** What has to be true of a job and a printer of this host */
  predicate Fits(j: Job, p: Ptr, now: int, m: Matching) {
    && p.netid == 0 && p.waiting && !p.select
    && j.cps > 0 && !j.assign && !j.abortj && now >= j.hold
    && p.minsize <= j.size && (p.maxsize == 0 || p.maxsize >= j.size)
    && (j.netid == 0 || !p.localOnly)
    && (exists c :: c in j.cls && c in p.cls)
    && m.forms(j.form, p.form)
    && (j.ptr == "" || m.names(j.ptr, p.name))
  }

  lemma FitsExactly(j: Job, p: Ptr, now: int, m: Matching)
    ensures Fits(j, p, now, m) <==> Ready(p) && Eligible(j, p, now, m)
  {
    if j.cls * p.cls != {} {
      var c :| c in j.cls * p.cls;
      assert c in j.cls && c in p.cls;
    } else {
      assert forall c :: c in j.cls && c in p.cls ==> c in j.cls * p.cls;
    }
  }

  /** A printer gets a job of the queue if and only if one fits that no printer before it has got, and it
      gets the first. */
  lemma GetsFirst(s: State, now: int, m: Matching, i: nat, k: nat)
    requires i < |s.ptrs| && k < |s.jobs|
    ensures Got(s, i, now, m) == Some(k) <==>
            && Free(s, i, now, m, k) && Fits(s.jobs[k], s.ptrs[i], now, m)
            && forall x :: 0 <= x < k && Free(s, i, now, m, x) ==> !Fits(s.jobs[x], s.ptrs[i], now, m)
  {
    hide Fits, Eligible;
    var t := Turns(s, i, now, m);
    NotYet(s, i, now, m, i);
    forall x | 0 <= x < |s.jobs|
      ensures Ready(s.ptrs[i]) && Eligible(t.jobs[x], s.ptrs[i], now, m) <==>
              Free(s, i, now, m, x) && Fits(s.jobs[x], s.ptrs[i], now, m)
    {
      FitsWhenFree(s, now, m, i, x);
    }
  }

  /** No printer before i has got job k. */
  ghost predicate Free(s: State, i: nat, now: int, m: Matching, k: nat)
    requires i <= |s.ptrs|
  {
    forall i' :: 0 <= i' < i ==> Got(s, i', now, m) != Some(k)
  }

  lemma FitsWhenFree(s: State, now: int, m: Matching, i: nat, k: nat)
    requires i < |s.ptrs| && k < |s.jobs|
    ensures Ready(s.ptrs[i]) && Eligible(Turns(s, i, now, m).jobs[k], s.ptrs[i], now, m) <==>
            Free(s, i, now, m, k) && Fits(s.jobs[k], s.ptrs[i], now, m)
  {
    hide Fits, Turn, Got;
    FitsExactly(s.jobs[k], s.ptrs[i], now, m);
    JobsKept(s, 0, i, now, m, k);
    if i' :| 0 <= i' < i && Got(s, i', now, m) == Some(k) {
      GotIsAssigned(s, i', i, now, m, k);
    }
  }

  lemma GotIsAssigned(s: State, i': nat, i: nat, now: int, m: Matching, k: nat)
    requires i' < i <= |s.ptrs| && k < |s.jobs| && Got(s, i', now, m) == Some(k)
    ensures Turns(s, i, now, m).jobs[k].assign
  {
    hide Turn, Got;
    TurnKeeps(s, i', now, m, k);
    JobsKept(s, i' + 1, i, now, m, k);
  }

  /** What the job and the printer show afterwards, and that nothing else about them changes */
  lemma ServedShows(s: State, now: int, m: Matching, i: nat, k: nat)
    requires i < |s.ptrs| && Got(s, i, now, m) == Some(k)
    ensures k < |s.jobs|
    ensures var s' := Turns(s, |s.ptrs|, now, m);
            var (j, j', p, p') := (s.jobs[k], s'.jobs[k], s.ptrs[i], s'.ptrs[i]);
            && j' == j.(assign := true, pslot := Some(i), proposed := j'.proposed)
            && (j'.proposed <==> j.proposed || j.netid != 0)
            && p' == p.(select := true, proposed := j.netid != 0, jslot := p'.jslot)
            && p'.jslot == if j.netid == 0 then Some(k) else p.jslot
  {
    ServedFirst(s, now, m, i);
  }

  /** What is said when printer i gets job k: a job of another host is proposed for, and nothing else; of a job
      of this host the printer process hears, and, unless the job is private, all other hosts. */
  predicate Says(j: Job, k: int, p: Ptr, i: int, x: Msg) {
    match x
    case Propose(k', i') => k' == k && i' == i && j.netid != 0
    case Req(k', i') => k' == k && i' == i && j.netid == 0
    case Assigned(k', i') => k' == k && i' == i && j.netid == 0 && !j.localOnly && !p.localOnly
    case LocAssign(k') => k' == k && j.netid == 0 && !j.localOnly && p.localOnly
  }

  ghost predicate SaidBy(s: State, n: nat, now: int, m: Matching, x: Msg)
    requires n <= |s.ptrs|
  {
    exists i :: 0 <= i < n && SaidAt(s, i, now, m, x)
  }

  ghost predicate SaidAt(s: State, i: nat, now: int, m: Matching, x: Msg)
    requires i < |s.ptrs|
  {
    var got := Got(s, i, now, m);
    got.Some? && got.value < |s.jobs| && Says(s.jobs[got.value], got.value, s.ptrs[i], i, x)
  }

  /** Each of these messages is sent once, and no others. */
  lemma {:induction false} SentOnce(s: State, n: nat, now: int, m: Matching, x: Msg)
    requires n <= |s.ptrs|
    ensures multiset(Turns(s, n, now, m).sent)[x] ==
            multiset(s.sent)[x] + if SaidBy(s, n, now, m, x) then 1 else 0
  {
    hide Turn, SaidAt;
    if n > 0 {
      SentOnce(s, n - 1, now, m, x);
      TurnSends(s, n - 1, now, m, x);
      if SaidBy(s, n - 1, now, m, x) && SaidAt(s, n - 1, now, m, x) {
        var i: nat :| i < n - 1 && SaidAt(s, i, now, m, x);
        SaidTwice(s, i, n - 1, now, m, x);
      }
    }
  }

  lemma TakenSays(j: Job, k: int, p: Ptr, i: int, x: Msg)
    ensures multiset(TakenMsgs(j, k, p, i))[x] == if Says(j, k, p, i, x) then 1 else 0
  {
  }

  lemma TurnSends(s: State, n: nat, now: int, m: Matching, x: Msg)
    requires n < |s.ptrs|
    ensures multiset(Turns(s, n + 1, now, m).sent)[x] ==
            multiset(Turns(s, n, now, m).sent)[x] + if SaidAt(s, n, now, m, x) then 1 else 0
  {
    hide Ready, FirstFit, WaitedFor, TakenJob, TakenPtr, TakenMsgs, Says;
    NotYet(s, n, now, m, n);
    var got := Got(s, n, now, m);
    if got.Some? {
      JobsKept(s, 0, n, now, m, got.value);
      TakenSays(s.jobs[got.value], got.value, s.ptrs[n], n, x);
    }
  }

  lemma SaidTwice(s: State, i: nat, i': nat, now: int, m: Matching, x: Msg)
    requires i < i' < |s.ptrs|
    ensures !(SaidAt(s, i, now, m, x) && SaidAt(s, i', now, m, x))
  {
    hide Got;
    if Got(s, i, now, m).Some? {
      NoJobTwice(s, now, m, i, i');
    }
  }

  predicate CouldPrint(j: Job, now: int) {
    j.netid == 0 && now >= j.hold
  }

  predicate NonePrinted(jobs: seq<Job>, now: int) {
    forall x :: 0 <= x < |jobs| && CouldPrint(jobs[x], now) ==> !jobs[x].printed && !jobs[x].pq
  }

  /** Whose users are warned: those of local jobs that could be printed now, while no such job from the front of
      the queue up to it has been printed or is being printed. */
  lemma WarnedExactly(jobs: seq<Job>, now: int, k: nat)
    requires k < |jobs|
    ensures var j' := Warned(jobs, now)[k];
            && j' == jobs[k].(warned := j'.warned)
            && (j'.warned <==> jobs[k].warned || (CouldPrint(jobs[k], now) && NonePrinted(jobs[..k + 1], now)))
  {
  }
}
