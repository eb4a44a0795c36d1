/**
 What the other hosts show of a job that is unassigned at its owner: whether they can select it
 again.
 */
module AssignmentStubs {
  import opened Common
  import opened Assignment
  import opened AssignmentSafety
  import opened AssignmentTheorems

  // ----- The last message about a job -----

  function LastAbout(q: seq<Msg>, j: Job): Option<Msg> {
    if q == [] then None
    else if q[|q| - 1].job == j then Some(q[|q| - 1])
    else LastAbout(q[..|q| - 1], j)
  }

  lemma LastAppended(q: seq<Msg>, m: Msg, j: Job)
    ensures LastAbout(q + [m], j) == if m.job == j then Some(m) else LastAbout(q, j)
  {
    assert (q + [m])[..|q|] == q;
  }

  lemma {:induction false} LastIs(q: seq<Msg>, k: nat, j: Job)
    requires k < |q| && q[k].job == j && forall i :: k < i < |q| ==> q[i].job != j
    ensures LastAbout(q, j) == Some(q[k])
  {
    if k < |q| - 1 {
      LastIs(q[..|q| - 1], k, j);
    }
  }

  lemma {:induction false} LastSame(q: seq<Msg>, q': seq<Msg>, j: Job)
    requires q <= q' && forall i :: |q| <= i < |q'| ==> q'[i].job != j
    ensures LastAbout(q', j) == LastAbout(q, j)
  {
    if |q| < |q'| {
      LastSame(q, q'[..|q'| - 1], j);
    } else {
      assert q == q';
    }
  }

  /** Nothing was ever said about the job on this channel, or a release was the last thing. */
  predicate Released(q: seq<Msg>, j: Job) {
    LastAbout(q, j).None? || LastAbout(q, j).value.JUnassigned?
  }

  /** ... and it has been read. */
  ghost predicate Settled(q: seq<Msg>, from: int, j: Job) {
    0 <= from <= |q| && Released(q, j) && forall k :: from <= k < |q| ==> q[k].job != j
  }

  /** A proposal is still to be read. */
  ghost predicate Asks(q: seq<Msg>, from: int, j: Job) {
    exists k :: 0 <= from <= k < |q| && q[k].Propose? && q[k].job == j
  }

  // ----- What a stub shows -----

  /** `stale` says that host h has read SO_ASSIGN from a host that does not own the job, and no
      release since. */
  ghost predicate StubInv(net: Net, s: State, h: Host, j: Job, stale: bool) {
    var (o, c) := (net.owner(j), s.copy(h, j));
    && s.read(o, h) >= 0
    && (stale ==> c.assign)
    && (!stale && Settled(s.sent(o, h), s.read(o, h), j) ==>
          !c.assign || (c.proposed && Asks(s.sent(h, o), s.read(h, o), j)))
  }

  function StaleRead(net: Net, a: Host, m: Msg, stale: bool): bool {
    if m.Assign? && a != net.owner(m.job) then true else stale && !m.JUnassigned?
  }

  /** What becomes of `stale` in a step */
  function StaleAfter(net: Net, s: State, step: Step, h: Host, j: Job, stale: bool): bool
    requires Enabled(net, s, step)
  {
    if step.Deliver? && step.b == h && s.sent(step.a, h)[s.read(step.a, h)].job == j
    then StaleRead(net, step.a, s.sent(step.a, h)[s.read(step.a, h)], stale)
    else stale
  }

  lemma OthersLeaveStub(net: Net, s: State, s': State, h: Host, j: Job, stale: bool)
    requires StubInv(net, s, h, j, stale) && SameFor(s, s', j)
    ensures StubInv(net, s', h, j, stale)
    ensures Released(s.sent(net.owner(j), h), j) ==> Released(s'.sent(net.owner(j), h), j)
  {
    hide Settled, Asks, Released;
    ChannelSame(s, s', j, net.owner(j), h);
    ChannelSame(s, s', j, h, net.owner(j));
  }

  lemma ChannelSame(s: State, s': State, j: Job, a: Host, b: Host)
    requires SameFor(s, s', j)
    ensures Settled(s'.sent(a, b), s'.read(a, b), j) ==> Settled(s.sent(a, b), s.read(a, b), j) || s.read(a, b) < 0
    ensures Asks(s.sent(a, b), s.read(a, b), j) ==> Asks(s'.sent(a, b), s'.read(a, b), j)
    ensures Released(s.sent(a, b), j) ==> Released(s'.sent(a, b), j)
  {
    var q, q', r, r' := s.sent(a, b), s'.sent(a, b), s.read(a, b), s'.read(a, b);
    LastSame(q, q', j);
    if Settled(q', r', j) && r >= 0 {
      forall k | r <= k < |q|
        ensures q[k].job != j
      {
        if k >= r' {
          assert q'[k] == q[k];
        }
      }
    }
    if Asks(q, r, j) {
      var k :| 0 <= r <= k < |q| && q[k].Propose? && q[k].job == j;
      assert r' <= k && q'[k] == q[k];
    }
  }

  // ----- One step -----

  /** The stub is left alone, its owner says nothing to it, and reads no proposal from it. */
  ghost predicate LeavesStub(net: Net, s: State, s': State, h: Host, j: Job) {
    var o := net.owner(j);
    && s'.copy(h, j) == s.copy(h, j)
    && s'.sent(o, h) == s.sent(o, h) && s'.read(o, h) == s.read(o, h)
    && s.sent(h, o) <= s'.sent(h, o)
    && (s'.read(h, o) == s.read(h, o) ||
        (0 <= s.read(h, o) < |s.sent(h, o)| && s'.read(h, o) == s.read(h, o) + 1 &&
          !s.sent(h, o)[s.read(h, o)].Propose?))
  }

  lemma StubLeft(net: Net, s: State, s': State, h: Host, j: Job, stale: bool)
    requires StubInv(net, s, h, j, stale) && LeavesStub(net, s, s', h, j)
    ensures StubInv(net, s', h, j, stale)
  {
    var o := net.owner(j);
    if Asks(s.sent(h, o), s.read(h, o), j) {
      var k :| 0 <= s.read(h, o) <= k < |s.sent(h, o)| && s.sent(h, o)[k].Propose? && s.sent(h, o)[k].job == j;
      assert s'.sent(h, o)[k] == s.sent(h, o)[k];
    }
  }

  /** Its owner says something about the job, whatever the stub shows. */
  lemma StubTold(net: Net, s: State, s': State, h: Host, j: Job, stale: bool, m: Msg)
    requires StubInv(net, s, h, j, stale) && s'.copy(h, j) == s.copy(h, j) && m.job == j
    requires var o := net.owner(j);
             s'.sent(o, h) == s.sent(o, h) + [m] && s'.read(o, h) == s.read(o, h) <= |s.sent(o, h)|
    ensures StubInv(net, s', h, j, stale)
  {
    var o := net.owner(j);
    assert s'.sent(o, h)[|s.sent(o, h)|] == m;
  }

  /** It reads something from its owner that is not a release. */
  lemma StubReads(net: Net, s: State, s': State, h: Host, j: Job, stale: bool, m: Msg)
    requires StubInv(net, s, h, j, stale) && Reads(s, net.owner(j), h, m) && m.job == j && !m.JUnassigned?
    requires s.copy(h, j).assign ==> s'.copy(h, j).assign
    requires var o := net.owner(j); s'.sent(o, h) == s.sent(o, h) && s'.read(o, h) == s.read(o, h) + 1
    ensures StubInv(net, s', h, j, stale)
  {
    var q, r := s.sent(net.owner(j), h), s.read(net.owner(j), h);
    if Settled(q, r + 1, j) {
      LastIs(q, r, j);
    }
  }

  lemma DeliverStub(net: Net, s: State, a: Host, b: Host, m: Msg, tok: Token, h: Host, stale: bool)
    requires JobInv(net, s, m.job, tok) && Reads(s, a, b, m) && h != net.owner(m.job)
    requires StubInv(net, s, h, m.job, stale)
    ensures StubInv(net, Receive(net, Pop(s, a, b), a, b, m), h, m.job, if b == h then StaleRead(net, a, m, stale)
            else stale)
  {
    hide StubInv;
    var (j, o, s') := (m.job, net.owner(m.job), Receive(net, Pop(s, a, b), a, b, m));
    assert MsgFits(net, j, tok, a, b, s.read(a, b), m);
    match m
    case Propose(_, p) => ProposeStub(net, s, a, b, j, p, h, stale);
    case PropOk(_, p) => ConfirmStub(net, s, a, b, j, p, true, h, stale);
    case PropNok(_, p) => ConfirmStub(net, s, a, b, j, p, false, h, stale);
    case Assign(_, _) =>
      if b != h {
        StubLeft(net, s, s', h, j, stale);
      } else if a == o {
        StubReads(net, s, s', h, j, stale, m);
      } else {
        StubStale(net, s, s', h, j);
      }
    case LocAssign(_) =>
      if b != h {
        StubLeft(net, s, s', h, j, stale);
      } else {
        StubReads(net, s, s', h, j, stale, m);
      }
    case JUnassign(_, cps) => StubTold(net, s, s', h, j, stale, JUnassigned(j, cps));
    case JUnassigned(_, _) =>
      if b != h {
        StubLeft(net, s, s', h, j, stale);
      } else {
        StubFreed(net, s, s', h, j);
      }
  }

  lemma StubStale(net: Net, s: State, s': State, h: Host, j: Job)
    requires s'.copy(h, j).assign && s'.read(net.owner(j), h) >= 0
    ensures StubInv(net, s', h, j, true)
  {
  }

  lemma StubFreed(net: Net, s: State, s': State, h: Host, j: Job)
    requires !s'.copy(h, j).assign && s'.read(net.owner(j), h) >= 0
    ensures StubInv(net, s', h, j, false)
  {
  }

  lemma ProposeStub(net: Net, s: State, a: Host, b: Host, j: Job, p: Slot, h: Host, stale: bool)
    requires Reads(s, a, b, Propose(j, p)) && b == net.owner(j) && a != b && h != b && StubInv(net, s, h, j, stale)
    requires s.read(b, h) <= |s.sent(b, h)|
    ensures StubInv(net, RemPropose(net, Pop(s, a, b), b, a, j, p), h, j, stale)
  {
    hide StubInv;
    var s' := RemPropose(net, Pop(s, a, b), b, a, j, p);
    if a == h {
      StubTold(net, s, s', h, j, stale, if s.copy(b, j).assign then PropNok(j, p) else PropOk(j, p));
    } else {
      StubLeft(net, s, s', h, j, stale);
    }
  }

  lemma ConfirmStub(net: Net, s: State, a: Host, b: Host, j: Job, p: Slot, ok: bool, h: Host, stale: bool)
    requires Reads(s, a, b, if ok then PropOk(j, p) else PropNok(j, p))
    requires a == net.owner(j) && b != a && h != a && StubInv(net, s, h, j, stale)
    ensures StubInv(net, ConfirmPrint(net, Pop(s, a, b), b, a, j, p, ok), h, j, stale)
  {
    hide StubInv;
    var s' := ConfirmPrint(net, Pop(s, a, b), b, a, j, p, ok);
    if b == h {
      StubReads(net, s, s', h, j, stale, if ok then PropOk(j, p) else PropNok(j, p));
    } else {
      StubLeft(net, s, s', h, j, stale);
    }
  }

  /** A printer of host x gives job j up, after the changes of prdone or prdfin. */
  lemma GivenBackStub(net: Net, s: State, s1: State, x: Host, p: Slot, j: Job, h: Host, stale: bool)
    requires StubInv(net, s, h, j, stale) && h != net.owner(j) && s.read(net.owner(j), h) <= |s.sent(net.owner(j), h)|
    requires LeavesStub(net, s, s1.(copy := s.copy), h, j) && s1.copy(h, j).(cps := 0) == s.copy(h, j).(cps := 0)
    ensures StubInv(net, Unassign(net, s1, x, p, j), h, j, stale)
  {
    hide StubInv;
    var s' := Unassign(net, s1, x, p, j);
    var s'' := s'.(copy := (h', j') => if h' == h && j' == j then s.copy(h, j) else s'.copy(h', j'));
    if x == net.owner(j) {
      StubTold(net, s, s'', h, j, stale, JUnassigned(j, s1.copy(x, j).cps));
    } else {
      StubLeft(net, s, s'', h, j, stale);
    }
    SameFlags(net, s'', s', h, j, stale);
  }

  lemma SameFlags(net: Net, s: State, s': State, h: Host, j: Job, stale: bool)
    requires StubInv(net, s, h, j, stale) && s'.sent == s.sent && s'.read == s.read
    requires s'.copy(h, j).assign == s.copy(h, j).assign && s'.copy(h, j).proposed == s.copy(h, j).proposed
    ensures StubInv(net, s', h, j, stale)
  {
  }

  lemma SelectStub(net: Net, s: State, x: Host, p: Slot, j: Job, h: Host, stale: bool)
    requires StubInv(net, s, h, j, stale) && h != net.owner(j) && MaySelect(net, s, x, p, j)
    requires s.read(net.owner(j), h) <= |s.sent(net.owner(j), h)| &&
             0 <= s.read(h, net.owner(j)) <= |s.sent(h, net.owner(j))|
    ensures StubInv(net, DoAssign(net, s, x, p, j), h, j, stale)
  {
    var (o, s') := (net.owner(j), DoAssign(net, s, x, p, j));
    if x == h {
      var q := s'.sent(h, o);
      assert q[|s.sent(h, o)|] == Propose(j, p);
      assert Asks(q, s'.read(h, o), j);
    } else if x == o {
      StubTold(net, s, s', h, j, stale, if net.localOnly(x, p) then LocAssign(j) else Assign(j, p));
    } else {
      StubLeft(net, s, s', h, j, stale);
    }
  }

  lemma StepStub(net: Net, s: State, step: Step, h: Host, j: Job, tok: Token, stale: bool)
    requires PtrInv(s) && JobInv(net, s, j, tok) && Enabled(net, s, step) && h != net.owner(j)
    requires StubInv(net, s, h, j, stale)
    ensures StubInv(net, Next(net, s, step), h, j, StaleAfter(net, s, step, h, j, stale))
  {
    hide StubInv, ChannelsFit, OwnerFits, StubsFit, CpsFit, Carried, PrintersFit, Receive, DoAssign, Unassign;
    JobReads(net, s, j, tok);
    if JobOf(s, step) != Some(j) {
      OtherJobStep(net, s, step, j);
      OthersLeaveStub(net, s, Next(net, s, step), h, j, stale);
    } else {
      match step
      case Deliver(a, b) => DeliverStub(net, s, a, b, s.sent(a, b)[s.read(a, b)], tok, h, stale);
      case Select(x, p, _) => SelectStub(net, s, x, p, j, h, stale);
      case Report(x, p, r) =>
        var c := s.copy(x, j);
        var left := CopiesAfter(c.cps, r);
        var made := if r.Done? then 1 else 0;
        var s1 := SetPtr(s, x, p, s.ptr(x, p).(select := false, proposed := false));
        var s2 := Tally(SetCopy(s1, x, j, c.(cps := left)), j, made, c.cps - left - made);
        GivenBackStub(net, s, s2, x, p, j, h, stale);
      case Finish(x, p) =>
        var s1 := SetPtr(s, x, p, s.ptr(x, p).(select := false, proposed := false));
        GivenBackStub(net, s, s1, x, p, j, h, stale);
    }
  }

  // ----- Whole runs -----

  /** `stale` at the end of a run */
  ghost function StaleIn(net: Net, s: State, steps: seq<Step>, h: Host, j: Job, stale: bool): bool
    requires Run(net, s, steps)
    decreases |steps|
  {
    if steps == [] then stale
    else StaleIn(net, Next(net, s, steps[0]), steps[1..], h, j, StaleAfter(net, s, steps[0], h, j, stale))
  }

  /** While nobody has the job, a release is the last thing that its owner has said. */
  ghost predicate FreeInv(net: Net, s: State, h: Host, j: Job, tok: Token) {
    tok.Free? ==> Released(s.sent(net.owner(j), h), j)
  }

  lemma StepFree(net: Net, s: State, step: Step, h: Host, j: Job, tok: Token)
    requires PtrInv(s) && JobInv(net, s, j, tok) && Enabled(net, s, step) && h != net.owner(j) &&
             FreeInv(net, s, h, j, tok)
    ensures FreeInv(net, Next(net, s, step), h, j, TokenAfter(net, s, step, j, tok))
  {
    hide ChannelsFit, StubsFit, CpsFit, Carried;
    var o := net.owner(j);
    JobReads(net, s, j, tok);
    if JobOf(s, step) != Some(j) {
      OtherJobStep(net, s, step, j);
      ChannelSame(s, Next(net, s, step), j, o, h);
    } else {
      match step
      case Deliver(a, b) => DeliverFree(net, s, a, b, s.sent(a, b)[s.read(a, b)], h, tok);
      case Select(x, p, _) =>
      case Report(x, p, r) => LastAppended(s.sent(o, h), JUnassigned(j, CopiesAfter(s.copy(x, j).cps, r)), j);
      case Finish(x, p) => LastAppended(s.sent(o, h), JUnassigned(j, s.copy(x, j).cps), j);
    }
  }

  lemma DeliverFree(net: Net, s: State, a: Host, b: Host, m: Msg, h: Host, tok: Token)
    requires JobInv(net, s, m.job, tok) && Reads(s, a, b, m) && h != net.owner(m.job) && FreeInv(net, s, h, m.job, tok)
    ensures FreeInv(net, Receive(net, Pop(s, a, b), a, b, m), h, m.job, TokenRead(net, s, a, b, m, tok))
  {
    hide StubsFit, CpsFit, Carried, LastAbout;
    assert MsgFits(net, m.job, tok, a, b, s.read(a, b), m);
    if m.JUnassign? {
      LastAppended(s.sent(b, h), JUnassigned(m.job, m.cps), m.job);
    }
  }

  lemma {:induction false} StubInRun(net: Net, s: State, steps: seq<Step>, h: Host, j: Job, tok: Token, stale: bool)
    returns (tok': Token)
    requires Inv(net, s) && JobInv(net, s, j, tok) && Run(net, s, steps) && h != net.owner(j)
    requires StubInv(net, s, h, j, stale) && FreeInv(net, s, h, j, tok)
    ensures var s' := Final(net, s, steps);
            && JobInv(net, s', j, tok') && FreeInv(net, s', h, j, tok')
            && StubInv(net, s', h, j, StaleIn(net, s, steps, h, j, stale))
    decreases |steps|
  {
    hide JobInv, StubInv, FreeInv, TokenAfter, StaleAfter, Next;
    if steps == [] {
      tok' := tok;
    } else {
      NextKeeps(net, s, steps[0]);
      StepKeeps(net, s, steps[0], j, tok);
      StepStub(net, s, steps[0], h, j, tok, stale);
      StepFree(net, s, steps[0], h, j, tok);
      tok' := StubInRun(net, Next(net, s, steps[0]), steps[1..], h, j, TokenAfter(net, s, steps[0], j, tok),
                        StaleAfter(net, s, steps[0], h, j, stale));
    }
  }

  /** Nothing about the job is on its way between its owner and host h, but for what h itself has
      said about results. */
  ghost predicate Quiet(net: Net, s: State, h: Host, j: Job) {
    var o := net.owner(j);
    && (forall k :: 0 <= s.read(o, h) <= k < |s.sent(o, h)| ==> s.sent(o, h)[k].job != j)
    && !Asks(s.sent(h, o), s.read(h, o), j)
  }

  /** When the owner shows the job unassigned, and nothing is under way between it and host h, then h
      shows the same, with the owner's count of copies, unless the last that it heard was
      SO_ASSIGN from a third host. */
  lemma StubFollowsOwner(net: Net, s0: State, steps: seq<Step>, h: Host, j: Job)
    requires Initial(net, s0) && Run(net, s0, steps) && h != net.owner(j)
    requires var s := Final(net, s0, steps); !s.copy(net.owner(j), j).assign && Quiet(net, s, h, j)
    ensures var s := Final(net, s0, steps);
            && (s.copy(h, j).assign <==> StaleIn(net, s0, steps, h, j, false))
            && s.copy(h, j).cps == s.copy(net.owner(j), j).cps
  {
    InitialFits(net, s0);
    FreeAtFirst(net, s0, j);
    assert s0.sent(net.owner(j), h) == [] && !s0.copy(h, j).assign;
    var tok := StubInRun(net, s0, steps, h, j, Free, false);
    QuietStub(net, Final(net, s0, steps), h, j, tok, StaleIn(net, s0, steps, h, j, false));
  }

  lemma QuietStub(net: Net, s: State, h: Host, j: Job, tok: Token, stale: bool)
    requires JobInv(net, s, j, tok) && FreeInv(net, s, h, j, tok) && StubInv(net, s, h, j, stale)
    requires h != net.owner(j) && !s.copy(net.owner(j), j).assign && Quiet(net, s, h, j)
    ensures s.copy(h, j).assign <==> stale
    ensures s.copy(h, j).cps == s.copy(net.owner(j), j).cps
  {
    var o := net.owner(j);
    CpsAfterNone(s.sent(o, h), s.read(o, h), j, s.copy(h, j).cps);
    assert Settled(s.sent(o, h), s.read(o, h), j);
  }

  /** So every waiting printer there that is not taken, nor private to its host, may be selected for it. */
  lemma MayBeSelected(net: Net, s0: State, steps: seq<Step>, h: Host, p: Slot, j: Job)
    requires Initial(net, s0) && Run(net, s0, steps) && h != net.owner(j)
    requires var s := Final(net, s0, steps);
             && !s.copy(net.owner(j), j).assign && s.copy(net.owner(j), j).cps > 0 && Quiet(net, s, h, j)
             && s.ptr(h, p).state == Waiting && !s.ptr(h, p).select && !net.localOnly(h, p)
    ensures Enabled(net, Final(net, s0, steps), Select(h, p, j)) <==> !StaleIn(net, s0, steps, h, j, false)
  {
    StubFollowsOwner(net, s0, steps, h, j);
  }

  /** A release that is read lets the reader select the job at once. */
  lemma ReleaseFrees(net: Net, s: State, a: Host, b: Host, j: Job, cps: Byte, p: Slot)
    requires Reads(s, a, b, JUnassigned(j, cps)) && cps > 0 && b != net.owner(j)
    requires s.ptr(b, p).state == Waiting && !s.ptr(b, p).select && !net.localOnly(b, p)
    ensures Enabled(net, Next(net, s, Deliver(a, b)), Select(b, p, j))
  {
  }

  // ----- A stub that stays assigned -----

  /** Host a prints a copy of the job of host o, and all is read at once but for what a tells h; that
      comes behind the owner's release. */
  function StaleSteps(o: Host, a: Host, h: Host, p: Slot, j: Job): seq<Step> {
    [Select(a, p, j), Deliver(a, o), Deliver(o, a), Deliver(a, o), Finish(a, p), Deliver(a, o), Deliver(o, h),
      Deliver(a, h)]
  }

  lemma RunTwo(net: Net, s: State, x: seq<Step>, y: seq<Step>)
    requires Run(net, s, x) && Run(net, Final(net, s, x), y)
    ensures Run(net, s, x + y) && Final(net, s, x + y) == Final(net, Final(net, s, x), y)
    decreases |x|
  {
    if x == [] {
      assert x + y == y;
    } else {
      assert (x + y)[0] == x[0] && (x + y)[1..] == x[1..] + y;
      RunTwo(net, Next(net, s, x[0]), x[1..], y);
    }
  }

  lemma RunOne(net: Net, s: State, step: Step)
    requires Enabled(net, s, step)
    ensures Run(net, s, [step]) && Final(net, s, [step]) == Next(net, s, step)
  {
    assert [step][1..] == [] && Run(net, Next(net, s, step), []);
  }

  lemma RunMore(net: Net, s: State, steps: seq<Step>, step: Step)
    requires Run(net, s, steps) && Enabled(net, Final(net, s, steps), step)
    ensures Run(net, s, steps + [step]) && Final(net, s, steps + [step]) == Next(net, Final(net, s, steps), step)
  {
    RunOne(net, Final(net, s, steps), step);
    RunTwo(net, s, steps, [step]);
  }

  /** The channels that matter, and how far they have been read */
  ghost predicate Channels(s: State, o: Host, a: Host, h: Host, ao: seq<Msg>, rao: int, oa: seq<Msg>, roa: int,
                           oh: seq<Msg>, roh: int, ah: seq<Msg>, rah: int)
  {
    && s.sent(a, o) == ao && s.read(a, o) == rao && s.sent(o, a) == oa && s.read(o, a) == roa
    && s.sent(o, h) == oh && s.read(o, h) == roh && s.sent(a, h) == ah && s.read(a, h) == rah
    && s.sent(h, o) == []
  }

  ghost predicate Apart(net: Net, a: Host, h: Host, j: Job) {
    a != net.owner(j) && h != net.owner(j) && a != h
  }

  /** a has proposed, and the owner has granted. */
  lemma UpToGrant(net: Net, s: State, a: Host, h: Host, p: Slot, j: Job)
    requires Initial(net, s) && net.original(j) > 0 && s.ptr(a, p).state == Waiting && !net.localOnly(a, p)
    requires Apart(net, a, h, j)
    ensures var (o, s1) := (net.owner(j), DoAssign(net, s, a, p, j));
            && Enabled(net, s, Select(a, p, j)) && Enabled(net, s1, Deliver(a, o))
            && var s2 := Next(net, s1, Deliver(a, o));
            && Channels(s2, o, a, h, [Propose(j, p)], 1, [PropOk(j, p)], 0, [], 0, [], 0)
            && s2.ptr(a, p) == Printer(Waiting, true, true, None) && s2.copy(a, j).proposed
  {
    var (o, s1) := (net.owner(j), DoAssign(net, s, a, p, j));
    assert s1.sent(a, o) == [Propose(j, p)] && s1.read(a, o) == 0;
    var s2 := Next(net, s1, Deliver(a, o));
    assert s2.sent(o, a) == [PropOk(j, p)] && s2.sent(a, o) == [Propose(j, p)];
    assert s1.ptr(a, p) == Printer(Waiting, true, true, None);
  }

  /** a prints, and its owner knows. */
  lemma UpToPrint(net: Net, s: State, a: Host, h: Host, p: Slot, j: Job)
    requires Apart(net, a, h, j)
    requires Channels(s, net.owner(j), a, h, [Propose(j, p)], 1, [PropOk(j, p)], 0, [], 0, [], 0)
    requires s.ptr(a, p) == Printer(Waiting, true, true, None) && s.copy(a, j).proposed
    ensures var o := net.owner(j);
            && Enabled(net, s, Deliver(o, a))
            && var s1 := Next(net, s, Deliver(o, a));
            && Enabled(net, s1, Deliver(a, o))
            && var s2 := Next(net, s1, Deliver(a, o));
            && Channels(s2, o, a, h, [Propose(j, p), Assign(j, p)], 2, [PropOk(j, p)], 1, [], 0, [Assign(j, p)], 0)
            && s2.ptr(a, p).jslot == Some(j)
  {
    var o := net.owner(j);
    var s1 := Next(net, s, Deliver(o, a));
    assert s1.sent(a, o) == [Propose(j, p), Assign(j, p)] && s1.read(a, o) == 1;
  }

  /** a gives the job back, and the owner tells everybody. */
  lemma UpToRelease(net: Net, s: State, a: Host, h: Host, p: Slot, j: Job)
    requires Apart(net, a, h, j) && s.ptr(a, p).jslot == Some(j)
    requires Channels(s, net.owner(j), a, h, [Propose(j, p), Assign(j, p)], 2, [PropOk(j, p)], 1, [], 0,
             [Assign(j, p)], 0)
    ensures var (o, c) := (net.owner(j), s.copy(a, j).cps);
            var s1 := Next(net, s, Finish(a, p));
            && Enabled(net, s1, Deliver(a, o))
            && var s2 := Next(net, s1, Deliver(a, o));
            && s2.sent(o, h) == [JUnassigned(j, c)] && s2.read(o, h) == 0 && s2.sent(h, o) == []
            && s2.sent(a, h) == [Assign(j, p)] && s2.read(a, h) == 0
            && !s2.copy(o, j).assign
  {
    var (o, c) := (net.owner(j), s.copy(a, j).cps);
    var s1 := Next(net, s, Finish(a, p));
    assert s1.sent(a, o) == [Propose(j, p), Assign(j, p), JUnassign(j, c)] && s1.read(a, o) == 2;
  }

  /** h reads the release, and then what a said before. */
  lemma UpToStale(net: Net, s: State, a: Host, h: Host, p: Slot, j: Job, c: Byte)
    requires Apart(net, a, h, j) && !s.copy(net.owner(j), j).assign
    requires var o := net.owner(j);
             && s.sent(o, h) == [JUnassigned(j, c)] && s.read(o, h) == 0 && s.sent(h, o) == []
             && s.sent(a, h) == [Assign(j, p)] && s.read(a, h) == 0
    ensures var o := net.owner(j);
            && Enabled(net, s, Deliver(o, h))
            && var s1 := Next(net, s, Deliver(o, h));
            && Enabled(net, s1, Deliver(a, h))
            && var s2 := Next(net, s1, Deliver(a, h));
            && Quiet(net, s2, h, j) && s2.copy(h, j).assign && !s2.copy(o, j).assign
  {
  }

  /** The job is unassigned at its owner, and nothing is under way to h; but h shows it assigned. */
  lemma StubStaysAssigned(net: Net, s: State, a: Host, h: Host, p: Slot, j: Job)
    requires Initial(net, s) && net.original(j) > 0 && s.ptr(a, p).state == Waiting && !net.localOnly(a, p)
    requires Apart(net, a, h, j)
    ensures var steps := StaleSteps(net.owner(j), a, h, p, j);
            && Run(net, s, steps)
            && var s' := Final(net, s, steps);
            && !s'.copy(net.owner(j), j).assign && Quiet(net, s', h, j) && s'.copy(h, j).assign
  {
    hide Next, Enabled, Quiet, Channels, Initial, Apart, DoAssign;
    var o := net.owner(j);
    UpToGrant(net, s, a, h, p, j);
    AssignIsNext(net, s, a, p, j);
    RunOne(net, s, Select(a, p, j));
    RunMore(net, s, [Select(a, p, j)], Deliver(a, o));
    var s2, steps2 := Final(net, s, [Select(a, p, j), Deliver(a, o)]), [Select(a, p, j), Deliver(a, o)];
    assert [Select(a, p, j)] + [Deliver(a, o)] == steps2;
    UpToPrint(net, s2, a, h, p, j);
    RunMore(net, s, steps2, Deliver(o, a));
    RunMore(net, s, steps2 + [Deliver(o, a)], Deliver(a, o));
    var steps4 := steps2 + [Deliver(o, a)] + [Deliver(a, o)];
    var s4 := Final(net, s, steps4);
    UpToRelease(net, s4, a, h, p, j);
    FinishAlways(net, s4, a, p);
    RunMore(net, s, steps4, Finish(a, p));
    RunMore(net, s, steps4 + [Finish(a, p)], Deliver(a, o));
    var steps6 := steps4 + [Finish(a, p)] + [Deliver(a, o)];
    UpToStale(net, Final(net, s, steps6), a, h, p, j, s4.copy(a, j).cps);
    RunMore(net, s, steps6, Deliver(o, h));
    RunMore(net, s, steps6 + [Deliver(o, h)], Deliver(a, h));
    assert steps6 + [Deliver(o, h)] + [Deliver(a, h)] == StaleSteps(o, a, h, p, j);
  }

  lemma AssignIsNext(net: Net, s: State, a: Host, p: Slot, j: Job)
    requires Enabled(net, s, Select(a, p, j))
    ensures Next(net, s, Select(a, p, j)) == DoAssign(net, s, a, p, j)
  {
  }

  lemma FinishAlways(net: Net, s: State, a: Host, p: Slot)
    ensures Enabled(net, s, Finish(a, p))
  {
  }
}
