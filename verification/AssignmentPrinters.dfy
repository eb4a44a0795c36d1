/** When printers start and stop, and what they tell the other hosts. */
module AssignmentPrinters {
  import opened Common
  import opened Assignment
  import opened AssignmentSafety
  import opened AssignmentTheorems

  // ----- Printers -----

  /** Idle, waiting for the answer to a proposal, or printing */
  predicate Shaped(q: Printer) {
    || (!q.select && !q.proposed && q.jslot == None)
    || (q.select && q.proposed && q.jslot == None)
    || (q.select && !q.proposed && q.jslot.Some?)
  }

  /** Every printer is in one of the three shapes, and one that is private to its host neither proposes
      itself to others nor prints for them. */
  ghost predicate PrintersKept(net: Net, s: State) {
    && (forall h, p :: Shaped(s.ptr(h, p)))
    && (forall h, p :: net.localOnly(h, p) ==> !s.ptr(h, p).proposed)
    && (forall h, p, j :: Prints(s, h, p, j) && net.localOnly(h, p) ==> h == net.owner(j))
  }

  /** At most one printer is left changed, as it should be. */
  lemma OnePrinter(net: Net, s: State, s': State, h: Host, p: Slot)
    requires PrintersKept(net, s)
    requires forall h', p' :: (h' == h && p' == p) || s'.ptr(h', p') == s.ptr(h', p')
    requires var q := s'.ptr(h, p);
             Shaped(q) && (net.localOnly(h, p) ==> !q.proposed && forall j :: Prints(s', h, p, j) ==> h == net.owner(j))
    ensures PrintersKept(net, s')
  {
  }

  lemma StepPrinters(net: Net, s: State, step: Step)
    requires PrintersKept(net, s) && Enabled(net, s, step)
    ensures PrintersKept(net, Next(net, s, step))
  {
    var s' := Next(net, s, step);
    match step
    case Deliver(a, b) =>
      var m := s.sent(a, b)[s.read(a, b)];
      OnePrinter(net, s, s', b, if m.PropOk? || m.PropNok? then m.slot else 0);
    case Select(h, p, _) => OnePrinter(net, s, s', h, p);
    case Report(h, p, _) => OnePrinter(net, s, s', h, p);
    case Finish(h, p) => OnePrinter(net, s, s', h, p);
    case Status(h, p, _) => OnePrinter(net, s, s', h, p);
  }

  lemma {:induction false} RunPrinters(net: Net, s: State, steps: seq<Step>)
    requires PrintersKept(net, s) && Run(net, s, steps)
    ensures PrintersKept(net, Final(net, s, steps))
    decreases |steps|
  {
    hide PrintersKept;
    if steps != [] {
      StepPrinters(net, s, steps[0]);
      RunPrinters(net, Next(net, s, steps[0]), steps[1..]);
    }
  }

  lemma PrintersInRun(net: Net, s0: State, steps: seq<Step>)
    requires Initial(net, s0) && Run(net, s0, steps)
    ensures PrintersKept(net, Final(net, s0, steps))
  {
    RunPrinters(net, s0, steps);
  }

  /** A printer starts on a job exactly when it waits, and either is picked for a free job of its own
      host or reads the grant that it proposed itself for. */
  lemma Starts(net: Net, s: State, step: Step, h: Host, p: Slot, j: Job)
    requires Reached(net, s) && Enabled(net, s, step) && !Prints(s, h, p, j)
    ensures Prints(Next(net, s, step), h, p, j) <==>
            && s.ptr(h, p).state == Waiting
            && if h == net.owner(j) then step == Select(h, p, j)
               else && step == Deliver(net.owner(j), h)
                    && Reads(s, net.owner(j), h, PropOk(j, p)) && Wanted(s, h, j, p)
  {
    hide Reached, Receive, JobInv;
    var tok := ReachedFits(net, s, j);
    if step.Deliver? {
      DeliverStarts(net, s, step.a, step.b, s.sent(step.a, step.b)[s.read(step.a, step.b)], h, p, j, tok);
    }
  }

  lemma DeliverStarts(net: Net, s: State, a: Host, b: Host, m: Msg, h: Host, p: Slot, j: Job, tok: Token)
    requires JobInv(net, s, j, tok) && Reads(s, a, b, m) && !Prints(s, h, p, j)
    ensures Prints(Receive(net, Pop(s, a, b), a, b, m), h, p, j) <==>
            h != net.owner(j) && a == net.owner(j) && b == h && m == PropOk(j, p) && Wanted(s, h, j, p)
  {
    hide StubsFit, CpsFit, Carried, OwnerFits, PrintersFit;
    if m == PropOk(j, p) {
      assert MsgFits(net, j, tok, a, b, s.read(a, b), m);
    }
  }

  /** Whatever the owner's answer is, a waiting printer that reads it stops proposing: it prints the job,
      or it is free for any other. */
  lemma Answered(net: Net, s: State, b: Host, j: Job, p: Slot, ok: bool)
    requires Reads(s, net.owner(j), b, if ok then PropOk(j, p) else PropNok(j, p))
    requires s.ptr(b, p).state == Waiting && s.ptr(b, p).select && s.ptr(b, p).proposed
    ensures var s' := Next(net, s, Deliver(net.owner(j), b));
            if ok && s.copy(b, j).proposed
            then Prints(s', b, p, j) && Shaped(s'.ptr(b, p)) && !s'.copy(b, j).proposed
            else Shaped(s'.ptr(b, p)) && forall k :: Enabled(net, s', Select(b, p, k)) <==>
                   s'.copy(b, k).cps != 0 && !s'.copy(b, k).assign && (b == net.owner(k) || !net.localOnly(b, p))
  {
  }

  /** A job that was refused is not picked again before it is released. */
  lemma NotPickedAgain(net: Net, s: State, b: Host, j: Job, p: Slot, p': Slot)
    requires Reads(s, net.owner(j), b, PropNok(j, p)) && s.copy(b, j).proposed
    requires s.ptr(b, p).state == Waiting && s.ptr(b, p).select && s.ptr(b, p).proposed
    ensures var s' := Next(net, s, Deliver(net.owner(j), b));
            && s'.copy(b, j).pslot == Nowhere && !s'.copy(b, j).proposed
            && !Enabled(net, s', Select(b, p', j))
  {
  }

  /** A printer picks jobs only in the state that its process has set last. */
  lemma PicksWhenWaiting(net: Net, s: State, h: Host, p: Slot, state: PrinterState, j: Job)
    requires PrintersKept(net, s) && s.ptr(h, p).jslot == None && !s.ptr(h, p).proposed
    requires s.copy(h, j).cps > 0 && !s.copy(h, j).assign && !net.localOnly(h, p)
    ensures Enabled(net, Next(net, s, Status(h, p, state)), Select(h, p, j)) <==> state == Waiting
  {
  }

  /** A printer that ends its job, or whose process ends, is free again. */
  lemma FreeAfter(net: Net, s: State, h: Host, p: Slot, r: Outcome)
    ensures Next(net, s, Report(h, p, r)).ptr(h, p) == Printer(s.ptr(h, p).state, false, false, None)
    ensures Next(net, s, Finish(h, p)).ptr(h, p) == Printer(s.ptr(h, p).state, false, false, None)
  {
  }

  /** What a result does to the copies: after errors, and when only one copy was wanted, none is left to print. */
  lemma ResultCounted(net: Net, s: State, h: Host, p: Slot, r: Outcome, j: Job)
    requires Reached(net, s) && Prints(s, h, p, j)
    ensures var s' := Next(net, s, Report(h, p, r));
            var left := net.original(j) - s'.printed(j) - s'.forgone(j);
            && s'.printed(j) == s.printed(j) + (if r.Done? then 1 else 0)
            && (r.Errors? || r == Done(true) ==> left == 0)
            && (r.Aborted? || r == Done(false) ==> s'.forgone(j) == s.forgone(j))
            && s'.copy(h, j).cps == left
            && (h == net.owner(j) ==> !s'.copy(h, j).assign)
            && (h != net.owner(j) ==> s'.sent(h, net.owner(j)) == s.sent(h, net.owner(j)) + [JUnassign(j, left)])
  {
    hide Run, Final, Initial, Inv, ChannelsFit;
    var tok := ReachedFits(net, s, j);
    assert tok == Printing(h, p);
    CopiesAreThere(net, s, j, h, p);
  }

  // ----- Proposals and answers -----

  /** How often the message is among the first n */
  ghost function Count(q: seq<Msg>, n: int, m: Msg): int
    requires 0 <= n <= |q|
  {
    multiset(q[..n])[m]
  }

  lemma CountMore(q: seq<Msg>, n: nat, x: Msg, m: Msg)
    ensures n <= |q| ==> Count(q + [x], n, m) == Count(q, n, m)
    ensures Count(q + [x], |q| + 1, m) == Count(q, |q|, m) + if x == m then 1 else 0
    ensures n < |q| ==> Count(q, n + 1, m) == Count(q, n, m) + if q[n] == m then 1 else 0
  {
    assert (q + [x])[..|q| + 1] == q + [x] && q[..|q|] == q;
    if n <= |q| {
      assert (q + [x])[..n] == q[..n];
    }
    if n < |q| {
      assert q[..n + 1] == q[..n] + [q[n]];
    }
  }

  /** Each proposal of the printer that the owner has read got one answer. */
  ghost predicate AllAnswered(net: Net, s: State, h: Host, p: Slot, j: Job) {
    var o := net.owner(j);
    && 0 <= s.read(h, o) <= |s.sent(h, o)|
    && Count(s.sent(h, o), s.read(h, o), Propose(j, p)) ==
       Count(s.sent(o, h), |s.sent(o, h)|, PropOk(j, p)) + Count(s.sent(o, h), |s.sent(o, h)|, PropNok(j, p))
  }

  lemma StepAnswered(net: Net, s: State, step: Step, h: Host, p: Slot, j: Job)
    requires AllAnswered(net, s, h, p, j) && Enabled(net, s, step) && h != net.owner(j)
    ensures AllAnswered(net, Next(net, s, step), h, p, j)
  {
    hide Count, Receive;
    var (o, s') := (net.owner(j), Next(net, s, step));
    if step.Deliver? {
      DeliverAnswered(net, s, step.a, step.b, s.sent(step.a, step.b)[s.read(step.a, step.b)], h, p, j);
    } else {
      assert s'.read(h, o) == s.read(h, o);
      SentMore(s.sent(h, o), s'.sent(h, o), s.read(h, o), j, p);
      SentMore(s.sent(o, h), s'.sent(o, h), 0, j, p);
    }
  }

  lemma DeliverAnswered(net: Net, s: State, a: Host, b: Host, m: Msg, h: Host, p: Slot, j: Job)
    requires AllAnswered(net, s, h, p, j) && Reads(s, a, b, m) && h != net.owner(j)
    ensures AllAnswered(net, Receive(net, Pop(s, a, b), a, b, m), h, p, j)
  {
    hide Count;
    var (o, s') := (net.owner(j), Receive(net, Pop(s, a, b), a, b, m));
    var (up, down) := (s.sent(h, o), s.sent(o, h));
    if a == h && b == o {
      CountMore(up, s.read(h, o), m, Propose(j, p));
      if m == Propose(j, p) {
        var answer := if s.copy(o, j).assign then PropNok(j, p) else PropOk(j, p);
        assert s'.sent(o, h) == down + [answer] && s'.sent(h, o) == up;
        CountMore(down, |down|, answer, PropOk(j, p));
        CountMore(down, |down|, answer, PropNok(j, p));
      }
    }
    if m != Propose(j, p) || a != h || b != o {
      SentMore(up, s'.sent(h, o), s.read(h, o), j, p);
      SentMore(down, s'.sent(o, h), 0, j, p);
      if a == h && b == o {
        SentMore(up, s'.sent(h, o), s.read(h, o) + 1, j, p);
      }
    }
  }

  /** At most one message more, and none that answers printer p about j */
  lemma SentMore(q: seq<Msg>, q': seq<Msg>, n: nat, j: Job, p: Slot)
    requires n <= |q| && (q' == q || exists m :: q' == q + [m] && m != PropOk(j, p) && m != PropNok(j, p))
    ensures Count(q', n, Propose(j, p)) == Count(q, n, Propose(j, p))
    ensures Count(q', |q'|, PropOk(j, p)) == Count(q, |q|, PropOk(j, p))
    ensures Count(q', |q'|, PropNok(j, p)) == Count(q, |q|, PropNok(j, p))
  {
    hide Count;
    if q' != q {
      var m :| q' == q + [m] && m != PropOk(j, p) && m != PropNok(j, p);
      CountMore(q, n, m, Propose(j, p));
      CountMore(q, n, m, PropOk(j, p));
      CountMore(q, n, m, PropNok(j, p));
    }
  }

  lemma {:induction false} RunAnswered(net: Net, s: State, steps: seq<Step>, h: Host, p: Slot, j: Job)
    requires AllAnswered(net, s, h, p, j) && Run(net, s, steps) && h != net.owner(j)
    ensures AllAnswered(net, Final(net, s, steps), h, p, j)
    decreases |steps|
  {
    hide AllAnswered;
    if steps != [] {
      StepAnswered(net, s, steps[0], h, p, j);
      RunAnswered(net, Next(net, s, steps[0]), steps[1..], h, p, j);
    }
  }

  lemma EachProposalAnswered(net: Net, s0: State, steps: seq<Step>, h: Host, p: Slot, j: Job)
    requires Initial(net, s0) && Run(net, s0, steps) && h != net.owner(j)
    ensures AllAnswered(net, Final(net, s0, steps), h, p, j)
  {
    assert s0.sent(h, net.owner(j)) == [] && s0.sent(net.owner(j), h) == [];
    RunAnswered(net, s0, steps, h, p, j);
  }

  // ----- What the others are told -----

  predicate IsNews(m: Msg) {
    m.Assign? || m.LocAssign? || m.JUnassigned?
  }

  /** The last that was said about who prints the job */
  function News(q: seq<Msg>, j: Job): Option<Msg> {
    if q == [] then None
    else if q[|q| - 1].job == j && IsNews(q[|q| - 1]) then Some(q[|q| - 1])
    else News(q[..|q| - 1], j)
  }

  lemma NewsAppended(q: seq<Msg>, m: Msg, j: Job)
    ensures News(q + [m], j) == if m.job == j && IsNews(m) then Some(m) else News(q, j)
  {
    assert (q + [m])[..|q|] == q;
  }

  /** What host h tells of a print on its printer p */
  function Announcement(net: Net, h: Host, p: Slot, j: Job): Msg {
    if net.localOnly(h, p) then LocAssign(j) else Assign(j, p)
  }

  /** The host that prints has told host x so. */
  ghost predicate Told(net: Net, s: State, x: Host, j: Job, tok: Token) {
    tok.Printing? && x != tok.h ==> News(s.sent(tok.h, x), j) == Some(Announcement(net, tok.h, tok.slot, j))
  }

  /** A host other than the owner that was told by the owner shows the job assigned until it reads of a release. */
  ghost predicate Heard(net: Net, s: State, x: Host, j: Job) {
    var o := net.owner(j);
    && 0 <= s.read(o, x) <= |s.sent(o, x)|
    && (var n := News(s.sent(o, x)[..s.read(o, x)], j); n.Some? && !n.value.JUnassigned? ==> s.copy(x, j).assign)
  }

  lemma {:induction false} NewsSame(q: seq<Msg>, q': seq<Msg>, j: Job)
    requires q <= q' && forall i :: |q| <= i < |q'| ==> q'[i].job != j
    ensures News(q', j) == News(q, j)
  {
    if |q| < |q'| {
      NewsSame(q, q'[..|q'| - 1], j);
    } else {
      assert q == q';
    }
  }

  lemma StepTold(net: Net, s: State, step: Step, x: Host, j: Job, tok: Token)
    requires PtrInv(s) && JobInv(net, s, j, tok) && PrintersKept(net, s) && Enabled(net, s, step) &&
             Told(net, s, x, j, tok)
    ensures Told(net, Next(net, s, step), x, j, TokenAfter(net, s, step, j, tok))
  {
    hide News, ChannelsFit, StubsFit, CpsFit, Carried, PrintersKept, PrintersFit, RemPropose, ConfirmPrint, Unassign;
    var s' := Next(net, s, step);
    JobReads(net, s, j, tok);
    if JobOf(s, step) != Some(j) {
      OtherJobStep(net, s, step, j);
      if tok.Printing? {
        NewsSame(s.sent(tok.h, x), s'.sent(tok.h, x), j);
      }
    } else {
      match step
      case Deliver(a, b) => DeliverTold(net, s, a, b, s.sent(a, b)[s.read(a, b)], x, tok);
      case Select(h, p, _) =>
        NewsAppended(s.sent(h, x), if h == net.owner(j) then Announcement(net, h, p, j) else Propose(j, p), j);
      case Report(_, _, _) =>
      case Finish(_, _) =>
    }
  }

  lemma DeliverTold(net: Net, s: State, a: Host, b: Host, m: Msg, x: Host, tok: Token)
    requires JobInv(net, s, m.job, tok) && PrintersKept(net, s) && Reads(s, a, b, m) && Told(net, s, x, m.job, tok)
    ensures Told(net, Receive(net, Pop(s, a, b), a, b, m), x, m.job, TokenRead(net, s, a, b, m, tok))
  {
    hide News, StubsFit, CpsFit, Carried, PrintersFit;
    var j := m.job;
    assert MsgFits(net, j, tok, a, b, s.read(a, b), m);
    match m
    case Propose(_, p) => NewsAppended(s.sent(b, a), PropNok(j, p), j);
    case PropOk(_, p) => NewsAppended(s.sent(b, x), Assign(j, p), j);
    case _ =>
  }

  lemma StepHeard(net: Net, s: State, step: Step, x: Host, j: Job, tok: Token)
    requires PtrInv(s) && JobInv(net, s, j, tok) && Enabled(net, s, step) && Heard(net, s, x, j) && x != net.owner(j)
    ensures Heard(net, Next(net, s, step), x, j)
  {
    hide News, StubsFit, CpsFit, Carried, OwnerFits, PrintersFit, ChannelsFit, Receive, PtrInv;
    var (o, s') := (net.owner(j), Next(net, s, step));
    JobReads(net, s, j, tok);
    if step.Deliver? {
      var m := s.sent(step.a, step.b)[s.read(step.a, step.b)];
      DeliverHeard(net, s, step.a, step.b, m, x, j, tok);
    } else {
      assert s.sent(o, x) <= s'.sent(o, x) && s'.read(o, x) == s.read(o, x);
      assert s'.sent(o, x)[..s.read(o, x)] == s.sent(o, x)[..s.read(o, x)];
    }
  }

  lemma DeliverHeard(net: Net, s: State, a: Host, b: Host, m: Msg, x: Host, j: Job, tok: Token)
    requires JobInv(net, s, j, tok) && Reads(s, a, b, m) && Heard(net, s, x, j) && x != net.owner(j)
    ensures Heard(net, Receive(net, Pop(s, a, b), a, b, m), x, j)
  {
    hide News, StubsFit, CpsFit, Carried, OwnerFits, PrintersFit;
    var (o, s') := (net.owner(j), Receive(net, Pop(s, a, b), a, b, m));
    var (q, r) := (s.sent(o, x), s.read(o, x));
    assert q <= s'.sent(o, x) && s'.sent(o, x)[..r] == q[..r];
    if a == o && b == x {
      assert s'.sent(o, x)[..r + 1] == q[..r + 1] == q[..r] + [m];
      NewsAppended(q[..r], m, j);
    }
    if b == x && m.job == j {
      assert MsgFits(net, j, tok, a, b, s.read(a, b), m);
    }
  }

  lemma {:induction false} RunTold(net: Net, s: State, steps: seq<Step>, x: Host, j: Job, tok: Token)
    returns (tok': Token)
    requires Inv(net, s) && PrintersKept(net, s) && JobInv(net, s, j, tok) && Run(net, s, steps)
    requires Told(net, s, x, j, tok) && (x != net.owner(j) ==> Heard(net, s, x, j))
    ensures JobInv(net, Final(net, s, steps), j, tok') && Told(net, Final(net, s, steps), x, j, tok')
    ensures x != net.owner(j) ==> Heard(net, Final(net, s, steps), x, j)
    decreases |steps|
  {
    hide Told, Heard, PrintersKept, JobInv, Next, Enabled, TokenAfter;
    if steps == [] {
      tok' := tok;
    } else {
      NextKeeps(net, s, steps[0]);
      StepKeeps(net, s, steps[0], j, tok);
      StepPrinters(net, s, steps[0]);
      StepTold(net, s, steps[0], x, j, tok);
      if x != net.owner(j) {
        StepHeard(net, s, steps[0], x, j, tok);
      }
      tok' := RunTold(net, Next(net, s, steps[0]), steps[1..], x, j, TokenAfter(net, s, steps[0], j, tok));
    }
  }

  /** Every host is told of every print, by the host that prints. */
  lemma PrintsAreTold(net: Net, s0: State, steps: seq<Step>, h: Host, p: Slot, j: Job, x: Host)
    requires Initial(net, s0) && Run(net, s0, steps) && Prints(Final(net, s0, steps), h, p, j) && x != h
    ensures News(Final(net, s0, steps).sent(h, x), j) == Some(Announcement(net, h, p, j))
  {
    InitialFits(net, s0);
    FreeAtFirst(net, s0, j);
    assert x != net.owner(j) ==> s0.sent(net.owner(j), x) == [];
    var tok := RunTold(net, s0, steps, x, j, Free);
  }

  /** While a job is printed by its owner, a host that has read all that the owner has said shows it
      assigned, and selects no printer for it. */
  lemma NotPickedElsewhere(net: Net, s0: State, steps: seq<Step>, p: Slot, j: Job, x: Host, p': Slot)
    requires Initial(net, s0) && Run(net, s0, steps) && x != net.owner(j)
    requires var (o, s) := (net.owner(j), Final(net, s0, steps));
             Prints(s, o, p, j) && s.read(o, x) == |s.sent(o, x)|
    ensures Final(net, s0, steps).copy(x, j).assign
    ensures !Enabled(net, Final(net, s0, steps), Select(x, p', j))
  {
    var (o, s) := (net.owner(j), Final(net, s0, steps));
    InitialFits(net, s0);
    FreeAtFirst(net, s0, j);
    assert s0.sent(o, x) == [];
    var tok := RunTold(net, s0, steps, x, j, Free);
    assert s.sent(o, x)[..s.read(o, x)] == s.sent(o, x);
  }

  /** A host shows where it prints a job, or is to print it once its owner has agreed. */
  lemma SelectShows(net: Net, s: State, h: Host, p: Slot, j: Job)
    requires MaySelect(net, s, h, p, j)
    ensures var c := Next(net, s, Select(h, p, j)).copy(h, j);
            && c.assign && c.pslot == AtPrinter(h, p) && c.cps == s.copy(h, j).cps
            && (c.proposed <==> s.copy(h, j).proposed || h != net.owner(j))
  {
  }

  /** What a host that is told shows to its users: where the job is printed, unless that is private. */
  lemma ToldShows(net: Net, s: State, a: Host, b: Host, j: Job, p: Slot)
    ensures Reads(s, a, b, Assign(j, p)) ==>
              Next(net, s, Deliver(a, b)).copy(b, j) == Copy(true, false, s.copy(b, j).cps, AtPrinter(a, p))
    ensures Reads(s, a, b, LocAssign(j)) ==>
              Next(net, s, Deliver(a, b)).copy(b, j) == s.copy(b, j).(assign := true, pslot := Nowhere)
    ensures forall cps :: Reads(s, a, b, JUnassigned(j, cps)) ==>
              Next(net, s, Deliver(a, b)).copy(b, j) == Copy(false, false, cps, Nowhere)
  {
  }
}
