/** The promises of the assignment protocol, for every run from an idle network. */
module AssignmentTheorems {
  import opened Common
  import opened Assignment
  import opened AssignmentSafety

  /** Everything that carries the right to print a job: a printer at work on it, at the owner
      or elsewhere; a grant on its way to a host; a job on its way back.  `k` is the position
      of the message in its channel. */
  datatype Holder =
    | AtWork(h: Host, p: Slot)
    | GrantMsg(h: Host, k: int)
    | ReturnMsg(h: Host, k: int)

  ghost predicate Holds(net: Net, s: State, j: Job, x: Holder) {
    var o := net.owner(j);
    match x
    case AtWork(h, p) => Prints(s, h, p, j)
    case GrantMsg(h, k) =>
      0 <= s.read(o, h) <= k < |s.sent(o, h)| && s.sent(o, h)[k].PropOk? && s.sent(o, h)[k].job == j
    case ReturnMsg(h, k) =>
      0 <= s.read(h, o) <= k < |s.sent(h, o)| && s.sent(h, o)[k].JUnassign? && s.sent(h, o)[k].job == j
  }

  ghost predicate Reached(net: Net, s: State) {
    exists s0, steps :: Initial(net, s0) && Run(net, s0, steps) && s == Final(net, s0, steps)
  }

  lemma FreeAtFirst(net: Net, s: State, j: Job)
    requires Initial(net, s)
    ensures JobInv(net, s, j, Free)
  {
    assert s.copy(net.owner(j), j) == Copy(false, false, net.original(j), Nowhere);
    assert s.printed(j) == 0 && s.forgone(j) == 0;
    assert ChannelsFit(net, s, j, Free) && CpsFit(net, s, j, Free) && StubsFit(net, s, j, Free);
    assert OwnerFits(net, s, j, Free) && Carried(net, s, j, Free) && PrintersFit(s, j, Free);
  }

  lemma InitialFits(net: Net, s: State)
    requires Initial(net, s)
    ensures Inv(net, s)
  {
    hide JobInv;
    forall j
      ensures HasToken(net, s, j)
    {
      FreeAtFirst(net, s, j);
    }
  }

  lemma {:induction false} RunKeeps(net: Net, s: State, steps: seq<Step>)
    requires Inv(net, s) && Run(net, s, steps)
    ensures Inv(net, Final(net, s, steps))
    decreases |steps|
  {
    if steps != [] {
      NextKeeps(net, s, steps[0]);
      RunKeeps(net, Next(net, s, steps[0]), steps[1..]);
    }
  }

  lemma ReachedFits(net: Net, s: State, j: Job) returns (tok: Token)
    requires Reached(net, s)
    ensures Inv(net, s) && JobInv(net, s, j, tok)
  {
    var s0, steps :| Initial(net, s0) && Run(net, s0, steps) && s == Final(net, s0, steps);
    InitialFits(net, s0);
    RunKeeps(net, s0, steps);
    assert HasToken(net, s, j);
    tok :| JobInv(net, s, j, tok);
  }

  /** Where the token is, seen from its holder */
  lemma HolderHasToken(net: Net, s: State, j: Job, tok: Token, x: Holder)
    requires JobInv(net, s, j, tok) && Holds(net, s, j, x)
    ensures match x
            case AtWork(h, p) => tok == Printing(h, p)
            case GrantMsg(h, k) => tok.Granted? && tok.h == h && tok.i == k
            case ReturnMsg(h, k) => tok.Returning? && tok.h == h && tok.i == k
  {
    var o := net.owner(j);
    match x
    case AtWork(h, p) =>
    case GrantMsg(h, k) => assert MsgFits(net, j, tok, o, h, k, s.sent(o, h)[k]);
    case ReturnMsg(h, k) => assert MsgFits(net, j, tok, h, o, k, s.sent(h, o)[k]);
  }

  /** Safety: at any moment at most one printer anywhere prints a job; and a grant under way,
      a print at any host, and a job under way back exclude each other and themselves. */
  lemma OneHolder(net: Net, s: State, j: Job, x: Holder, y: Holder)
    requires Reached(net, s)
    requires Holds(net, s, j, x) && Holds(net, s, j, y)
    ensures x == y
  {
    var tok := ReachedFits(net, s, j);
    HolderHasToken(net, s, j, tok, x);
    HolderHasToken(net, s, j, tok, y);
  }

  /** The owner's flag and spq_pslot: while anyone may print, the job is marked assigned to that
      very host, so that the host's death can release it; a job not marked is held by nobody. */
  lemma OwnerKnows(net: Net, s: State, j: Job, x: Holder)
    requires Reached(net, s) && Holds(net, s, j, x)
    ensures s.copy(net.owner(j), j).assign
    ensures HostOf(s.copy(net.owner(j), j).pslot) == Some(x.h)
  {
    var tok := ReachedFits(net, s, j);
    HolderHasToken(net, s, j, tok, x);
  }

  /** A printer never starts on, or finishes, a copy that is not there: whoever prints shows
      the owner's count and it is at least one, and so does whoever proposes to print. */
  lemma CopiesAreThere(net: Net, s: State, j: Job, h: Host, p: Slot)
    requires Reached(net, s)
    ensures Prints(s, h, p, j) ==> s.copy(h, j).cps == s.copy(net.owner(j), j).cps >= 1
    ensures Prints(s, h, p, j) ==> CopiesAfter(s.copy(h, j).cps, Done(false)) == s.copy(h, j).cps - 1
    ensures Prints(s, h, p, j) && h != net.owner(j) ==> s.copy(h, j).assign && !s.copy(h, j).proposed
    ensures h != net.owner(j) && s.copy(h, j).proposed ==> s.copy(h, j).cps >= 1
  {
    var tok := ReachedFits(net, s, j);
    if Prints(s, h, p, j) && h != net.owner(j) {
      CpsAfterNone(s.sent(net.owner(j), h), s.read(net.owner(j), h), j, s.copy(h, j).cps);
    }
  }

  /** When a host reads a grant it shows the owner's count, wanted or not. */
  lemma GrantCarriesCount(net: Net, s: State, j: Job, h: Host)
    requires Reached(net, s)
    requires Holds(net, s, j, GrantMsg(h, s.read(net.owner(j), h)))
    ensures s.copy(h, j).cps == s.copy(net.owner(j), j).cps
  {
    var tok := ReachedFits(net, s, j);
    var m := s.sent(net.owner(j), h)[s.read(net.owner(j), h)];
    GrantIsCurrent(net, s, net.owner(j), h, j, m.slot, tok);
  }

  /** A result that drops copies unprinted */
  predicate Drops(step: Step) {
    step.Report? && (step.r.Errors? || step.r == Done(true))
  }

  lemma {:induction false} NothingDropped(net: Net, s: State, steps: seq<Step>, j: Job)
    requires Inv(net, s) && Run(net, s, steps)
    requires forall k :: 0 <= k < |steps| ==> !Drops(steps[k])
    ensures Final(net, s, steps).forgone(j) == s.forgone(j)
    decreases |steps|
  {
    if steps != [] {
      NextKeeps(net, s, steps[0]);
      if steps[0].Report? && Prints(s, steps[0].h, steps[0].p, j) {
        assert HasToken(net, s, j);
      }
      NothingDropped(net, Next(net, s, steps[0]), steps[1..], j);
    }
  }

  /** Conservation: once the job is back at its owner, the copies printed anywhere, those
      dropped and those still to print add up to the copies asked for ... */
  lemma CopiesConserved(net: Net, s: State, j: Job)
    requires Reached(net, s)
    requires forall x: Holder :: !(x.ReturnMsg? && Holds(net, s, j, x))
    ensures s.printed(j) + s.forgone(j) + s.copy(net.owner(j), j).cps == net.original(j)
  {
    var tok := ReachedFits(net, s, j);
    if tok.Returning? {
      assert Holds(net, s, j, ReturnMsg(tok.h, tok.i));
    }
  }

  /** ... and with neither errors nor the one-copy flag nothing is dropped. */
  lemma EveryCopyPrinted(net: Net, s0: State, steps: seq<Step>, j: Job)
    requires Initial(net, s0) && Run(net, s0, steps)
    requires forall k :: 0 <= k < |steps| ==> !Drops(steps[k])
    requires !Final(net, s0, steps).copy(net.owner(j), j).assign
    ensures Final(net, s0, steps).printed(j) + Final(net, s0, steps).copy(net.owner(j), j).cps == net.original(j)
  {
    var s := Final(net, s0, steps);
    assert Reached(net, s);
    InitialFits(net, s0);
    NothingDropped(net, s0, steps, j);
    forall x: Holder | x.ReturnMsg? && Holds(net, s, j, x)
      ensures false
    {
      OwnerKnows(net, s, j, x);
    }
    CopiesConserved(net, s, j);
  }

  // ----- What the protocol does not promise -----

  /** Marked assigned at its owner, and nobody holds it */
  ghost predicate Lost(net: Net, s: State, j: Job) {
    s.copy(net.owner(j), j).assign && forall x :: !Holds(net, s, j, x)
  }

  lemma LostIsStranded(net: Net, s: State, j: Job, tok: Token)
    requires JobInv(net, s, j, tok)
    ensures Lost(net, s, j) <==> tok.Stranded?
  {
    if tok.Granted? {
      assert Holds(net, s, j, GrantMsg(tok.h, tok.i));
    } else if tok.Returning? {
      assert Holds(net, s, j, ReturnMsg(tok.h, tok.i));
    } else if tok.Printing? {
      assert Holds(net, s, j, AtWork(tok.h, tok.slot));
    } else if tok.Stranded? {
      forall x
        ensures !Holds(net, s, j, x)
      {
        if Holds(net, s, j, x) {
          HolderHasToken(net, s, j, tok, x);
        }
      }
    }
  }

  /** A host reads a grant of job j that it no longer wants: confirm_print returns, or undoes the
      printer's proposal, without a word to the owner. */
  predicate Refuses(s: State, step: Step, j: Job) {
    && step.Deliver?
    && 0 <= s.read(step.a, step.b) < |s.sent(step.a, step.b)|
    && var m := s.sent(step.a, step.b)[s.read(step.a, step.b)];
    m.PropOk? && m.job == j && !Wanted(s, step.b, j, m.slot)
  }

  lemma RefusedIsStranded(net: Net, s: State, step: Step, j: Job, tok: Token)
    requires PtrInv(s) && JobInv(net, s, j, tok) && Enabled(net, s, step)
    ensures TokenAfter(net, s, step, j, tok).Stranded? <==> tok.Stranded? || Refuses(s, step, j)
    ensures tok.Stranded? ==> TokenAfter(net, s, step, j, tok) == tok
  {
    if JobOf(s, step) == Some(j) {
      match step
      case Deliver(a, b) => assert MsgFits(net, j, tok, a, b, s.read(a, b), s.sent(a, b)[s.read(a, b)]);
      case Report(h, p, _) => assert Prints(s, h, p, j);
      case Finish(h, p) => assert Prints(s, h, p, j);
      case Select(_, _, _) =>
    }
  }

  /** A step loses a job if and only if it is a host's reading of a grant that it does not want. */
  lemma LostByRefusal(net: Net, s: State, step: Step, j: Job)
    requires Reached(net, s) && Enabled(net, s, step) && !Lost(net, s, j)
    ensures Lost(net, Next(net, s, step), j) <==> Refuses(s, step, j)
  {
    hide Refuses, Lost, JobInv, TokenAfter, Next, Enabled, Reached;
    var tok := ReachedFits(net, s, j);
    StepKeeps(net, s, step, j, tok);
    LostIsStranded(net, s, j, tok);
    RefusedIsStranded(net, s, step, j, tok);
    LostIsStranded(net, Next(net, s, step), j, TokenAfter(net, s, step, j, tok));
  }

  /** Somewhere along the steps a grant of job j is refused. */
  ghost predicate RefusedIn(net: Net, s: State, steps: seq<Step>, j: Job)
    requires Run(net, s, steps)
    decreases |steps|
  {
    steps != [] && (Refuses(s, steps[0], j) || RefusedIn(net, Next(net, s, steps[0]), steps[1..], j))
  }

  lemma {:induction false} StrandedAfter(net: Net, s: State, steps: seq<Step>, j: Job, tok: Token) returns (tok': Token)
    requires Inv(net, s) && JobInv(net, s, j, tok) && Run(net, s, steps)
    ensures JobInv(net, Final(net, s, steps), j, tok')
    ensures tok'.Stranded? <==> tok.Stranded? || RefusedIn(net, s, steps, j)
    ensures tok.Stranded? ==> tok' == tok && Final(net, s, steps).printed(j) == s.printed(j)
    decreases |steps|
  {
    hide JobInv, TokenAfter, Refuses, Next;
    if steps == [] {
      tok' := tok;
    } else {
      NextKeeps(net, s, steps[0]);
      StepKeeps(net, s, steps[0], j, tok);
      RefusedIsStranded(net, s, steps[0], j, tok);
      if tok.Stranded? {
        StrandedPrintsNothing(net, s, steps[0], j, tok);
      }
      tok' := StrandedAfter(net, Next(net, s, steps[0]), steps[1..], j, TokenAfter(net, s, steps[0], j, tok));
    }
  }

  lemma StrandedPrintsNothing(net: Net, s: State, step: Step, j: Job, tok: Token)
    requires JobInv(net, s, j, tok) && tok.Stranded? && Enabled(net, s, step)
    ensures Next(net, s, step).printed(j) == s.printed(j)
  {
    if step.Report? {
      assert !Prints(s, step.h, step.p, j);
    }
  }

  /** Over whole runs: a job is lost at the end if and only if a grant of it was refused on the way. */
  lemma LostInRun(net: Net, s0: State, steps: seq<Step>, j: Job)
    requires Initial(net, s0) && Run(net, s0, steps)
    ensures Lost(net, Final(net, s0, steps), j) <==> RefusedIn(net, s0, steps, j)
  {
    InitialFits(net, s0);
    FreeAtFirst(net, s0, j);
    var tok := StrandedAfter(net, s0, steps, j, Free);
    LostIsStranded(net, Final(net, s0, steps), j, tok);
  }

  /** A job that is lost stays lost, and is printed no more, whatever happens next. */
  lemma LostForever(net: Net, s: State, steps: seq<Step>, j: Job)
    requires Reached(net, s) && Lost(net, s, j) && Run(net, s, steps)
    ensures Lost(net, Final(net, s, steps), j)
    ensures Final(net, s, steps).printed(j) == s.printed(j)
  {
    hide Lost, JobInv, Reached;
    var tok := ReachedFits(net, s, j);
    LostIsStranded(net, s, j, tok);
    var tok' := StrandedAfter(net, s, steps, j, tok);
    LostIsStranded(net, Final(net, s, steps), j, tok');
  }

  /** The four steps that lose a job: a host proposes itself, the owner grants, the printer
      process ends meanwhile, and the grant finds no taker. */
  function LosingSteps(net: Net, h: Host, p: Slot, j: Job): seq<Step> {
    [Select(h, p, j), Deliver(h, net.owner(j)), Finish(h, p), Deliver(net.owner(j), h)]
  }

  /** They are possible for every job, every foreign host and every printer there that may
      take the job: the protocol is safe, but it can lose a job for good (see LostForever). */
  lemma GrantCanBeLost(net: Net, s: State, h: Host, p: Slot, j: Job)
    requires Initial(net, s)
    requires h != net.owner(j) && !net.localOnly(h, p)
    requires s.ptr(h, p).state == Waiting && net.original(j) > 0
    ensures Run(net, s, LosingSteps(net, h, p, j))
    ensures Lost(net, Final(net, s, LosingSteps(net, h, p, j)), j)
  {
    var o := net.owner(j);
    var steps := LosingSteps(net, h, p, j);
    InitialFits(net, s);
    var s1 := Next(net, s, steps[0]);
    assert s1.sent(h, o) == [Propose(j, p)] && s1.read(h, o) == 0;
    var s2 := Next(net, s1, steps[1]);
    assert s2.sent(o, h) == [PropOk(j, p)] && s2.read(o, h) == 0;
    var s3 := Next(net, s2, steps[2]);
    assert !s3.ptr(h, p).select && s3.sent(o, h) == [PropOk(j, p)] && s3.read(o, h) == 0;
    var s4 := Next(net, s3, steps[3]);
    assert s4.read(o, h) == 1 && |s4.sent(o, h)| == 1;
    assert steps[1..][0] == steps[1] && steps[1..][1..][0] == steps[2] && steps[1..][1..][1..][0] == steps[3];
    assert steps[1..][1..][1..][1..] == [];
    assert Run(net, s4, steps[1..][1..][1..][1..]);
    assert Run(net, s3, steps[1..][1..][1..]) && Final(net, s3, steps[1..][1..][1..]) == s4;
    assert Run(net, s2, steps[1..][1..]) && Final(net, s2, steps[1..][1..]) == s4;
    assert Run(net, s1, steps[1..]) && Final(net, s1, steps[1..]) == s4;
    assert Lost(net, s4, j);
  }
}
