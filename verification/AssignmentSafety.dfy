/** What every run of the assignment protocol keeps. */
module AssignmentSafety {
  import opened Common
  import opened Assignment

  /** Where the right to print a job is.  `i` is the position of the message that carries it.
      Stranded: the grant reached a host that had stopped waiting for it. */
  datatype Token =
    | Free
    | Granted(h: Host, slot: Slot, i: nat)
    | Printing(h: Host, slot: Slot)
    | Returning(h: Host, i: nat, cps: Byte)
    | Stranded(h: Host)

  /** The token is away at host h, other than by a grant still under way. */
  predicate Lent(tok: Token, h: Host) {
    (tok.Printing? || tok.Returning?) && tok.h == h
  }

  /** Copies shown by a stub once it has read everything from position `from` on */
  ghost function CpsAfter(q: seq<Msg>, from: nat, j: Job, c: Byte): Byte
    requires from <= |q|
    decreases |q| - from
  {
    if from == |q| then c
    else CpsAfter(q, from + 1, j, if q[from].JUnassigned? && q[from].job == j then q[from].cps else c)
  }

  /** What an unread message about job j, at position k on the way from a to b, says about the token */
  ghost predicate MsgFits(net: Net, j: Job, tok: Token, a: Host, b: Host, k: nat, m: Msg) {
    var o := net.owner(j);
    && a != b
    && match m
       case Propose(_, _) => b == o
       case PropOk(_, p) => a == o && tok == Granted(b, p, k)
       case PropNok(_, _) => a == o
       case Assign(_, _) => b == o ==> (tok.Printing? && tok.h == a) || (tok.Returning? && tok.h == a && k < tok.i)
       case LocAssign(_) => a == o
       case JUnassign(_, c) => b == o && tok == Returning(a, k, c)
       case JUnassigned(_, _) => a == o && !Lent(tok, b) && (tok.Granted? && tok.h == b ==> k < tok.i)
  }

  ghost predicate ChannelsFit(net: Net, s: State, j: Job, tok: Token) {
    && (forall a, b :: 0 <= s.read(a, b) <= |s.sent(a, b)|)
    && (forall a, b, k :: s.read(a, b) <= k < |s.sent(a, b)| && s.sent(a, b)[k].job == j ==>
          MsgFits(net, j, tok, a, b, k, s.sent(a, b)[k]))
  }

  /** The message that carries the token is really there. */
  ghost predicate Carried(net: Net, s: State, j: Job, tok: Token) {
    var o := net.owner(j);
    match tok
    case Granted(h, p, i) => h != o && s.read(o, h) <= i < |s.sent(o, h)| && s.sent(o, h)[i] == PropOk(j, p)
    case Returning(h, i, c) => h != o && s.read(h, o) <= i < |s.sent(h, o)| && s.sent(h, o)[i] == JUnassign(j, c)
    case _ => true
  }

  /** The host the owner believes to have the job */
  function HostOf(p: Place): Option<Host> {
    match p
    case Nowhere => None
    case AtHost(h) => Some(h)
    case AtPrinter(h, _) => Some(h)
  }

  /** The owner's copy c of a job whose token is tok */
  predicate OwnerCopyFits(o: Host, tok: Token, c: Copy) {
    && (c.assign <==> !tok.Free?)
    && (c.proposed ==> c.assign)
    && (tok.Printing? && tok.h == o ==> !c.proposed)
    && (tok.Free? ==> c.pslot == Nowhere)
    && (!tok.Free? ==> HostOf(c.pslot) == Some(tok.h))
    && (tok.Granted? || tok.Stranded? ==> c.proposed && c.pslot == AtHost(tok.h))
  }

  /** The stub copy c on host h */
  predicate StubCopyFits(tok: Token, h: Host, c: Copy) {
    && (c.proposed ==> c.assign && c.cps >= 1)
    && (Lent(tok, h) ==> c.assign && !c.proposed)
  }

  ghost predicate OwnerFits(net: Net, s: State, j: Job, tok: Token) {
    OwnerCopyFits(net.owner(j), tok, s.copy(net.owner(j), j))
  }

  ghost predicate StubsFit(net: Net, s: State, j: Job, tok: Token) {
    forall h {:trigger s.copy(h, j)} :: h != net.owner(j) ==> StubCopyFits(tok, h, s.copy(h, j))
  }

  /** A stub that has read everything shows the owner's count, but for the host that changed it last. */
  ghost predicate StubsShow(net: Net, s: State, j: Job, tok: Token) {
    var o := net.owner(j);
    && (forall a, b :: 0 <= s.read(a, b) <= |s.sent(a, b)|)
    && (forall h {:trigger s.copy(h, j)} :: h != o && !(tok.Returning? && tok.h == h) ==>
          CpsAfter(s.sent(o, h), s.read(o, h), j, s.copy(h, j).cps) == s.copy(o, j).cps)
  }

  /** The counts of copies fit the token. */
  ghost predicate CountsFit(net: Net, s: State, j: Job, tok: Token) {
    && (tok.Returning? ==> s.copy(tok.h, j).cps == tok.cps)
    && (tok.Printing? ==> s.copy(tok.h, j).cps >= 1)
    && s.printed(j) + s.forgone(j) + (if tok.Returning? then tok.cps else s.copy(net.owner(j), j).cps) ==
      net.original(j)
  }

  ghost predicate CpsFit(net: Net, s: State, j: Job, tok: Token) {
    StubsShow(net, s, j, tok) && CountsFit(net, s, j, tok)
  }

  ghost predicate PrintersFit(s: State, j: Job, tok: Token) {
    forall h, p :: Prints(s, h, p, j) <==> tok == Printing(h, p)
  }

  ghost predicate JobInv(net: Net, s: State, j: Job, tok: Token) {
    && ChannelsFit(net, s, j, tok)
    && Carried(net, s, j, tok)
    && OwnerFits(net, s, j, tok)
    && StubsFit(net, s, j, tok)
    && CpsFit(net, s, j, tok)
    && PrintersFit(s, j, tok)
  }

  /** A printer with a job is selected, and no longer only proposing. */
  ghost predicate PtrInv(s: State) {
    forall h, p :: s.ptr(h, p).jslot.Some? ==> s.ptr(h, p).select && !s.ptr(h, p).proposed
  }

  ghost predicate HasToken(net: Net, s: State, j: Job) {
    exists tok :: JobInv(net, s, j, tok)
  }

  ghost predicate Inv(net: Net, s: State) {
    PtrInv(s) && forall j :: HasToken(net, s, j)
  }

  // ----- Copies shown by a stub -----

  lemma {:induction false} CpsAfterAppend(q: seq<Msg>, from: nat, j: Job, c: Byte, m: Msg)
    requires from <= |q|
    ensures CpsAfter(q + [m], from, j, c) ==
            if m.JUnassigned? && m.job == j then m.cps else CpsAfter(q, from, j, c)
    decreases |q| - from
  {
    if from < |q| {
      assert (q + [m])[from] == q[from];
      CpsAfterAppend(q, from + 1, j, if q[from].JUnassigned? && q[from].job == j then q[from].cps else c, m);
    }
  }

  /** With no release of j left to read, the stub already shows its final count. */
  lemma {:induction false} CpsAfterNone(q: seq<Msg>, from: nat, j: Job, c: Byte)
    requires from <= |q|
    requires forall k :: from <= k < |q| ==> !(q[k].JUnassigned? && q[k].job == j)
    ensures CpsAfter(q, from, j, c) == c
    decreases |q| - from
  {
    if from < |q| {
      CpsAfterNone(q, from + 1, j, c);
    }
  }

  // ----- One step keeps the invariant -----

  /** Nothing about job j differs: what was added to a channel, or read from it, is about other jobs. */
  ghost predicate SameFor(s: State, s': State, j: Job) {
    && (forall h :: s'.copy(h, j) == s.copy(h, j))
    && (forall h, p :: Prints(s', h, p, j) <==> Prints(s, h, p, j))
    && (forall a, b :: s.sent(a, b) <= s'.sent(a, b))
    && (forall a, b :: s.read(a, b) <= s'.read(a, b) <= |s.sent(a, b)|)
    && (forall a, b, k :: |s.sent(a, b)| <= k < |s'.sent(a, b)| ==> s'.sent(a, b)[k].job != j)
    && (forall a, b, k :: 0 <= s.read(a, b) <= k < s'.read(a, b) ==> s.sent(a, b)[k].job != j)
    && s'.printed(j) == s.printed(j)
    && s'.forgone(j) == s.forgone(j)
  }

  lemma {:induction false} CpsAfterSame(q: seq<Msg>, q': seq<Msg>, from: nat, from': nat, j: Job, c: Byte)
    requires from <= from' <= |q| && q <= q'
    requires forall k :: |q| <= k < |q'| ==> q'[k].job != j
    requires forall k :: from <= k < from' ==> q[k].job != j
    ensures CpsAfter(q', from', j, c) == CpsAfter(q, from, j, c)
    decreases |q'| - from
  {
    if from < from' {
      CpsAfterSame(q, q', from + 1, from', j, c);
    } else if from < |q| {
      assert q'[from] == q[from];
      CpsAfterSame(q, q', from + 1, from + 1, j, if q[from].JUnassigned? && q[from].job == j then q[from].cps else c);
    } else {
      CpsAfterNone(q', from, j, c);
    }
  }

  lemma Frame(net: Net, s: State, s': State, j: Job, tok: Token)
    requires JobInv(net, s, j, tok) && SameFor(s, s', j)
    ensures JobInv(net, s', j, tok)
  {
    var o := net.owner(j);
    forall h | h != o
      ensures CpsAfter(s'.sent(o, h), s'.read(o, h), j, s.copy(h, j).cps) ==
              CpsAfter(s.sent(o, h), s.read(o, h), j, s.copy(h, j).cps)
    {
      CpsAfterSame(s.sent(o, h), s'.sent(o, h), s.read(o, h), s'.read(o, h), j, s.copy(h, j).cps);
    }
    assert ChannelsFit(net, s', j, tok);
    assert CpsFit(net, s', j, tok);
  }

  /** What a handler on host h sends about job j: nothing, one message to host b, or one to every other host. */
  datatype Out = Silent | To(b: Host, m: Msg) | All(m: Msg)

  predicate Goes(out: Out, h: Host, a: Host, b: Host) {
    a == h && (match out
               case Silent => false
               case To(b', _) => b == b'
               case All(_) => b != h)
  }

  /** s' is s after a handler on host h that left its copy of job j as c and sent `out`, with
      the channels read as far as s' says; printers are not described. */
  ghost predicate Effect(s: State, s': State, j: Job, h: Host, c: Copy, out: Out) {
    && (forall h' :: s'.copy(h', j) == if h' == h then c else s.copy(h', j))
    && (forall a, b :: s'.sent(a, b) == if Goes(out, h, a, b) then s.sent(a, b) + [out.m] else s.sent(a, b))
  }

  ghost predicate ChannelsRead(s: State, s': State) {
    forall a, b :: 0 <= s.read(a, b) <= s'.read(a, b) <= |s.sent(a, b)|
  }

  /** Unread messages keep fitting when the token moves, and the one sent fits. */
  lemma ChannelsKept(net: Net, s: State, s': State, j: Job, h: Host, c: Copy, out: Out, tok: Token, tok': Token)
    requires ChannelsFit(net, s, j, tok) && Effect(s, s', j, h, c, out)
    requires ChannelsRead(s, s')
    requires forall a, b, k, m ::
               s'.read(a, b) <= k < |s.sent(a, b)| && m == s.sent(a, b)[k] && m.job == j ==>
                 MsgFits(net, j, tok, a, b, k, m) ==> MsgFits(net, j, tok', a, b, k, m)
    requires forall b :: Goes(out, h, h, b) ==> out.m.job == j && MsgFits(net, j, tok', h, b, |s.sent(h, b)|, out.m)
    ensures ChannelsFit(net, s', j, tok')
  {
    forall a, b, k | s'.read(a, b) <= k < |s'.sent(a, b)| && s'.sent(a, b)[k].job == j
      ensures MsgFits(net, j, tok', a, b, k, s'.sent(a, b)[k])
    {
      if k < |s.sent(a, b)| {
        assert s'.sent(a, b)[k] == s.sent(a, b)[k];
      }
    }
  }

  /** What the stubs will show, when the handler sends no release of j ... */
  lemma CpsKept(net: Net, s: State, s': State, j: Job, h: Host, c: Copy, out: Out, tok': Token)
    requires ChannelsRead(s, s') && Effect(s, s', j, h, c, out)
    requires !out.Silent? ==> !(out.m.JUnassigned? && out.m.job == j)
    requires forall h' {:trigger s'.copy(h', j)} :: h' != net.owner(j) && !(tok'.Returning? && tok'.h == h') ==>
               CpsAfter(s.sent(net.owner(j), h'), s'.read(net.owner(j), h'), j, s'.copy(h', j).cps) ==
                 s'.copy(net.owner(j), j).cps
    ensures StubsShow(net, s', j, tok')
  {
    var o := net.owner(j);
    forall h' | h' != o && !(tok'.Returning? && tok'.h == h')
      ensures CpsAfter(s'.sent(o, h'), s'.read(o, h'), j, s'.copy(h', j).cps) == s'.copy(o, j).cps
    {
      if Goes(out, h, o, h') {
        CpsAfterAppend(s.sent(o, h'), s'.read(o, h'), j, s'.copy(h', j).cps, out.m);
      }
    }
  }

  /** ... and when the owner sends one to all of them. */
  lemma CpsReleased(net: Net, s: State, s': State, j: Job, c: Copy, tok': Token)
    requires ChannelsRead(s, s') && Effect(s, s', j, net.owner(j), c, All(JUnassigned(j, c.cps)))
    ensures StubsShow(net, s', j, tok')
  {
    var o := net.owner(j);
    forall h' | h' != o
      ensures CpsAfter(s'.sent(o, h'), s'.read(o, h'), j, s'.copy(h', j).cps) == s'.copy(o, j).cps
    {
      CpsAfterAppend(s.sent(o, h'), s'.read(o, h'), j, s'.copy(h', j).cps, JUnassigned(j, c.cps));
    }
  }

  /** The handler leaves its copy of the job, and the counts, as the new token wants them; the
      token is not moved away from under another host's copy. */
  lemma Rebook(net: Net, s: State, s': State, j: Job, h: Host, c: Copy, out: Out, tok: Token, tok': Token)
    requires OwnerFits(net, s, j, tok) && StubsFit(net, s, j, tok) && Effect(s, s', j, h, c, out)
    requires ChannelsFit(net, s', j, tok') && Carried(net, s', j, tok') && StubsShow(net, s', j, tok') &&
             PrintersFit(s', j, tok')
    requires if h == net.owner(j) then OwnerCopyFits(h, tok', c)
             else StubCopyFits(tok', h, c) && OwnerCopyFits(net.owner(j), tok', s.copy(net.owner(j), j))
    requires tok' == tok || !(tok'.Printing? || tok'.Returning?) || tok'.h == h
    requires CountsFit(net, s', j, tok')
    ensures JobInv(net, s', j, tok')
  {
    hide ChannelsFit, Carried, StubsShow, PrintersFit;
  }

  /** selectj takes a free job of its own host: the token goes to the printer ... */
  lemma SelectLocal(net: Net, s: State, p: Slot, j: Job, tok: Token)
    requires PtrInv(s) && JobInv(net, s, j, tok)
    requires MaySelect(net, s, net.owner(j), p, j)
    ensures JobInv(net, DoAssign(net, s, net.owner(j), p, j), j, Printing(net.owner(j), p))
  {
    var o := net.owner(j);
    var s' := DoAssign(net, s, o, p, j);
    var c := s'.copy(o, j);
    var out := All(if net.localOnly(o, p) then LocAssign(j) else Assign(j, p));
    var tok' := Printing(o, p);
    assert Effect(s, s', j, o, c, out);
    ChannelsKept(net, s, s', j, o, c, out, tok, tok');
    CpsKept(net, s, s', j, o, c, out, tok');
    Rebook(net, s, s', j, o, c, out, tok, tok');
  }

  lemma ProposalFits(net: Net, s: State, h: Host, p: Slot, j: Job, tok: Token)
    requires ChannelsFit(net, s, j, tok) && h != net.owner(j)
    ensures ChannelsFit(net, DoAssign(net, s, h, p, j), j, tok)
  {
    var s' := DoAssign(net, s, h, p, j);
    var out := To(net.owner(j), Propose(j, p));
    assert Effect(s, s', j, h, s'.copy(h, j), out);
    ChannelsKept(net, s, s', j, h, s'.copy(h, j), out, tok, tok);
  }

  /** ... and of a stub it only makes a proposal. */
  lemma SelectRemote(net: Net, s: State, h: Host, p: Slot, j: Job, tok: Token)
    requires PtrInv(s) && JobInv(net, s, j, tok)
    requires h != net.owner(j) && MaySelect(net, s, h, p, j)
    ensures JobInv(net, DoAssign(net, s, h, p, j), j, tok)
  {
    hide MsgFits, CpsAfter;
    var s' := DoAssign(net, s, h, p, j);
    var c := s'.copy(h, j);
    var out := To(net.owner(j), Propose(j, p));
    ProposalFits(net, s, h, p, j, tok);
    assert Effect(s, s', j, h, c, out);
    CpsKept(net, s, s', j, h, c, out, tok);
    Rebook(net, s, s', j, h, c, out, tok, tok);
  }

  /** What prdone may have changed before it calls unassign for a printer of host h */
  ghost predicate Counted(s0: State, s: State, h: Host, j: Job, left: Byte) {
    && (forall a, b :: s.sent(a, b) == s0.sent(a, b) && s.read(a, b) == s0.read(a, b))
    && (forall h', p' :: s.ptr(h', p').jslot == s0.ptr(h', p').jslot)
    && (forall h' :: s.copy(h', j) == if h' == h then s0.copy(h, j).(cps := left) else s0.copy(h', j))
    && s.printed(j) + s.forgone(j) + left == s0.printed(j) + s0.forgone(j) + s0.copy(h, j).cps
  }

  /** Giving up a print: the token goes free at the owner ... */
  lemma UnassignLocal(net: Net, s0: State, s: State, p: Slot, j: Job, left: Byte)
    requires JobInv(net, s0, j, Printing(net.owner(j), p)) && Counted(s0, s, net.owner(j), j, left)
    ensures JobInv(net, Unassign(net, s, net.owner(j), p, j), j, Free)
  {
    var o := net.owner(j);
    var s' := Unassign(net, s, o, p, j);
    var c := s'.copy(o, j);
    assert Effect(s0, s', j, o, c, All(JUnassigned(j, left)));
    ChannelsKept(net, s0, s', j, o, c, All(JUnassigned(j, left)), Printing(o, p), Free);
    CpsReleased(net, s0, s', j, c, Free);
  }

  /** ... or sets out to return there. */
  lemma UnassignRemote(net: Net, s0: State, s: State, h: Host, p: Slot, j: Job, left: Byte)
    requires JobInv(net, s0, j, Printing(h, p)) && Counted(s0, s, h, j, left)
    requires h != net.owner(j)
    ensures JobInv(net, Unassign(net, s, h, p, j), j, Returning(h, |s0.sent(h, net.owner(j))|, left))
  {
    var o := net.owner(j);
    var s' := Unassign(net, s, h, p, j);
    var c := s'.copy(h, j);
    var tok' := Returning(h, |s0.sent(h, o)|, left);
    var out := To(o, JUnassign(j, left));
    assert Effect(s0, s', j, h, c, out);
    CpsAfterNone(s0.sent(o, h), s0.read(o, h), j, s0.copy(h, j).cps);
    ChannelsKept(net, s0, s', j, h, c, out, Printing(h, p), tok');
    CpsKept(net, s0, s', j, h, c, out, tok');
  }

  /** Host b has just read m from host a. */
  ghost predicate Reads(s: State, a: Host, b: Host, m: Msg) {
    0 <= s.read(a, b) < |s.sent(a, b)| && m == s.sent(a, b)[s.read(a, b)]
  }

  /** Only the channel from a to b is read, by one message. */
  ghost predicate ReadOne(s: State, s': State, a: Host, b: Host) {
    forall x, y :: s'.read(x, y) == if x == a && y == b then s.read(x, y) + 1 else s.read(x, y)
  }

  /** What a stub will show does not depend on how much of its channel it has read already. */
  lemma CpsRead(net: Net, s: State, s': State, a: Host, b: Host, m: Msg, j: Job, c: Copy, out: Out, tok: Token)
    requires StubsShow(net, s, j, tok) && Reads(s, a, b, m) && ReadOne(s, s', a, b) && Effect(s, s', j, b, c, out)
    requires a == net.owner(j) && m.JUnassigned? && m.job == j ==> c.cps == m.cps
    requires a == net.owner(j) && !(m.JUnassigned? && m.job == j) ==> c.cps == s.copy(b, j).cps
    requires a != net.owner(j) ==> c.cps == s.copy(b, j).cps
    requires a != b
    ensures forall h' {:trigger s'.copy(h', j)} :: h' != net.owner(j) && !(tok.Returning? && tok.h == h') ==>
              CpsAfter(s.sent(net.owner(j), h'), s'.read(net.owner(j), h'), j, s'.copy(h', j).cps) ==
                s'.copy(net.owner(j), j).cps
  {
    if a == net.owner(j) {
      assert CpsAfter(s.sent(a, b), s.read(a, b), j, s.copy(b, j).cps) ==
          CpsAfter(s.sent(a, b), s.read(a, b) + 1, j, c.cps);
    }
  }

  /** A message that does not carry the token has been read and nothing was sent. */
  lemma ReadKeeps(net: Net, s: State, s': State, a: Host, b: Host, m: Msg, j: Job, c: Copy, tok: Token)
    requires ChannelsFit(net, s, j, tok) && Carried(net, s, j, tok) && StubsShow(net, s, j, tok)
    requires Reads(s, a, b, m) && m.job == j && !m.PropOk? && !m.JUnassign?
    requires ReadOne(s, s', a, b) && Effect(s, s', j, b, c, Silent)
    requires c.cps == if m.JUnassigned? then m.cps else s.copy(b, j).cps
    ensures ChannelsFit(net, s', j, tok) && Carried(net, s', j, tok) && StubsShow(net, s', j, tok)
    ensures MsgFits(net, j, tok, a, b, s.read(a, b), m)
  {
    assert MsgFits(net, j, tok, a, b, s.read(a, b), m);
    ChannelsKept(net, s, s', j, b, c, Silent, tok, tok);
    CpsRead(net, s, s', a, b, m, j, c, Silent, tok);
    CpsKept(net, s, s', j, b, c, Silent, tok);
  }

  /** A proposal moves the token when it is free ... */
  lemma ProposeGranted(net: Net, s: State, a: Host, b: Host, j: Job, p: Slot)
    requires JobInv(net, s, j, Free) && Reads(s, a, b, Propose(j, p))
    ensures JobInv(net, RemPropose(net, Pop(s, a, b), b, a, j, p), j, Granted(a, p, |s.sent(net.owner(j), a)|))
  {
    assert MsgFits(net, j, Free, a, b, s.read(a, b), Propose(j, p));
    var s' := RemPropose(net, Pop(s, a, b), b, a, j, p);
    var c := s'.copy(b, j);
    var out := To(a, PropOk(j, p));
    var tok' := Granted(a, p, |s.sent(b, a)|);
    assert Effect(s, s', j, b, c, out);
    ChannelsKept(net, s, s', j, b, c, out, Free, tok');
    CpsKept(net, s, s', j, b, c, out, tok');
    Rebook(net, s, s', j, b, c, out, Free, tok');
  }

  lemma RefusalFits(net: Net, s: State, a: Host, b: Host, j: Job, p: Slot, tok: Token)
    requires ChannelsFit(net, s, j, tok) && OwnerFits(net, s, j, tok) && Reads(s, a, b, Propose(j, p)) && !tok.Free?
    ensures b == net.owner(j)
    ensures ChannelsFit(net, RemPropose(net, Pop(s, a, b), b, a, j, p), j, tok)
  {
    assert MsgFits(net, j, tok, a, b, s.read(a, b), Propose(j, p));
    var s' := RemPropose(net, Pop(s, a, b), b, a, j, p);
    assert Effect(s, s', j, b, s'.copy(b, j), To(a, PropNok(j, p)));
    ChannelsKept(net, s, s', j, b, s'.copy(b, j), To(a, PropNok(j, p)), tok, tok);
  }

  /** ... and is turned down when it is not. */
  lemma ProposeRefused(net: Net, s: State, a: Host, b: Host, j: Job, p: Slot, tok: Token)
    requires JobInv(net, s, j, tok) && Reads(s, a, b, Propose(j, p)) && !tok.Free?
    ensures JobInv(net, RemPropose(net, Pop(s, a, b), b, a, j, p), j, tok)
  {
    hide MsgFits;
    var s' := RemPropose(net, Pop(s, a, b), b, a, j, p);
    var c := s'.copy(b, j);
    var out := To(a, PropNok(j, p));
    RefusalFits(net, s, a, b, j, p, tok);
    assert Effect(s, s', j, b, c, out);
    CpsKept(net, s, s', j, b, c, out, tok);
    Rebook(net, s, s', j, b, c, out, tok, tok);
  }

  /** Does host b still want the grant that it reads? */
  predicate Wanted(s: State, b: Host, j: Job, p: Slot) {
    && s.ptr(b, p).state == Waiting && s.ptr(b, p).select && s.ptr(b, p).proposed
    && s.copy(b, j).proposed
  }

  /** A grant that is wanted: the copy is up to date and has something to print. */
  lemma GrantIsCurrent(net: Net, s: State, a: Host, b: Host, j: Job, p: Slot, tok: Token)
    requires JobInv(net, s, j, tok) && Reads(s, a, b, PropOk(j, p))
    ensures a == net.owner(j) && b != a && tok == Granted(b, p, s.read(a, b))
    ensures s.copy(b, j).cps == s.copy(a, j).cps
    ensures s.copy(b, j).proposed ==> s.copy(b, j).cps >= 1
  {
    assert MsgFits(net, j, tok, a, b, s.read(a, b), PropOk(j, p));
    var q, r := s.sent(a, b), s.read(a, b);
    forall k | r <= k < |q|
      ensures !(q[k].JUnassigned? && q[k].job == j)
    {
      if q[k].job == j {
        assert MsgFits(net, j, tok, a, b, k, q[k]);
      }
    }
    CpsAfterNone(q, r, j, s.copy(b, j).cps);
  }

  lemma OkFits(net: Net, s: State, a: Host, b: Host, j: Job, p: Slot, tok: Token)
    requires ChannelsFit(net, s, j, tok) && Reads(s, a, b, PropOk(j, p)) && Wanted(s, b, j, p)
    requires tok == Granted(b, p, s.read(a, b)) && a == net.owner(j) && b != a
    ensures ChannelsFit(net, ConfirmPrint(net, Pop(s, a, b), b, a, j, p, true), j, Printing(b, p))
  {
    var s' := ConfirmPrint(net, Pop(s, a, b), b, a, j, p, true);
    assert Effect(s, s', j, b, s'.copy(b, j), All(Assign(j, p)));
    ChannelsKept(net, s, s', j, b, s'.copy(b, j), All(Assign(j, p)), tok, Printing(b, p));
  }

  lemma OkWanted(net: Net, s: State, a: Host, b: Host, j: Job, p: Slot, tok: Token)
    requires PtrInv(s) && JobInv(net, s, j, tok) && Reads(s, a, b, PropOk(j, p))
    requires Wanted(s, b, j, p)
    ensures JobInv(net, ConfirmPrint(net, Pop(s, a, b), b, a, j, p, true), j, Printing(b, p))
  {
    hide MsgFits;
    GrantIsCurrent(net, s, a, b, j, p, tok);
    var s' := ConfirmPrint(net, Pop(s, a, b), b, a, j, p, true);
    var c := s'.copy(b, j);
    var out := All(Assign(j, p));
    OkFits(net, s, a, b, j, p, tok);
    assert Effect(s, s', j, b, c, out);
    CpsKept(net, s, s', j, b, c, out, Printing(b, p));
    Rebook(net, s, s', j, b, c, out, tok, Printing(b, p));
  }

  lemma OkUnwanted(net: Net, s: State, a: Host, b: Host, j: Job, p: Slot, tok: Token)
    requires PtrInv(s) && JobInv(net, s, j, tok) && Reads(s, a, b, PropOk(j, p))
    requires !Wanted(s, b, j, p)
    ensures JobInv(net, ConfirmPrint(net, Pop(s, a, b), b, a, j, p, true), j, Stranded(b))
  {
    GrantIsCurrent(net, s, a, b, j, p, tok);
    var s' := ConfirmPrint(net, Pop(s, a, b), b, a, j, p, true);
    var c := s'.copy(b, j);
    assert Effect(s, s', j, b, c, Silent);
    ChannelsKept(net, s, s', j, b, c, Silent, tok, Stranded(b));
    CpsKept(net, s, s', j, b, c, Silent, Stranded(b));
    Rebook(net, s, s', j, b, c, Silent, tok, Stranded(b));
  }

  /** What a host that has read a notice about job j has done: changed its own copy at most. */
  ghost predicate Noticed(s: State, s': State, a: Host, b: Host, j: Job) {
    && ReadOne(s, s', a, b) && Effect(s, s', j, b, s'.copy(b, j), Silent)
    && (forall h, p :: Prints(s', h, p, j) <==> Prints(s, h, p, j))
    && s'.printed(j) == s.printed(j) && s'.forgone(j) == s.forgone(j)
  }

  /** Such a host keeps the invariant if its copy still fits the token. */
  lemma NoticeKeeps(net: Net, s: State, s': State, a: Host, b: Host, m: Msg, j: Job, tok: Token)
    requires JobInv(net, s, j, tok) && Reads(s, a, b, m) && m.job == j && !m.PropOk? && !m.JUnassign?
    requires Noticed(s, s', a, b, j)
    requires s'.copy(b, j).cps == if m.JUnassigned? then m.cps else s.copy(b, j).cps
    requires if b == net.owner(j) then OwnerCopyFits(b, tok, s'.copy(b, j)) else StubCopyFits(tok, b, s'.copy(b, j))
    ensures JobInv(net, s', j, tok)
  {
    hide ChannelsFit, Carried, StubsShow;
    ReadKeeps(net, s, s', a, b, m, j, s'.copy(b, j), tok);
    assert !Lent(tok, b) || !m.JUnassigned?;
    Rebook(net, s, s', j, b, s'.copy(b, j), Silent, tok, tok);
  }

  /** What an unread message says about the token, and about the copy of the host that reads it */
  lemma MsgTold(net: Net, s: State, a: Host, b: Host, m: Msg, j: Job, tok: Token)
    requires JobInv(net, s, j, tok) && Reads(s, a, b, m) && m.job == j
    ensures MsgFits(net, j, tok, a, b, s.read(a, b), m)
    ensures if b == net.owner(j) then OwnerCopyFits(b, tok, s.copy(b, j)) else StubCopyFits(tok, b, s.copy(b, j))
  {
  }

  lemma NokKeeps(net: Net, s: State, a: Host, b: Host, j: Job, p: Slot, tok: Token)
    requires PtrInv(s) && JobInv(net, s, j, tok) && Reads(s, a, b, PropNok(j, p))
    ensures JobInv(net, ConfirmPrint(net, Pop(s, a, b), b, a, j, p, false), j, tok)
  {
    hide ChannelsFit, Carried, OwnerFits, StubsFit, CpsFit, PrintersFit;
    var s' := ConfirmPrint(net, Pop(s, a, b), b, a, j, p, false);
    MsgTold(net, s, a, b, PropNok(j, p), j, tok);
    assert Noticed(s, s', a, b, j);
    NoticeKeeps(net, s, s', a, b, PropNok(j, p), j, tok);
  }

  lemma AssignKeeps(net: Net, s: State, a: Host, b: Host, j: Job, p: Slot, tok: Token)
    requires JobInv(net, s, j, tok) && Reads(s, a, b, Assign(j, p))
    ensures JobInv(net, JpAssign(Pop(s, a, b), b, a, j, p), j, tok)
  {
    hide ChannelsFit, Carried, OwnerFits, StubsFit, CpsFit, PrintersFit;
    var s' := JpAssign(Pop(s, a, b), b, a, j, p);
    MsgTold(net, s, a, b, Assign(j, p), j, tok);
    assert Noticed(s, s', a, b, j);
    NoticeKeeps(net, s, s', a, b, Assign(j, p), j, tok);
  }

  lemma LocAssignKeeps(net: Net, s: State, a: Host, b: Host, j: Job, tok: Token)
    requires JobInv(net, s, j, tok) && Reads(s, a, b, LocAssign(j))
    ensures JobInv(net, LocpAssign(Pop(s, a, b), b, j), j, tok)
  {
    hide ChannelsFit, Carried, OwnerFits, StubsFit, CpsFit, PrintersFit;
    var s' := LocpAssign(Pop(s, a, b), b, j);
    MsgTold(net, s, a, b, LocAssign(j), j, tok);
    assert Noticed(s, s', a, b, j);
    NoticeKeeps(net, s, s', a, b, LocAssign(j), j, tok);
  }

  lemma JUnassignedKeeps(net: Net, s: State, a: Host, b: Host, j: Job, cps: Byte, tok: Token)
    requires JobInv(net, s, j, tok) && Reads(s, a, b, JUnassigned(j, cps))
    ensures JobInv(net, UnassignRemJob(Pop(s, a, b), b, j, cps), j, tok)
  {
    hide ChannelsFit, Carried, OwnerFits, StubsFit, CpsFit, PrintersFit;
    var s' := UnassignRemJob(Pop(s, a, b), b, j, cps);
    MsgTold(net, s, a, b, JUnassigned(j, cps), j, tok);
    assert Noticed(s, s', a, b, j);
    NoticeKeeps(net, s, s', a, b, JUnassigned(j, cps), j, tok);
  }

  lemma ReturnFits(net: Net, s: State, a: Host, b: Host, j: Job, cps: Byte, tok: Token)
    requires ChannelsFit(net, s, j, tok) && Reads(s, a, b, JUnassign(j, cps))
    ensures b == net.owner(j) && tok == Returning(a, s.read(a, b), cps)
    ensures ChannelsFit(net, UnassignJob(Pop(s, a, b), b, j, cps), j, Free)
  {
    assert MsgFits(net, j, tok, a, b, s.read(a, b), JUnassign(j, cps));
    var s' := UnassignJob(Pop(s, a, b), b, j, cps);
    assert Effect(s, s', j, b, s'.copy(b, j), All(JUnassigned(j, cps)));
    ChannelsKept(net, s, s', j, b, s'.copy(b, j), All(JUnassigned(j, cps)), tok, Free);
  }

  /** The job comes home. */
  lemma JUnassignKeeps(net: Net, s: State, a: Host, b: Host, j: Job, cps: Byte, tok: Token)
    requires JobInv(net, s, j, tok) && Reads(s, a, b, JUnassign(j, cps))
    ensures JobInv(net, UnassignJob(Pop(s, a, b), b, j, cps), j, Free)
  {
    hide MsgFits, CpsAfter;
    var s' := UnassignJob(Pop(s, a, b), b, j, cps);
    var c := s'.copy(b, j);
    ReturnFits(net, s, a, b, j, cps, tok);
    assert Effect(s, s', j, b, c, All(JUnassigned(j, cps)));
    CpsReleased(net, s, s', j, c, Free);
  }

  // ----- Every step -----

  /** The job a step is about, if any */
  function JobOf(s: State, step: Step): Option<Job> {
    match step
    case Select(_, _, j) => Some(j)
    case Deliver(a, b) => if 0 <= s.read(a, b) < |s.sent(a, b)| then Some(s.sent(a, b)[s.read(a, b)].job) else None
    case Report(h, p, _) => s.ptr(h, p).jslot
    case Finish(h, p) => s.ptr(h, p).jslot
    case Status(_, _, _) => None
  }

  ghost predicate ReadsFit(s: State) {
    forall a, b :: 0 <= s.read(a, b) <= |s.sent(a, b)|
  }

  /** A handler that kept its copy of j, its printers' hold on j, and sent nothing about j */
  lemma SameFromEffect(s: State, s': State, j: Job, h: Host, out: Out)
    requires ReadsFit(s) && Effect(s, s', j, h, s.copy(h, j), out)
    requires !out.Silent? ==> out.m.job != j
    requires forall a, b :: s'.read(a, b) == s.read(a, b) ||
               (s'.read(a, b) == s.read(a, b) + 1 <= |s.sent(a, b)| && s.sent(a, b)[s.read(a, b)].job != j)
    requires forall h, p :: Prints(s', h, p, j) <==> Prints(s, h, p, j)
    requires s'.printed(j) == s.printed(j) && s'.forgone(j) == s.forgone(j)
    ensures SameFor(s, s', j)
  {
  }

  lemma OtherJobConfirm(net: Net, s: State, a: Host, b: Host, m: Msg, p: Slot, ok: bool, j: Job)
    requires PtrInv(s) && ReadsFit(s) && Reads(s, a, b, m) && m.job != j
    ensures SameFor(s, ConfirmPrint(net, Pop(s, a, b), b, a, m.job, p, ok), j)
  {
    var s' := ConfirmPrint(net, Pop(s, a, b), b, a, m.job, p, ok);
    var out := if ok && Wanted(s, b, m.job, p) && a == net.owner(m.job) then All(Assign(m.job, p)) else Silent;
    SameFromEffect(s, s', j, b, out);
  }

  lemma OtherJobPropose(net: Net, s: State, a: Host, b: Host, m: Msg, p: Slot, j: Job)
    requires ReadsFit(s) && Reads(s, a, b, m) && m.job != j
    ensures SameFor(s, RemPropose(net, Pop(s, a, b), b, a, m.job, p), j)
  {
    var s' := RemPropose(net, Pop(s, a, b), b, a, m.job, p);
    var out := if b != net.owner(m.job) then Silent
               else To(a, if s.copy(b, m.job).assign then PropNok(m.job, p) else PropOk(m.job, p));
    SameFromEffect(s, s', j, b, out);
  }

  lemma OtherJobNotice(net: Net, s: State, a: Host, b: Host, m: Msg, j: Job)
    requires ReadsFit(s) && Reads(s, a, b, m) && m.job != j
    requires !m.Propose? && !m.PropOk? && !m.PropNok?
    ensures SameFor(s, Receive(net, Pop(s, a, b), a, b, m), j)
  {
    var s' := Receive(net, Pop(s, a, b), a, b, m);
    SameFromEffect(s, s', j, b, if m.JUnassign? then All(JUnassigned(m.job, m.cps)) else Silent);
  }

  lemma OtherJobSelect(net: Net, s: State, h: Host, p: Slot, k: Job, j: Job)
    requires PtrInv(s) && ReadsFit(s) && MaySelect(net, s, h, p, k) && k != j
    ensures SameFor(s, DoAssign(net, s, h, p, k), j)
  {
    var out := if h != net.owner(k) then To(net.owner(k), Propose(k, p))
               else All(if net.localOnly(h, p) then LocAssign(k) else Assign(k, p));
    SameFromEffect(s, DoAssign(net, s, h, p, k), j, h, out);
  }

  /** What unassign sends */
  function Released(net: Net, h: Host, k: Job, left: Byte): Out {
    if h != net.owner(k) then To(net.owner(k), JUnassign(k, left)) else All(JUnassigned(k, left))
  }

  lemma OtherJobReport(net: Net, s: State, h: Host, p: Slot, r: Outcome, j: Job)
    requires ReadsFit(s) && s.ptr(h, p).jslot != Some(j)
    ensures SameFor(s, PrDone(net, s, h, p, r), j)
  {
    var out := match s.ptr(h, p).jslot
               case None => Silent
               case Some(k) => Released(net, h, k, CopiesAfter(s.copy(h, k).cps, r));
    SameFromEffect(s, PrDone(net, s, h, p, r), j, h, out);
  }

  lemma OtherJobFinish(net: Net, s: State, h: Host, p: Slot, j: Job)
    requires ReadsFit(s) && s.ptr(h, p).jslot != Some(j)
    ensures SameFor(s, PrdFin(net, s, h, p), j)
  {
    var out := match s.ptr(h, p).jslot
               case None => Silent
               case Some(k) => Released(net, h, k, s.copy(h, k).cps);
    SameFromEffect(s, PrdFin(net, s, h, p), j, h, out);
  }

  lemma OtherJobStep(net: Net, s: State, step: Step, j: Job)
    requires PtrInv(s) && Enabled(net, s, step) && JobOf(s, step) != Some(j)
    requires ReadsFit(s)
    ensures SameFor(s, Next(net, s, step), j)
  {
    match step
    case Deliver(a, b) =>
      var m := s.sent(a, b)[s.read(a, b)];
      match m {
        case Propose(_, p) => OtherJobPropose(net, s, a, b, m, p, j);
        case PropOk(_, p) => OtherJobConfirm(net, s, a, b, m, p, true, j);
        case PropNok(_, p) => OtherJobConfirm(net, s, a, b, m, p, false, j);
        case _ => OtherJobNotice(net, s, a, b, m, j);
      }
    case Select(h, p, k) => OtherJobSelect(net, s, h, p, k, j);
    case Report(h, p, r) => OtherJobReport(net, s, h, p, r, j);
    case Finish(h, p) => OtherJobFinish(net, s, h, p, j);
    case Status(h, p, t) =>
  }

  /** Where the token of job j is after host b has read m from host a */
  function TokenRead(net: Net, s: State, a: Host, b: Host, m: Msg, tok: Token): Token {
    match m
    case Propose(j, p) => if tok.Free? then Granted(a, p, |s.sent(net.owner(j), a)|) else tok
    case PropOk(j, p) => if Wanted(s, b, j, p) then Printing(b, p) else Stranded(b)
    case JUnassign(_, _) => Free
    case _ => tok
  }

  /** ... after a printer of host h has given the job up */
  function TokenGivenBack(net: Net, s: State, h: Host, j: Job, left: Byte): Token {
    if h == net.owner(j) then Free else Returning(h, |s.sent(h, net.owner(j))|, left)
  }

  /** ... after any step */
  function TokenAfter(net: Net, s: State, step: Step, j: Job, tok: Token): Token {
    if JobOf(s, step) != Some(j) then tok
    else match step
      case Select(h, p, _) => if h == net.owner(j) then Printing(h, p) else tok
      case Deliver(a, b) => TokenRead(net, s, a, b, s.sent(a, b)[s.read(a, b)], tok)
      case Report(h, _, r) => TokenGivenBack(net, s, h, j, CopiesAfter(s.copy(h, j).cps, r))
      case Finish(h, _) => TokenGivenBack(net, s, h, j, s.copy(h, j).cps)
      case Status(_, _, _) => tok
  }

  lemma DeliverKeeps(net: Net, s: State, a: Host, b: Host, m: Msg, tok: Token)
    requires PtrInv(s) && JobInv(net, s, m.job, tok) && Reads(s, a, b, m)
    ensures JobInv(net, Receive(net, Pop(s, a, b), a, b, m), m.job, TokenRead(net, s, a, b, m, tok))
  {
    hide JobInv, RemPropose, ConfirmPrint, JpAssign, LocpAssign, UnassignJob, UnassignRemJob, Pop;
    match m
    case Propose(j, p) =>
      if tok.Free? {
        ProposeGranted(net, s, a, b, j, p);
      } else {
        ProposeRefused(net, s, a, b, j, p, tok);
      }
    case PropOk(j, p) =>
      if Wanted(s, b, j, p) {
        OkWanted(net, s, a, b, j, p, tok);
      } else {
        OkUnwanted(net, s, a, b, j, p, tok);
      }
    case PropNok(j, p) => NokKeeps(net, s, a, b, j, p, tok);
    case Assign(j, p) => AssignKeeps(net, s, a, b, j, p, tok);
    case LocAssign(j) => LocAssignKeeps(net, s, a, b, j, tok);
    case JUnassign(j, cps) => JUnassignKeeps(net, s, a, b, j, cps, tok);
    case JUnassigned(j, cps) => JUnassignedKeeps(net, s, a, b, j, cps, tok);
  }

  lemma StopKeeps(net: Net, s: State, s1: State, h: Host, p: Slot, j: Job, left: Byte)
    requires JobInv(net, s, j, Printing(h, p)) && Counted(s, s1, h, j, left)
    ensures JobInv(net, Unassign(net, s1, h, p, j), j, TokenGivenBack(net, s, h, j, left))
  {
    hide JobInv, Unassign, Counted;
    if h == net.owner(j) {
      UnassignLocal(net, s, s1, p, j, left);
    } else {
      UnassignRemote(net, s, s1, h, p, j, left);
    }
  }

  lemma ReportKeeps(net: Net, s: State, h: Host, p: Slot, r: Outcome, j: Job)
    requires JobInv(net, s, j, Printing(h, p)) && Prints(s, h, p, j)
    ensures JobInv(net, PrDone(net, s, h, p, r), j, TokenGivenBack(net, s, h, j, CopiesAfter(s.copy(h, j).cps, r)))
  {
    hide JobInv, Unassign;
    var c := s.copy(h, j);
    var left := CopiesAfter(c.cps, r);
    var made := if r.Done? then 1 else 0;
    var s1 := SetPtr(s, h, p, s.ptr(h, p).(select := false, proposed := false));
    var s2 := Tally(SetCopy(s1, h, j, c.(cps := left)), j, made, c.cps - left - made);
    StopKeeps(net, s, s2, h, p, j, left);
  }

  lemma FinishKeeps(net: Net, s: State, h: Host, p: Slot, j: Job)
    requires JobInv(net, s, j, Printing(h, p)) && Prints(s, h, p, j)
    ensures JobInv(net, PrdFin(net, s, h, p), j, TokenGivenBack(net, s, h, j, s.copy(h, j).cps))
  {
    hide JobInv, Unassign;
    var s1 := SetPtr(s, h, p, s.ptr(h, p).(select := false, proposed := false));
    StopKeeps(net, s, s1, h, p, j, s.copy(h, j).cps);
  }

  /** Each step takes the token of each job where TokenAfter says. */
  lemma StepKeeps(net: Net, s: State, step: Step, j: Job, tok: Token)
    requires PtrInv(s) && JobInv(net, s, j, tok) && Enabled(net, s, step)
    ensures JobInv(net, Next(net, s, step), j, TokenAfter(net, s, step, j, tok))
  {
    hide ChannelsFit, Carried, OwnerFits, StubsFit, CpsFit, PrDone, PrdFin, DoAssign, Receive;
    if JobOf(s, step) != Some(j) {
      JobReads(net, s, j, tok);
      OtherJobStep(net, s, step, j);
      Frame(net, s, Next(net, s, step), j, tok);
    } else {
      match step
      case Deliver(a, b) => DeliverKeeps(net, s, a, b, s.sent(a, b)[s.read(a, b)], tok);
      case Report(h, p, r) =>
        assert Prints(s, h, p, j);
        ReportKeeps(net, s, h, p, r, j);
      case Finish(h, p) =>
        assert Prints(s, h, p, j);
        FinishKeeps(net, s, h, p, j);
      case Select(h, p, _) =>
        if h == net.owner(j) {
          SelectLocal(net, s, p, j, tok);
        } else {
          SelectRemote(net, s, h, p, j, tok);
        }
    }
  }

  lemma JobReads(net: Net, s: State, j: Job, tok: Token)
    requires JobInv(net, s, j, tok)
    ensures ReadsFit(s)
  {
  }

  lemma PrintersKeep(net: Net, s: State, step: Step)
    requires PtrInv(s) && Enabled(net, s, step)
    ensures PtrInv(Next(net, s, step))
  {
  }

  lemma NextKeeps(net: Net, s: State, step: Step)
    requires Inv(net, s) && Enabled(net, s, step)
    ensures Inv(net, Next(net, s, step))
  {
    PrintersKeep(net, s, step);
    forall j
      ensures HasToken(net, Next(net, s, step), j)
    {
      assert HasToken(net, s, j);
      var tok :| JobInv(net, s, j, tok);
      StepKeeps(net, s, step, j, tok);
    }
  }
}
