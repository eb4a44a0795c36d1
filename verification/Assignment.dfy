/**
 The protocol by which the hosts of a spooler network agree who prints a job
 (src/sh_plist.c and src/sh_queue.c, with the message plumbing of src/sh_network.c).

 Each job belongs to one host, its owner; every other host holds a stub copy of it.  A host
 that wants to print a stub proposes itself to the owner and waits for an answer; a host
 that prints tells everybody, and the copies are released again through the owner.

 Every handler of the scheduler runs to completion before the next one, so a handler is one
 atomic step on the state of the whole network.  A message travels over the single
 connection between two hosts, which keeps the order of what is sent on it.
 */
module Assignment {
  import opened Common

  type Host = int
  type Job = int
  type Slot = int

  /** spp_state, as far as the protocol reads it: only SPP_WAIT is ever tested. */
  datatype PrinterState = Waiting | Running | Down

  /** A printer on the host that runs it: the bits SPP_SELECT and SPP_PROPOSED of spp_sflags,
      and spp_jslot, which names the job only while the printer really prints it. */
  datatype Printer = Printer(state: PrinterState, select: bool, proposed: bool, jslot: Option<Job>)

  /** spq_pslot: no printer (-1), the network id of a host the job was promised to, or a printer. */
  datatype Place = Nowhere | AtHost(host: Host) | AtPrinter(at: Host, slot: Slot)

  /** One host's copy of a job: SPQ_ASSIGN and SPQ_PROPOSED of spq_sflags, spq_cps and spq_pslot. */
  datatype Copy = Copy(assign: bool, proposed: bool, cps: Byte, pslot: Place)

  datatype Msg =
    | Propose(job: Job, slot: Slot)       // SO_PROPOSE, from the host that wants to print
    | PropOk(job: Job, slot: Slot)        // SO_PROP_OK, the owner's answer
    | PropNok(job: Job, slot: Slot)       // SO_PROP_NOK
    | Assign(job: Job, slot: Slot)        // SO_ASSIGN, broadcast by the host that prints
    | LocAssign(job: Job)                 // SO_LOCASSIGN, when its printer is private
    | JUnassign(job: Job, cps: Byte)      // SJ_JUNASSIGN, the printing host gives the job back
    | JUnassigned(job: Job, cps: Byte)    // SJ_JUNASSIGNED, the owner tells everybody

  /** The fixed facts: who owns a job, how many copies were asked for, and which printers
      are private to their host (SPP_LOCALONLY). */
  datatype Net = Net(owner: Job -> Host, original: Job -> Byte, localOnly: (Host, Slot) -> bool)

  /** A channel is everything ever sent on it, and how much of that has been read.  `printed`
      and `forgone` only observe: the copies printed so far, and those dropped unprinted. */
  datatype State = State(
    copy: (Host, Job) -> Copy,
    ptr: (Host, Slot) -> Printer,
    sent: (Host, Host) -> seq<Msg>,
    read: (Host, Host) -> int,
    printed: Job -> int,
    forgone: Job -> int)

  // ----- Elementary updates -----

  function SetCopy(s: State, h: Host, j: Job, c: Copy): State {
    s.(copy := (h', j') => if h' == h && j' == j then c else s.copy(h', j'))
  }

  function SetPtr(s: State, h: Host, p: Slot, q: Printer): State {
    s.(ptr := (h', p') => if h' == h && p' == p then q else s.ptr(h', p'))
  }

  /** job_message and job_sendupdate */
  function Send(s: State, a: Host, b: Host, m: Msg): State {
    s.(sent := (x, y) => if x == a && y == b then s.sent(x, y) + [m] else s.sent(x, y))
  }

  /** job_broadcast and ptr_assxmit */
  function Broadcast(s: State, a: Host, m: Msg): State {
    s.(sent := (x, y) => if x == a && y != a then s.sent(x, y) + [m] else s.sent(x, y))
  }

  function Tally(s: State, j: Job, made: int, lost: int): State {
    s.(printed := k => if k == j then s.printed(k) + made else s.printed(k),
       forgone := k => if k == j then s.forgone(k) + lost else s.forgone(k))
  }

  /** `spq_cps--` on an unsigned char */
  function Decrement(c: Byte): (r: Byte)
    ensures (r + 1) % 256 == c
  {
    if c == 0 then 255 else c - 1
  }

  // ----- Handlers of src/sh_plist.c -----

  /** startj */
  function StartJ(s: State, h: Host, p: Slot): State {
    SetPtr(s, h, p, s.ptr(h, p).(select := true, proposed := false))
  }

  /** ptr_unpropose */
  function Unpropose(s: State, h: Host, p: Slot): State {
    SetPtr(s, h, p, s.ptr(h, p).(select := false, proposed := false, jslot := None))
  }

  /** What selectj demands of a printer and a job before it calls assign; the remaining
      tests there (hold time, size, class, form type) only make it pick fewer pairs. */
  predicate MaySelect(net: Net, s: State, h: Host, p: Slot, j: Job) {
    && s.ptr(h, p).state == Waiting
    && !s.ptr(h, p).select
    && s.copy(h, j).cps != 0
    && !s.copy(h, j).assign
    && !(h != net.owner(j) && net.localOnly(h, p))
  }

  /** assign */
  function DoAssign(net: Net, s: State, h: Host, p: Slot, j: Job): State {
    var c := s.copy(h, j).(assign := true, pslot := AtPrinter(h, p));
    if h != net.owner(j) then
      var s1 := SetCopy(s, h, j, c.(proposed := true));
      var s2 := SetPtr(s1, h, p, s.ptr(h, p).(select := true, proposed := true));
      Send(s2, h, net.owner(j), Propose(j, p))
    else
      var s1 := SetCopy(s, h, j, c);
      var s2 := SetPtr(s1, h, p, s.ptr(h, p).(jslot := Some(j)));
      var s3 := Broadcast(s2, h, if net.localOnly(h, p) then LocAssign(j) else Assign(j, p));
      StartJ(s3, h, p)
  }

  /** rempropose; SO_PROP_DEL answers for deleted jobs, and here no job is deleted */
  function RemPropose(net: Net, s: State, o: Host, from: Host, j: Job, p: Slot): State {
    if o != net.owner(j) then s
    else if s.copy(o, j).assign then Send(s, o, from, PropNok(j, p))
    else
      var c := s.copy(o, j).(assign := true, proposed := true, pslot := AtHost(from));
      Send(SetCopy(s, o, j, c), o, from, PropOk(j, p))
  }

  /** confirm_print */
  function ConfirmPrint(net: Net, s: State, h: Host, from: Host, j: Job, p: Slot, ok: bool): State {
    var q := s.ptr(h, p);
    var c := s.copy(h, j);
    if q.state != Waiting then s
    else if !(q.select && q.proposed) then s
    else if from != net.owner(j) || !c.proposed then Unpropose(s, h, p)
    else if ok then
      var s1 := SetCopy(s, h, j, c.(proposed := false));
      var s2 := SetPtr(s1, h, p, q.(jslot := Some(j)));
      StartJ(Broadcast(s2, h, Assign(j, p)), h, p)
    else
      Unpropose(SetCopy(s, h, j, c.(assign := true, proposed := false, pslot := Nowhere)), h, p)
  }

  /** The spr_act and spr_flags of what a printer process reports: SPD_DONE with or without
      SPF_NOCOPIES, SPD_DAB, SPD_DERR. */
  datatype Outcome = Done(oneOnly: bool) | Aborted | Errors

  /** unassign */
  function Unassign(net: Net, s: State, h: Host, p: Slot, j: Job): State {
    var s1 := SetPtr(s, h, p, s.ptr(h, p).(jslot := None));
    var c := s.copy(h, j);
    if h != net.owner(j) then Send(s1, h, net.owner(j), JUnassign(j, c.cps))
    else Broadcast(SetCopy(s1, h, j, c.(assign := false, pslot := Nowhere)), h, JUnassigned(j, c.cps))
  }

  /** The copies left after a report */
  function CopiesAfter(c: Byte, r: Outcome): Byte {
    match r
    case Aborted => c
    case Errors => 0
    case Done(oneOnly) => if oneOnly then 0 else Decrement(c)
  }

  /** prdone, for jobs that are retained when their last copy is printed */
  function PrDone(net: Net, s: State, h: Host, p: Slot, r: Outcome): State {
    var q := s.ptr(h, p).(select := false, proposed := false);
    var s1 := SetPtr(s, h, p, q);
    match q.jslot
    case None => s1
    case Some(j) =>
      var c := s.copy(h, j);
      var left := CopiesAfter(c.cps, r);
      var made := if r.Done? then 1 else 0;
      Unassign(net, Tally(SetCopy(s1, h, j, c.(cps := left)), j, made, c.cps - left - made), h, p, j)
  }

  /** prdfin */
  function PrdFin(net: Net, s: State, h: Host, p: Slot): State {
    var q := s.ptr(h, p).(select := false, proposed := false);
    var s1 := SetPtr(s, h, p, q);
    match q.jslot
    case None => s1
    case Some(j) => Unassign(net, s1, h, p, j)
  }

  // ----- Handlers of src/sh_queue.c -----

  /** jpassign */
  function JpAssign(s: State, h: Host, from: Host, j: Job, p: Slot): State {
    SetCopy(s, h, j, s.copy(h, j).(assign := true, proposed := false, pslot := AtPrinter(from, p)))
  }

  /** locpassign */
  function LocpAssign(s: State, h: Host, j: Job): State {
    SetCopy(s, h, j, s.copy(h, j).(assign := true, pslot := Nowhere))
  }

  /** unassign_job */
  function UnassignJob(s: State, h: Host, j: Job, cps: Byte): State {
    Broadcast(SetCopy(s, h, j, Copy(false, false, cps, Nowhere)), h, JUnassigned(j, cps))
  }

  /** unassign_remjob */
  function UnassignRemJob(s: State, h: Host, j: Job, cps: Byte): State {
    SetCopy(s, h, j, Copy(false, false, cps, Nowhere))
  }

  /** What remote_recv makes of a message from host `a` that host `b` has read */
  function Receive(net: Net, s: State, a: Host, b: Host, m: Msg): State {
    match m
    case Propose(j, p) => RemPropose(net, s, b, a, j, p)
    case PropOk(j, p) => ConfirmPrint(net, s, b, a, j, p, true)
    case PropNok(j, p) => ConfirmPrint(net, s, b, a, j, p, false)
    case Assign(j, p) => JpAssign(s, b, a, j, p)
    case LocAssign(j) => LocpAssign(s, b, j)
    case JUnassign(j, cps) => UnassignJob(s, b, j, cps)
    case JUnassigned(j, cps) => UnassignRemJob(s, b, j, cps)
  }

  // ----- Steps and runs -----

  datatype Step =
    | Select(h: Host, p: Slot, j: Job)                 // selectj finds a job for a printer
    | Deliver(a: Host, b: Host)                        // b reads its next message from a
    | Report(h: Host, p: Slot, r: Outcome)             // a printer process reports a result
    | Finish(h: Host, p: Slot)                         // a printer process ends
    | Status(h: Host, p: Slot, state: PrinterState)    // a printer process sets its state

  predicate Enabled(net: Net, s: State, step: Step) {
    match step
    case Select(h, p, j) => MaySelect(net, s, h, p, j)
    case Deliver(a, b) => 0 <= s.read(a, b) < |s.sent(a, b)|
    case _ => true
  }

  function Pop(s: State, a: Host, b: Host): State {
    s.(read := (x, y) => if x == a && y == b then s.read(x, y) + 1 else s.read(x, y))
  }

  function Next(net: Net, s: State, step: Step): State
    requires Enabled(net, s, step)
  {
    match step
    case Select(h, p, j) => DoAssign(net, s, h, p, j)
    case Deliver(a, b) => Receive(net, Pop(s, a, b), a, b, s.sent(a, b)[s.read(a, b)])
    case Report(h, p, r) => PrDone(net, s, h, p, r)
    case Finish(h, p) => PrdFin(net, s, h, p)
    case Status(h, p, state) => SetPtr(s, h, p, s.ptr(h, p).(state := state))
  }

  /** Nothing assigned, nothing sent, every copy of a job with the copies asked for. */
  ghost predicate Initial(net: Net, s: State) {
    && (forall h, j :: s.copy(h, j) == Copy(false, false, net.original(j), Nowhere))
    && (forall h, p :: !s.ptr(h, p).select && !s.ptr(h, p).proposed && s.ptr(h, p).jslot == None)
    && (forall a, b :: s.sent(a, b) == [] && s.read(a, b) == 0)
    && (forall j :: s.printed(j) == 0 && s.forgone(j) == 0)
  }

  /** Every step of `steps` can be taken in turn from `s`, and the last leads to `Final(net, s, steps)`. */
  ghost predicate Run(net: Net, s: State, steps: seq<Step>)
    decreases |steps|
  {
    steps == [] ||
    (Enabled(net, s, steps[0]) && Run(net, Next(net, s, steps[0]), steps[1..]))
  }

  ghost function Final(net: Net, s: State, steps: seq<Step>): State
    requires Run(net, s, steps)
    decreases |steps|
  {
    if steps == [] then s else Final(net, Next(net, s, steps[0]), steps[1..])
  }

  /** Printer p of host h prints job j. */
  ghost predicate Prints(s: State, h: Host, p: Slot, j: Job) {
    s.ptr(h, p).jslot == Some(j)
  }
}
