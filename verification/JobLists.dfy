/** Jobs, their places in the queue, and what the operations of the job segment do to them. */
module JobLists {
  import opened Common
  import opened Chains
  import opened Segments

  datatype SFlag = ASSIGN | WARNED | PROPOSED | ABORTJ
  datatype DFlag = PQ | PRINTED | STARTED | PAGEFILE | ERRLIMIT | PGLIMIT

  /** spq_pslot: none (-1), a host that the job was promised to, or a printer slot */
  datatype Place = NoPlace | HostPlace(netid: int) | PtrPlace(slot: int)

  /** The fields of a job that the table operations look at */
  datatype Job = Job(jobno: int, netid: int, rslot: int, time: int, pri: Byte, wpri: int,
                     sflags: set<SFlag>, dflags: set<DFlag>, localOnly: bool, pslot: Place)

  const FREE_JOB := Job(0, 0, 0, 0, 0, 0, {}, {}, false, NoPlace)

  /** round_short */
  function RoundShort(flt: real): int {
    if flt < 0.0 then
      if flt - 0.5 < -32768.0 then -32768 else -((0.5 - flt).Floor)
    else
      if flt + 0.5 > 32767.0 then 32767 else (flt + 0.5).Floor
  }

  /** Where a job with working priority f goes among the jobs before it: behind the last one
      whose priority is no lower, f dwindling with each one passed (for a job of another host
      only with those submitted earlier). */
  function PlaceUp(jobs: seq<Job>, f: real, foreign: bool, time: int, decrement: real): (r: (nat, real))
    ensures r.0 <= |jobs|
  {
    if jobs == [] then (0, f)
    else
      var last := jobs[|jobs| - 1];
      if last.pri as real >= f then (|jobs|, f)
      else
        var f' := if foreign && last.time >= time then f else f - decrement;
        PlaceUp(jobs[..|jobs| - 1], f', foreign, time, decrement)
  }

  /** How many of the jobs behind it a job passes on its way down */
  function PlaceDown(jobs: seq<Job>, f: real, decrement: real): (r: (nat, real))
    ensures r.0 <= |jobs|
  {
    if jobs == [] || jobs[0].pri as real <= f then (0, f)
    else var (n, g) := PlaceDown(jobs[1..], f + decrement, decrement); (n + 1, g)
  }

  /** The jobs in the slots qs */
  function JobsAt(jobs: seq<Job>, qs: seq<int>): (s: seq<Job>)
    ensures |s| == |qs|
  {
    seq(|qs|, k requires 0 <= k < |qs| => if 0 <= qs[k] < |jobs| then jobs[qs[k]] else FREE_JOB)
  }

  /** The jobs in the slots qs have the keys that they had. */
  ghost predicate SameKeys(qs: seq<int>, jobs: seq<Job>, jobs': seq<Job>) {
    |jobs| <= |jobs'| &&
    forall x :: x in qs && 0 <= x < |jobs| ==> SameKey(jobs[x], jobs'[x])
  }

  predicate SameKey(j: Job, j': Job) {
    j'.jobno == j.jobno && j'.netid == j.netid && j'.rslot == j.rslot
  }

  predicate HasId(j: Job, netid: int, slot: int) {
    j.netid == netid && j.rslot == slot
  }

  lemma Leaving(q: seq<int>, k: nat, jobs: seq<Job>, jobs': seq<Job>)
    requires Distinct(q) && k < |q| && 0 <= q[k] < |jobs|
    requires |jobs'| == |jobs| && forall x :: 0 <= x < |jobs| && x != q[k] ==> jobs'[x] == jobs[x]
    ensures Leaves(q, Without(q, k), q[k]) && SameKeys(Without(q, k), jobs, jobs') && q[k] in q
  {
    WithoutDistinct(q, k);
  }

  /** One turn of the loop that looks for a higher place */
  lemma PlaceUpAt(jobs: seq<Job>, q: seq<int>, m: nat, f: real, foreign: bool, time: int, decrement: real)
    requires m <= |q| && (m > 0 ==> 0 <= q[m - 1] < |jobs|)
    ensures PlaceUp(JobsAt(jobs, q[..m]), f, foreign, time, decrement) ==
            if m == 0 || jobs[q[m - 1]].pri as real >= f then (m, f)
            else
              var f' := if foreign && jobs[q[m - 1]].time >= time then f else f - decrement;
              PlaceUp(JobsAt(jobs, q[..m - 1]), f', foreign, time, decrement)
  {
    if m > 0 {
      assert JobsAt(jobs, q[..m])[..m - 1] == JobsAt(jobs, q[..m - 1]);
    }
  }

  ghost predicate SameJobs(q: seq<int>, jobs: seq<Job>, jobs': seq<Job>) {
    |jobs| == |jobs'| && forall x :: x in q && 0 <= x < |jobs| ==> jobs'[x] == jobs[x]
  }

  lemma Joining(q: seq<int>, k: nat, i: int, jobs: seq<Job>, jobs': seq<Job>)
    requires Distinct(q) && k <= |q| && i !in q && 0 <= i < |jobs| == |jobs'|
    requires forall x :: 0 <= x < |jobs| && x != i ==> jobs'[x] == jobs[x]
    ensures Joins(q, Inserted(q, k, i), i) && SameJobs(q, jobs, jobs')
  {
    InsertedDistinct(q, k, i);
  }

  lemma JobsAtSame(jobs: seq<Job>, jobs': seq<Job>, q: seq<int>)
    requires SameJobs(q, jobs, jobs')
    ensures JobsAt(jobs, q) == JobsAt(jobs', q) && q[..|q|] == q
  {
  }

  /** jobs' differs from jobs in slot i only, where it has the key of job. */
  ghost predicate Fills(jobs: seq<Job>, jobs': seq<Job>, i: int, job: Job) {
    && |jobs'| == |jobs|
    && (forall x :: 0 <= x < |jobs| && x != i ==> jobs'[x] == jobs[x])
    && 0 <= i < |jobs|
    && SameKey(job, jobs'[i])
  }

  /** The job as enqueue stores it */
  function Stored(inj: Job, netid: int, jind: int, networkOk: bool): Job {
    inj.(sflags := {}, dflags := inj.dflags * {PRINTED, PAGEFILE}, localOnly := inj.localOnly || !networkOk,
         pslot := NoPlace, netid := netid, rslot := if netid == 0 then jind else inj.rslot)
  }

  lemma GrownSame(n: nat, jobs: seq<Job>, jobs': seq<Job>, q: seq<int>, free: seq<int>)
    requires Slots(n, q, free) && n == |jobs| && jobs <= jobs'
    ensures SameStart(q, jobs, jobs') && JobsAt(jobs', q) == JobsAt(jobs, q)
  {
  }

  /** One turn of the loop that looks for a lower place */
  lemma PlaceDownAt(jobs: seq<Job>, q: seq<int>, m: nat, f: real, decrement: real)
    requires m <= |q| && (m < |q| ==> 0 <= q[m] < |jobs|)
    ensures PlaceDown(JobsAt(jobs, q[m..]), f, decrement) ==
            if m == |q| || jobs[q[m]].pri as real <= f then (0, f)
            else Passing(1, PlaceDown(JobsAt(jobs, q[m + 1..]), f + decrement, decrement))
  {
    if m < |q| {
      assert JobsAt(jobs, q[m..])[1..] == JobsAt(jobs, q[m + 1..]);
    }
  }

  function Passing(n: nat, r: (nat, real)): (nat, real) {
    (n + r.0, r.1)
  }

  /** Where copy_major moves the job at place k when its priority becomes pri, and its new
      working priority */
  function NewPlace(jobs: seq<Job>, k: nat, pri: Byte, decrement: real): (r: (nat, real))
    requires k < |jobs|
    ensures r.0 < |jobs|
  {
    var f := (pri as int - jobs[k].pri as int + jobs[k].wpri) as real;
    if pri > jobs[k].pri then PlaceUp(jobs[..k], f, false, 0, decrement)
    else var (n, g) := PlaceDown(jobs[k + 1..], f, decrement); (k + n, g)
  }

  lemma JobsAround(jobs: seq<Job>, q: seq<int>, k: nat)
    requires k < |q| && 0 <= q[k] < |jobs|
    ensures JobsAt(jobs, q)[k] == jobs[q[k]]
    ensures JobsAt(jobs, q)[..k] == JobsAt(jobs, q[..k]) && JobsAt(jobs, q)[k + 1..] == JobsAt(jobs, q[k + 1..])
  {
  }

  /** A job of this host that was promised to host netid, or was being printed there, is free
      again.  Of its flags only SPQ_WARNED stays. */
  function Forgets(j: Job, netid: int, hosts: seq<Option<int>>): Job {
    if PROPOSED in j.sflags && j.pslot == HostPlace(netid) then
      j.(sflags := j.sflags * {WARNED}, pslot := NoPlace)
    else if j.pslot.PtrPlace? && 0 <= j.pslot.slot < |hosts| && hosts[j.pslot.slot] == Some(netid) then
      j.(sflags := j.sflags * {WARNED}, dflags := {}, pslot := NoPlace)
    else j
  }

  /** What becomes of the job in one slot */
  function Clears(j: Job, netid: int, hosts: seq<Option<int>>): Job {
    if j.netid == netid then j.(jobno := 0, netid := 0, pslot := NoPlace)
    else if j.netid == 0 then Forgets(j, netid, hosts)
    else j
  }

  function ClearsJob(netid: int, hosts: seq<Option<int>>): Job -> Job {
    j => Clears(j, netid, hosts)
  }

  /** The jobs that net_jclear takes off the queue */
  function JobOf(netid: int): Job -> bool {
    (j: Job) => j.netid == netid
  }
}
