/**
 The job segment (src/sh_queue.c): an array of slots that holds the job queue, a chain of free
 slots, and two families of hash chains, by job number and by owner and slot.  The fields of a
 slot are kept in parallel arrays.
 */
module JobTable {
  import opened Common
  import opened Chains
  import opened Segments
  import opened JobLists

  class JobSeg {
    const jnoHash: int -> nat           // jno_jhash
    const jidHash: (int, int) -> nat    // jid_hash
    const networkOk: bool
    const priDecrement: real

    var links: array<Link>              // q_nxt, q_prv
    var jnoLinks: array<Link>           // nxt_jno_hash, prv_jno_hash
    var jidLinks: array<Link>           // nxt_jid_hash, prv_jid_hash
    var jlist: array<Job>
    const hashpJno: array<int>
    const hashpJid: array<int>

    var freech: int
    var qHead: int
    var qTail: int
    var njobs: nat

    ghost var q: seq<int>
    ghost var free: seq<int>
    ghost var jnoChains: seq<seq<int>>
    ghost var jidChains: seq<seq<int>>

    /** A segment of maxjobs slots without a job, as after createjfile with an empty job file */
    constructor (jnoHash: int -> nat, jidHash: (int, int) -> nat, jnoMod: nat, jidMod: nat, networkOk: bool,
                 priDecrement: real, maxjobs: nat)
      requires (forall n :: jnoHash(n) < jnoMod) && (forall n, s :: jidHash(n, s) < jidMod) && maxjobs > 0
      ensures Valid() && q == [] && links.Length == maxjobs
      ensures this.networkOk == networkOk && this.priDecrement == priDecrement
      ensures fresh(links) && fresh(jnoLinks) && fresh(jidLinks) && fresh(jlist) && fresh(hashpJno) && fresh(hashpJid)
    {
      hide Chains.Hashed, Chains.Queue, Chains.FreeList, Slots, Extends;
      this.jnoHash, this.jidHash, this.networkOk, this.priDecrement := jnoHash, jidHash, networkOk, priDecrement;
      links, jnoLinks, jidLinks := new Link[maxjobs](_ => Link(END, END)), new Link[maxjobs](_ => Link(END, END)),
        new Link[maxjobs](_ => Link(END, END));
      jlist := new Job[maxjobs](_ => FREE_JOB);
      hashpJno, hashpJid := new int[jnoMod](_ => END), new int[jidMod](_ => END);
      freech, qHead, qTail, njobs := END, END, END, 0;
      q, jnoChains, jidChains := [], seq(jnoMod, _ => []), seq(jidMod, _ => []);
      free := Upto(0, maxjobs);
      new;
      FreeRest(0);
      EmptySegment(links[..]);
      NoneHashed(jnoLinks[..], hashpJno[..], jnoChains, JnoBucket(jlist[..]));
      NoneHashed(jidLinks[..], hashpJid[..], jidChains, JidBucket(jlist[..]));
    }

    ghost function JnoBucket(jobs: seq<Job>): int -> int {
      i => if 0 <= i < |jobs| then jnoHash(jobs[i].jobno) else -1
    }

    ghost function JidBucket(jobs: seq<Job>): int -> int {
      i => if 0 <= i < |jobs| then jidHash(jobs[i].netid, jobs[i].rslot) else -1
    }

    lemma SameBuckets(q: seq<int>, n: nat, jobs: seq<Job>, jobs': seq<Job>)
      requires (forall x :: x in q ==> 0 <= x < n) && |jobs| == n <= |jobs'|
      requires forall x :: x in q ==> 0 <= x < n && SameKey(jobs[x], jobs'[x])
      ensures forall x :: x in q ==> JnoBucket(jobs')(x) == JnoBucket(jobs)(x)
      ensures forall x :: x in q ==> JidBucket(jobs')(x) == JidBucket(jobs)(x)
    {
    }

    ghost predicate Shape()
      reads `links, `jnoLinks, `jidLinks, `jlist
    {
      && links.Length == jnoLinks.Length == jidLinks.Length == jlist.Length
      && links != jnoLinks && links != jidLinks && jnoLinks != jidLinks && hashpJno != hashpJid
      && (forall n :: jnoHash(n) < hashpJno.Length)
      && (forall n, s :: jidHash(n, s) < hashpJid.Length)
    }

    /** The queue and the free chain share the slots between them. */
    ghost predicate Queued()
      reads `links, `qHead, `qTail, `freech, `njobs, `q, `free, links
    {
      && Queue(links[..], qHead, qTail, q)
      && FreeList(links[..], freech, free)
      && Slots(links.Length, q, free)
      && njobs == |q|
    }

    /** Each of the slots qs is on the job number chain, and on the (netid, rslot) chain, of its job. */
    ghost predicate HashedJno(qs: seq<int>, jobs: seq<Job>)
      reads `jnoLinks, `jnoChains, jnoLinks, hashpJno
    {
      Hashed(jnoLinks[..], hashpJno[..], jnoChains, qs, JnoBucket(jobs))
    }

    ghost predicate HashedJid(qs: seq<int>, jobs: seq<Job>)
      reads `jidLinks, `jidChains, jidLinks, hashpJid
    {
      Hashed(jidLinks[..], hashpJid[..], jidChains, qs, JidBucket(jobs))
    }

    ghost predicate Valid()
      reads this, links, jnoLinks, jidLinks, jlist, hashpJno, hashpJid
    {
      Shape() && Queued() && HashedJno(q, jlist[..]) && HashedJid(q, jlist[..])
    }

    twostate predicate SameArrays()
      reads this
    {
      links == old(links) && jnoLinks == old(jnoLinks) && jidLinks == old(jidLinks) && jlist == old(jlist)
    }

    /** The assignments of takeoff_q */
    method CutOut(jind: int)
      requires 0 <= jind < links.Length && links[jind].nxt < links.Length && links[jind].prv < links.Length
      modifies this`qHead, this`qTail, links
      ensures links[..] == Cut(old(links[..]), jind)
      ensures qHead == if old(links[jind].prv) < 0 then old(links[jind].nxt) else old(qHead)
      ensures qTail == if old(links[jind].nxt) < 0 then old(links[jind].prv) else old(qTail)
    {
      var nxtind, prvind := links[jind].nxt, links[jind].prv;
      if nxtind < 0 {
        qTail := prvind;
      } else {
        links[nxtind] := links[nxtind].(prv := prvind);
      }
      if prvind < 0 {
        qHead := nxtind;
      } else {
        links[prvind] := links[prvind].(nxt := nxtind);
      }
    }

    /** takeoff_q */
    method TakeoffQ(jind: int, ghost k: nat)
      requires Queue(links[..], qHead, qTail, q) && k < |q| && q[k] == jind
      modifies this`qHead, this`qTail, this`q, links
      ensures q == Without(old(q), k) && Queue(links[..], qHead, qTail, q)
      ensures Kept(old(links[..]), links[..], q)
    {
      CutQueue(links[..], qHead, qTail, q, k);
      CutKeeps(links[..], qHead, q, k);
      assert links[..][jind] == Link(At(q, k + 1), At(q, k - 1));
      CutOut(jind);
      q := Without(q, k);
    }

    /** The slot that puton_q finds behind `after` */
    function NextOf(after: int): int
      reads this, links
      requires after < links.Length
    {
      if after < 0 then qHead else links[after].nxt
    }

    /** The assignments of puton_q */
    method LinkIn(jind: int, after: int)
      requires 0 <= jind < links.Length && after < links.Length && NextOf(after) < links.Length
      requires jind != after && jind != NextOf(after)
      modifies this`qHead, this`qTail, links
      ensures links[..] == Put(old(links[..]), jind, after, old(NextOf(after)))
      ensures qHead == if after < 0 then jind else old(qHead)
      ensures qTail == if old(NextOf(after)) < 0 then jind else old(qTail)
    {
      ghost var was := links[..];
      links[jind] := links[jind].(prv := after);
      var nxt;
      if after < 0 {
        nxt := qHead;
        qHead := jind;
      } else {
        nxt := links[after].nxt;
        links[after] := links[after].(nxt := jind);
      }
      links[jind] := links[jind].(nxt := nxt);
      if nxt < 0 {
        qTail := jind;
      } else {
        links[nxt] := links[nxt].(prv := jind);
      }
      forall x | 0 <= x < links.Length
        ensures links[x] == Put(was, jind, after, nxt)[x]
      {
        PutAt(was, jind, after, nxt, x);
      }
    }

    /** puton_q */
    method PutonQ(jind: int, after: int, ghost k: nat)
      requires Queue(links[..], qHead, qTail, q) && k <= |q| && after == At(q, k - 1)
      requires 0 <= jind < links.Length && jind !in q
      modifies this`qHead, this`qTail, this`q, links
      ensures q == Inserted(old(q), k, jind) && Queue(links[..], qHead, qTail, q)
      ensures Kept(old(links[..]), links[..], q)
    {
      AtBehind(links[..], qHead, q, k, jind);
      PutQueue(links[..], qHead, qTail, q, k, jind);
      PutKeeps(links[..], q, k, jind);
      LinkIn(jind, after);
      q := Inserted(q, k, jind);
    }

    /** Delete slot jind from its job number chain; qs are the slots that stay queued. */
    method UnhashJno(jind: int, ghost qs: seq<int>, ghost jobs: seq<Job>)
      requires Shape() && HashedJno(q, jlist[..]) && jind in q && 0 <= jind < jlist.Length
      requires Leaves(q, qs, jind) && SameKeys(qs, jlist[..], jobs)
      modifies this`jnoChains, jnoLinks, hashpJno
      ensures HashedJno(qs, jobs)
    {
      ghost var k := OnChain(jnoLinks[..], hashpJno[..], jnoChains, q, JnoBucket(jlist[..]), jind);
      HashedCut(jnoLinks[..], hashpJno[..], jnoChains, q, qs, JnoBucket(jlist[..]), JnoBucket(jobs), k, jind);
      var h := jnoHash(jlist[jind].jobno);
      UnlinkHash(jnoLinks, hashpJno, h, jind);
      jnoChains := jnoChains[h := Without(jnoChains[h], k)];
    }

    /** Delete it from its (netid, rslot) chain. */
    method UnhashJid(jind: int, ghost qs: seq<int>, ghost jobs: seq<Job>)
      requires Shape() && HashedJid(q, jlist[..]) && jind in q && 0 <= jind < jlist.Length
      requires Leaves(q, qs, jind) && SameKeys(qs, jlist[..], jobs)
      modifies this`jidChains, jidLinks, hashpJid
      ensures HashedJid(qs, jobs)
    {
      ghost var k := OnChain(jidLinks[..], hashpJid[..], jidChains, q, JidBucket(jlist[..]), jind);
      HashedCut(jidLinks[..], hashpJid[..], jidChains, q, qs, JidBucket(jlist[..]), JidBucket(jobs), k, jind);
      var h := jidHash(jlist[jind].netid, jlist[jind].rslot);
      UnlinkHash(jidLinks, hashpJid, h, jind);
      jidChains := jidChains[h := Without(jidChains[h], k)];
    }

    /** Take slot jind off the queue and put it on the free chain. */
    method FreeSlot(jind: int, ghost k: nat)
      requires Queued() && k < |q| && q[k] == jind
      modifies this`qHead, this`qTail, this`q, this`free, this`freech, this`njobs, links
      ensures Queued() && q == Without(old(q), k) && free == [jind] + old(free)
    {
      ghost var was := links[..];
      SlotsFreed(links.Length, q, free, k);
      WithoutDistinct(q, k);
      TakeoffQ(jind, k);
      FreedLinks(was, links[..], qHead, qTail, q, freech, free, jind);
      links[jind] := Link(freech, END);
      freech := jind;
      free := [jind] + free;
      njobs := njobs - 1;
    }

    /** Take the job in slot jind off its hash chains, and clear what it was found by. */
    method Unhash(jind: int, ghost k: nat)
      requires Valid() && k < |q| && q[k] == jind && 0 <= jind < jlist.Length
      modifies this`jnoChains, this`jidChains, jnoLinks, jidLinks, jlist, hashpJno, hashpJid
      ensures HashedJno(Without(q, k), jlist[..]) && HashedJid(Without(q, k), jlist[..])
      ensures jlist[..] == old(jlist[..])[jind := old(jlist[jind]).(jobno := 0, netid := 0, pslot := NoPlace)]
    {
      hide Chains.Hashed, Chains.Queue, Chains.FreeList, Slots, Without;
      ghost var jobs := jlist[..][jind := jlist[jind].(jobno := 0, netid := 0, pslot := NoPlace)];
      OnQueue(links[..], qHead, qTail, q, k);
      Leaving(q, k, jlist[..], jobs);
      UnhashJno(jind, Without(q, k), jobs);
      UnhashJid(jind, Without(q, k), jobs);
      jlist[jind] := jlist[jind].(jobno := 0, netid := 0, pslot := NoPlace);
      assert jlist[..] == jobs;
    }

    /** dequeue_nolock */
    method DequeueNolock(jind: int, ghost k: nat)
      requires Valid() && k < |q| && q[k] == jind
      modifies this`qHead, this`qTail, this`q, this`free, this`freech, this`njobs, this`jnoChains, this`jidChains
      modifies links, jnoLinks, jidLinks, jlist, hashpJno, hashpJid
      ensures Valid() && SameArrays()
      ensures q == Without(old(q), k) && free == [jind] + old(free)
      ensures jlist[..] == old(jlist[..])[jind := old(jlist[jind]).(jobno := 0, netid := 0, pslot := NoPlace)]
    {
      hide Chains.Hashed, Chains.Queue, Chains.FreeList, Slots, Without;
      OnQueue(links[..], qHead, qTail, q, k);
      Unhash(jind, k);
      FreeSlot(jind, k);
    }

    /** The new slots from jind to the end of the segment go in front of the free chain, in order. */
    method FreeRest(jind: nat)
      requires jind < links.Length
      modifies this`freech, links
      ensures Extends(old(links[..jind]), links[..], old(freech)) && freech == jind
    {
      var cnt := links.Length;
      while cnt > jind
        invariant jind <= cnt <= links.Length
        invariant forall i :: 0 <= i < jind ==> links[i] == old(links[i])
        invariant forall i :: cnt <= i < links.Length ==>
                    links[i] == Link(if i + 1 < links.Length then i + 1 else old(freech), END)
        invariant freech == if cnt < links.Length then cnt else old(freech)
      {
        cnt := cnt - 1;
        links[cnt] := Link(freech, END);
        freech := cnt;
      }
    }

    /** The slots stay where they are, and there are more of them. */
    method Remap(maxjobs: nat)
      requires Shape() && maxjobs > links.Length
      modifies this`links, this`jnoLinks, this`jidLinks, this`jlist
      ensures Shape() && links.Length == maxjobs
      ensures fresh(links) && fresh(jnoLinks) && fresh(jidLinks) && fresh(jlist)
      ensures links[..old(links.Length)] == old(links[..]) && old(jlist[..]) <= jlist[..]
      ensures old(jnoLinks[..]) <= jnoLinks[..] && old(jidLinks[..]) <= jidLinks[..]
    {
      links := Longer(links, maxjobs, Link(END, END));
      jnoLinks := Longer(jnoLinks, maxjobs, Link(END, END));
      jidLinks := Longer(jidLinks, maxjobs, Link(END, END));
      jlist := Longer(jlist, maxjobs, FREE_JOB);
    }

    /** growjseg with a mapped file: the segment grows where it is, to maxjobs slots. */
    method Grow(maxjobs: nat)
      requires Valid() && maxjobs > links.Length
      modifies this
      ensures Valid() && links.Length == maxjobs
      ensures fresh(links) && fresh(jnoLinks) && fresh(jidLinks) && fresh(jlist)
      ensures q == old(q) && njobs == old(njobs) && free == Upto(old(links.Length), maxjobs) + old(free)
      ensures old(jlist[..]) <= jlist[..]
    {
      hide Chains.Hashed, Chains.Queue, Chains.FreeList, Slots, Extends;
      var n := links.Length;
      ghost var was, wasJno, wasJid, wasJobs := links[..], jnoLinks[..], jidLinks[..], jlist[..];
      Remap(maxjobs);
      FreeRest(n);
      LinksGrown(was, links[..], qHead, qTail, q, old(freech), free);
      free := Upto(n, maxjobs) + free;
      SameBuckets(q, n, wasJobs, jlist[..]);
      HashedFrame(wasJno, jnoLinks[..], hashpJno[..], jnoChains, q, q, JnoBucket(wasJobs), JnoBucket(jlist[..]));
      HashedFrame(wasJid, jidLinks[..], hashpJid[..], jidChains, q, q, JidBucket(wasJobs), JidBucket(jlist[..]));
    }

    /** The loop that looks for a higher place, from slot `from` back towards the head */
    method PlaceBehind(from: int, ghost k: nat, f: real, foreign: bool, time: int)
      returns (after: int, fwpri: real, ghost m: nat)
      requires Queue(links[..], qHead, qTail, q) && links.Length == jlist.Length
      requires k <= |q| && from == At(q, k - 1)
      ensures (m, fwpri) == PlaceUp(JobsAt(jlist[..], q[..k]), f, foreign, time, priDecrement)
      ensures m <= k && after == At(q, m - 1)
    {
      hide PlaceUp, JobsAt, Chains.Queue;
      after, fwpri, m := from, f, k;
      QueueSlot(links[..], qHead, qTail, q, m);
      PlaceUpAt(jlist[..], q, m, fwpri, foreign, time, priDecrement);
      while after >= 0 && jlist[after].pri as real < fwpri
        invariant m <= k && after == At(q, m - 1) && after < links.Length
        invariant m == 0 ==> after < 0
        invariant m > 0 ==> 0 <= q[m - 1] == after && links[after].prv == At(q, m - 2)
        invariant PlaceUp(JobsAt(jlist[..], q[..k]), f, foreign, time, priDecrement) ==
                  PlaceUp(JobsAt(jlist[..], q[..m]), fwpri, foreign, time, priDecrement)
        decreases m
      {
        PlaceUpAt(jlist[..], q, m, fwpri, foreign, time, priDecrement);
        fwpri := if foreign && jlist[after].time >= time then fwpri else fwpri - priDecrement;
        after := links[after].prv;
        m := m - 1;
        QueueSlot(links[..], qHead, qTail, q, m);
      }
      PlaceUpAt(jlist[..], q, m, fwpri, foreign, time, priDecrement);
    }

    /** Put slot jind at the front of its job number chain; jobs is the array before the job was
        stored, and jobs' what it will be. */
    method HashJno(jind: int, ghost qs: seq<int>, ghost jobs: seq<Job>, ghost jobs': seq<Job>)
      requires Shape() && 0 <= jind < jlist.Length && jind !in q && HashedJno(q, jobs)
      requires Joins(q, qs, jind) && SameJobs(q, jobs, jobs') && |jobs'| == jlist.Length &&
               SameKey(jlist[jind], jobs'[jind])
      modifies this`jnoChains, jnoLinks, hashpJno
      ensures HashedJno(qs, jobs')
    {
      ghost var b := jnoHash(jlist[jind].jobno);
      HeadOf(jnoLinks[..], hashpJno[..], jnoChains, q, JnoBucket(jobs), b, jind);
      HashedPush(jnoLinks[..], hashpJno[..], jnoChains, q, qs, JnoBucket(jobs), JnoBucket(jobs'), jind);
      PushHash(jnoLinks, hashpJno, jnoHash(jlist[jind].jobno), jind);
      jnoChains := jnoChains[b := Inserted(jnoChains[b], 0, jind)];
    }

    /** ... and of its (netid, rslot) chain. */
    method HashJid(jind: int, ghost qs: seq<int>, ghost jobs: seq<Job>, ghost jobs': seq<Job>)
      requires Shape() && 0 <= jind < jlist.Length && jind !in q && HashedJid(q, jobs)
      requires Joins(q, qs, jind) && SameJobs(q, jobs, jobs') && |jobs'| == jlist.Length &&
               SameKey(jlist[jind], jobs'[jind])
      modifies this`jidChains, jidLinks, hashpJid
      ensures HashedJid(qs, jobs')
    {
      ghost var b := jidHash(jlist[jind].netid, jlist[jind].rslot);
      HeadOf(jidLinks[..], hashpJid[..], jidChains, q, JidBucket(jobs), b, jind);
      HashedPush(jidLinks[..], hashpJid[..], jidChains, q, qs, JidBucket(jobs), JidBucket(jobs'), jind);
      PushHash(jidLinks, hashpJid, jidHash(jlist[jind].netid, jlist[jind].rslot), jind);
      jidChains := jidChains[b := Inserted(jidChains[b], 0, jind)];
    }

    /** Slot jind is off the free chain, and not yet on the queue. */
    ghost predicate Taken(jind: int)
      reads `links, `qHead, `qTail, `freech, `njobs, `q, `free, links
    {
      && Queue(links[..], qHead, qTail, q)
      && FreeList(links[..], freech, free)
      && Slots(links.Length, q, [jind] + free)
      && jind !in free
      && njobs == |q|
    }

    method TakeFree() returns (jind: int)
      requires Queued() && free != []
      modifies this`freech, this`free
      ensures Taken(jind) && jind == old(free[0]) && free == old(free[1..])
      ensures 0 <= jind < links.Length && jind !in q
    {
      assert free == [free[0]] + free[1..] && free[0] in free;
      FreePop(links[..], freech, free);
      jind := freech;
      freech := links[jind].nxt;
      free := free[1..];
    }

    method QueueTaken(jind: int, after: int, ghost k: nat)
      requires Taken(jind) && k <= |q| && after == At(q, k - 1)
      modifies this`qHead, this`qTail, this`q, this`njobs, links
      ensures Queued() && q == Inserted(old(q), k, jind)
    {
      hide Chains.Queue, Chains.FreeList, Slots;
      ghost var was := links[..];
      QueueEnd(links[..], qHead, qTail, q);
      TakenSlot(links[..], qHead, qTail, q, free, jind);
      PutonQ(jind, after, k);
      FreeUnqueued(was, links[..], freech, free, old(q), q, k, jind);
      njobs := njobs + 1;
    }

    /** The first half of enqueue: take a free slot, store the job, and hash it.  For the proof
        was is where it is going to be queued, and jobs' what the jobs are going to be. */
    method Store(inj: Job, netid: int, ghost m: nat, ghost jobs': seq<Job>) returns (jind: int)
      requires Valid() && free != [] && m <= |q|
      requires Fills(jlist[..], jobs', free[0], Stored(inj, netid, free[0], networkOk))
      modifies this`freech, this`free, this`jnoChains, this`jidChains, jnoLinks, jidLinks, jlist, hashpJno, hashpJid
      ensures Shape() && Taken(jind) && jind == old(free[0]) && free == old(free[1..]) && 0 <= jind < links.Length &&
              jind !in q
      ensures HashedJno(Inserted(q, m, jind), jobs') && HashedJid(Inserted(q, m, jind), jobs')
      ensures jlist[..] == old(jlist[..])[jind := Stored(inj, netid, jind, networkOk)]
    {
      hide Chains.Hashed, Chains.Queue, Chains.FreeList, Slots;
      ghost var qs, jobs := q, jlist[..];
      jind := TakeFree();
      QueueEnd(links[..], qHead, qTail, q);
      Joining(q, m, jind, jobs, jobs');
      jlist[jind] := Stored(inj, netid, jind, networkOk);
      HashJno(jind, Inserted(q, m, jind), jobs, jobs');
      HashJid(jind, Inserted(q, m, jind), jobs, jobs');
    }

    /** The second half: find the place of the job, and queue it. */
    method PlaceNew(jind: int)
      requires Taken(jind) && 0 <= jind < links.Length == jlist.Length
      modifies this`qHead, this`qTail, this`q, this`njobs, links, jlist
      ensures Queued()
      ensures var j := old(jlist[jind]);
              var (m, f) := PlaceUp(JobsAt(old(jlist[..]), old(q)), j.pri as real, j.netid != 0, j.time, priDecrement);
              q == Inserted(old(q), m, jind) && jlist[..] == old(jlist[..])[jind := j.(wpri := RoundShort(f))]
    {
      hide PlaceUp, JobsAt, Chains.Queue, Chains.FreeList, Slots;
      QueueEnd(links[..], qHead, qTail, q);
      assert q[..|q|] == q;
      var after, fwpri;
      ghost var k;
      after, fwpri, k := PlaceBehind(qTail, |q|, jlist[jind].pri as real, jlist[jind].netid != 0, jlist[jind].time);
      jlist[jind] := jlist[jind].(wpri := RoundShort(fwpri));
      QueueTaken(jind, after, k);
    }

    /** enqueue, when there is a free slot */
    method Insert(inj: Job, netid: int) returns (jind: int)
      requires Valid() && free != []
      modifies this, links, jnoLinks, jidLinks, jlist, hashpJno, hashpJid
      ensures Valid() && SameArrays()
      ensures jind == old(free[0]) && free == old(free[1..])
      ensures Entered(inj, netid, jind, old(q), old(jlist[..]))
    {
      hide PlaceUp, JobsAt, Chains.Hashed, Chains.Queue, Chains.FreeList, Slots;
      ghost var jobs := jlist[..];
      ghost var was := PlaceUp(JobsAt(jobs, q), inj.pri as real, netid != 0, inj.time, priDecrement);
      FirstFree(links.Length, q, free);
      ghost var jobs' := jobs[free[0] := Stored(inj, netid, free[0], networkOk).(wpri := RoundShort(was.1))];
      jind := Store(inj, netid, was.0, jobs');
      JobsAtSame(jobs, jlist[..], q);
      PlaceNew(jind);
      assert jlist[..] == jobs';
    }

    /** The queue, and the jobs, after a new job has been put in slot jind */
    ghost predicate Entered(inj: Job, netid: int, jind: int, q0: seq<int>, jobs0: seq<Job>)
      reads this, jlist
    {
      var (m, f) := PlaceUp(JobsAt(jobs0, q0), inj.pri as real, netid != 0, inj.time, priDecrement);
      && q == Inserted(q0, m, jind)
      && 0 <= jind < |jobs0| == jlist.Length
      && jlist[..] == jobs0[jind := Stored(inj, netid, jind, networkOk).(wpri := RoundShort(f))]
    }

    /** enqueue: first let the segment grow, to maxjobs slots, if it is full.  That makes sure of
        a free slot, for which the code does not look. */
    method Enqueue(inj: Job, netid: int, maxjobs: nat) returns (jind: int)
      requires Valid() && maxjobs > links.Length
      modifies this, links, jnoLinks, jidLinks, jlist, hashpJno, hashpJid
      ensures Valid()
      ensures if old(njobs) < old(links.Length) then SameArrays() else links.Length == maxjobs
      ensures jind !in old(q) && 0 <= jind < jlist.Length && SameStart(old(q), old(jlist[..]), jlist[..])
      ensures var jobs := JobsAt(old(jlist[..]), old(q));
              var (m, f) := PlaceUp(jobs, inj.pri as real, netid != 0, inj.time, priDecrement);
              q == Inserted(old(q), m, jind) &&
                jlist[jind] == Stored(inj, netid, jind, networkOk).(wpri := RoundShort(f))
    {
      hide PlaceUp, JobsAt, Chains.Hashed, Chains.Queue, Chains.FreeList, Slots;
      ghost var jobs, wasFree := jlist[..], free;
      FreeRemains(links.Length, q, free);
      if njobs >= links.Length {
        Grow(maxjobs);
      }
      FreeRemains(links.Length, q, free);
      GrownSame(|jobs|, jobs, jlist[..], q, wasFree);
      jind := Insert(inj, netid);
    }

    /** The loop that looks for a lower place, behind slot jind at place k */
    method PlaceAhead(jind: int, ghost k: nat, f: real) returns (after: int, fwpri: real, ghost n: nat)
      requires Queue(links[..], qHead, qTail, q) && links.Length == jlist.Length
      requires k < |q| && jind == q[k]
      ensures (n, fwpri) == PlaceDown(JobsAt(jlist[..], q[k + 1..]), f, priDecrement)
      ensures k + n < |q| && after == q[k + n]
    {
      hide PlaceDown, JobsAt, Chains.Queue;
      after, fwpri, n := jind, f, 0;
      QueueNext(links[..], qHead, qTail, q, k);
      while links[after].nxt >= 0 && jlist[links[after].nxt].pri as real > fwpri
        invariant k + n < |q| && after == q[k + n] && 0 <= after < links.Length &&
                  links[after].nxt == At(q, k + n + 1) < links.Length
        invariant if k + n + 1 < |q| then 0 <= q[k + n + 1] == At(q, k + n + 1) else At(q, k + n + 1) < 0
        invariant PlaceDown(JobsAt(jlist[..], q[k + 1..]), f, priDecrement) ==
                  Passing(n, PlaceDown(JobsAt(jlist[..], q[k + n + 1..]), fwpri, priDecrement))
        decreases |q| - n
      {
        PlaceDownAt(jlist[..], q, k + n + 1, fwpri, priDecrement);
        fwpri := fwpri + priDecrement;
        after := links[after].nxt;
        n := n + 1;
        QueueNext(links[..], qHead, qTail, q, k + n);
      }
      PlaceDownAt(jlist[..], q, k + n + 1, fwpri, priDecrement);
    }

    /** takeoff_q and puton_q: slot jind goes from place k to place m. */
    method Move(jind: int, after: int, ghost k: nat, ghost m: nat)
      requires Queued() && k < |q| && q[k] == jind && m < |q| && after == At(Without(q, k), m - 1)
      modifies this`qHead, this`qTail, this`q, links
      ensures Queued() && q == Moved(old(q), k, m)
    {
      hide Chains.Queue, Chains.FreeList, Slots;
      ghost var was := links[..];
      OnQueue(was, qHead, qTail, q, k);
      WithoutDistinct(q, k);
      TakeoffQ(jind, k);
      ghost var cut := links[..];
      PutonQ(jind, after, m);
      MovedFree(was, cut, links[..], freech, free, old(q), k, m);
    }

    /** Jobs have changed, but not their keys, and slots have moved about in the queue. */
    lemma StillHashed(qs: seq<int>, jobs: seq<Job>, qs': seq<int>, jobs': seq<Job>)
      requires HashedJno(qs, jobs) && HashedJid(qs, jobs)
      requires (forall x :: x in qs' <==> x in qs) && |jobs'| == |jobs|
      requires forall x :: x in qs && 0 <= x < |jobs| ==> SameKey(jobs[x], jobs'[x])
      ensures HashedJno(qs', jobs') && HashedJid(qs', jobs')
    {
      HashedFrame(jnoLinks[..], jnoLinks[..], hashpJno[..], jnoChains, qs, qs', JnoBucket(jobs), JnoBucket(jobs'));
      HashedFrame(jidLinks[..], jidLinks[..], hashpJid[..], jidChains, qs, qs', JidBucket(jobs), JidBucket(jobs'));
    }

    /** Going up: behind the last of the jobs before that reaches the dwindling priority */
    method MoveUp(jind: int, f: real, ghost k: nat) returns (fwpri: real, ghost m: nat)
      requires Queued() && k < |q| && q[k] == jind && links.Length == jlist.Length
      modifies this`qHead, this`qTail, this`q, links
      ensures (m, fwpri) == PlaceUp(JobsAt(jlist[..], old(q)[..k]), f, false, 0, priDecrement) && m <= k
      ensures Queued() && q == Moved(old(q), k, m)
    {
      hide PlaceUp, JobsAt, Chains.Queue, Chains.FreeList, Slots;
      QueueSlot(links[..], qHead, qTail, q, k + 1);
      var after;
      after, fwpri, m := PlaceBehind(links[jind].prv, k, f, false, 0);
      Move(jind, after, k, m);
    }

    /** Going down: before the first of the jobs behind that is within the growing priority */
    method MoveDown(jind: int, f: real, ghost k: nat) returns (fwpri: real, ghost n: nat)
      requires Queued() && k < |q| && q[k] == jind && links.Length == jlist.Length
      modifies this`qHead, this`qTail, this`q, links
      ensures (n, fwpri) == PlaceDown(JobsAt(jlist[..], old(q)[k + 1..]), f, priDecrement) && k + n < |old(q)|
      ensures Queued() && q == Moved(old(q), k, k + n)
    {
      hide PlaceDown, JobsAt, Chains.Queue, Chains.FreeList, Slots, Chains.Distinct;
      var after;
      after, fwpri, n := PlaceAhead(jind, k, f);
      QueueEnd(links[..], qHead, qTail, q);
      MovesDown(q, k, n);
      if after != jind {
        Move(jind, after, k, k + n);
      }
    }

    /** The priority part of copy_major, without the test for no change */
    method MoveTo(jind: int, pri: Byte, ghost k: nat)
      requires Queued() && k < |q| && q[k] == jind && links.Length == jlist.Length && 0 <= jind < jlist.Length
      requires pri != jlist[jind].pri
      modifies this`qHead, this`qTail, this`q, links, jlist
      ensures Queued()
      ensures var j := old(jlist[jind]);
              var (m, f) := NewPlace(JobsAt(old(jlist[..]), old(q)), k, pri, priDecrement);
              q == Moved(old(q), k, m) && jlist[..] == old(jlist[..])[jind := j.(pri := pri, wpri := RoundShort(f))]
    {
      hide PlaceUp, PlaceDown, JobsAt, Chains.Queue, Chains.FreeList, Slots;
      JobsAround(jlist[..], q, k);
      var fwpri := (pri as int - jlist[jind].pri as int + jlist[jind].wpri) as real;
      ghost var m;
      if pri > jlist[jind].pri {
        fwpri, m := MoveUp(jind, fwpri, k);
      } else {
        fwpri, m := MoveDown(jind, fwpri, k);
      }
      jlist[jind] := jlist[jind].(pri := pri, wpri := RoundShort(fwpri));
    }

    /** The priority part of copy_major */
    method Reprioritise(jind: int, pri: Byte, ghost k: nat)
      requires Valid() && k < |q| && q[k] == jind
      modifies this`qHead, this`qTail, this`q, links, jlist
      ensures Valid() && SameArrays()
      ensures if pri == old(jlist[jind].pri) then q == old(q) && jlist[..] == old(jlist[..]) else
                var (m, f) := NewPlace(JobsAt(old(jlist[..]), old(q)), k, pri, priDecrement);
                q == Moved(old(q), k, m) &&
                  jlist[..] == old(jlist[..])[jind := old(jlist[jind]).(pri := pri, wpri := RoundShort(f))]
    {
      hide NewPlace, JobsAt, Chains.Hashed, Chains.Queue, Chains.FreeList, Slots;
      OnQueue(links[..], qHead, qTail, q, k);
      if pri != jlist[jind].pri {
        ghost var qs, jobs := q, jlist[..];
        MoveTo(jind, pri, k);
        MovedSame(qs, k, NewPlace(JobsAt(jobs, qs), k, pri, priDecrement).0);
        StillHashed(qs, jobs, q, jlist[..]);
      }
    }

    /** The chain that a key hashes to holds the queued jobs with that key. */
    lemma OnJidChain(netid: int, slot: int)
      requires Valid()
      ensures var h := jidHash(netid, slot);
              && h < |jidChains| == hashpJid.Length && jlist.Length == jidLinks.Length
              && Chain(jidLinks[..], hashpJid[h], jidChains[h])
              && (forall i :: i in jidChains[h] ==> i in q)
              && (forall i :: i in q && 0 <= i < jlist.Length && HasId(jlist[i], netid, slot) ==> i in jidChains[h])
    {
      hide Chains.Chain, Chains.Queue, Chains.FreeList, Slots;
      assert forall i :: i in q && 0 <= i < jlist.Length && HasId(jlist[i], netid, slot) ==>
            JidBucket(jlist[..])(i) == jidHash(netid, slot);
    }

    /** find_rslot: the local slot of a job of another host */
    method FindRslot(netid: int, slot: int) returns (jind: int)
      requires Valid()
      ensures jind >= 0 ==> jind in q && jind < jlist.Length && HasId(jlist[jind], netid, slot)
      ensures jind < 0 ==> forall i :: i in q && 0 <= i < jlist.Length ==> !HasId(jlist[i], netid, slot)
    {
      hide Valid;
      OnJidChain(netid, slot);
      var h := jidHash(netid, slot);
      ghost var c, k := jidChains[h], 0;
      jind := hashpJid[h];
      while jind >= 0
        invariant k <= |c| && jind == At(c, k)
        invariant forall m :: 0 <= m < k ==> 0 <= c[m] < jlist.Length && !HasId(jlist[c[m]], netid, slot)
        decreases |c| - k
      {
        ChainNext(jidLinks[..], hashpJid[h], c, k);
        if HasId(jlist[jind], netid, slot) {
          assert c[k] in c;
          return;
        }
        jind := jidLinks[jind].nxt;
        k := k + 1;
      }
    }

    /** find_jslot in src/sh_netfeed.c, which also wants the job number */
    method FindJslot(jobno: int, netid: int, slot: int) returns (jind: int)
      requires Valid()
      ensures jind >= 0 ==>
                jind in q && jind < jlist.Length && (jlist[jind].jobno == jobno && HasId(jlist[jind], netid, slot))
      ensures jind < 0 ==>
                forall i :: i in q && 0 <= i < jlist.Length ==>
                  !(jlist[i].jobno == jobno && HasId(jlist[i], netid, slot))
    {
      hide Valid;
      OnJidChain(netid, slot);
      var h := jidHash(netid, slot);
      ghost var c, k := jidChains[h], 0;
      jind := hashpJid[h];
      while jind >= 0
        invariant k <= |c| && jind == At(c, k)
        invariant forall m :: 0 <= m < k ==>
                    0 <= c[m] < jlist.Length && !(jlist[c[m]].jobno == jobno && HasId(jlist[c[m]], netid, slot))
        decreases |c| - k
      {
        ChainNext(jidLinks[..], hashpJid[h], c, k);
        if (jlist[jind].jobno == jobno && HasId(jlist[jind], netid, slot)) {
          assert c[k] in c;
          return;
        }
        jind := jidLinks[jind].nxt;
        k := k + 1;
      }
    }

    /** One turn of the loop of net_jclear, for the job at place k */
    method ClearOne(jind: int, netid: int, hosts: seq<Option<int>>, ghost k: nat) returns (gone: bool)
      requires Valid() && k < |q| && q[k] == jind && 0 <= jind < jlist.Length
      modifies this, links, jnoLinks, jidLinks, jlist, hashpJno, hashpJid
      ensures Valid() && SameArrays()
      ensures gone == (old(jlist[jind]).netid == netid) && q == if gone then Without(old(q), k) else old(q)
      ensures jlist[..] == old(jlist[..])[jind := Clears(old(jlist[jind]), netid, hosts)]
    {
      hide Chains.Hashed, Chains.Queue, Chains.FreeList, Slots;
      var j := jlist[jind];
      gone := j.netid == netid;
      if gone {
        DequeueNolock(jind, k);
      } else if j.netid == 0 {
        ghost var jobs := jlist[..];
        jlist[jind] := Forgets(j, netid, hosts);
        StillHashed(q, jobs, q, jlist[..]);
      }
    }

    /** What there is to know about a slot of the queue */
    lemma ValidQueue(k: nat)
      requires Valid()
      ensures Distinct(q) && qHead == At(q, 0) && jlist.Length == links.Length
      ensures forall x :: x in q ==> 0 <= x < jlist.Length
      ensures k < |q| ==> 0 <= q[k] < links.Length && links[q[k]].nxt == At(q, k + 1)
    {
      QueueStart(links[..], qHead, qTail, q);
      if k < |q| {
        QueueNext(links[..], qHead, qTail, q, k);
      }
    }

    /** One turn of the loop of net_jclear */
    method ClearTurn(jind: int, netid: int, hosts: seq<Option<int>>, ghost q0: seq<int>, ghost jobs0: seq<Job>,
                     ghost i: nat, ghost k: nat)
      returns (nxtind: int, ghost k': nat)
      requires Valid() && Clearing(q0, jobs0, JobOf(netid), ClearsJob(netid, hosts), i, k, q, jlist[..]) &&
               jind == At(q, k) >= 0
      modifies this, links, jnoLinks, jidLinks, jlist, hashpJno, hashpJid
      ensures Valid() && SameArrays()
      ensures i < |q0| && Clearing(q0, jobs0, JobOf(netid), ClearsJob(netid, hosts), i + 1, k', q, jlist[..]) &&
              nxtind == At(q, k')
    {
      hide Valid, Clearing, KeptSlots, ClearedCells, Clears, Chains.Distinct;
      ClearingAt(q0, jobs0, JobOf(netid), ClearsJob(netid, hosts), i, k, q, jlist[..]);
      ValidQueue(k);
      ClearingStep(q0, jobs0, JobOf(netid), ClearsJob(netid, hosts), i, k, q, jlist[..]);
      AtWithout(q, k);
      nxtind := links[jind].nxt;
      var gone := ClearOne(jind, netid, hosts, k);
      k' := if gone then k else k + 1;
    }

    /** net_jclear: `hosts` gives for each printer slot the host of the printer in it, if there is one. */
    method NetJclear(netid: int, hosts: seq<Option<int>>)
      requires Valid()
      modifies this, links, jnoLinks, jidLinks, jlist, hashpJno, hashpJid
      ensures Valid() && SameArrays()
      ensures q == KeptSlots(old(q), old(jlist[..]), JobOf(netid)) &&
              jlist[..] == ClearedCells(old(q), old(jlist[..]), ClearsJob(netid, hosts))
    {
      hide Valid, Clearing, KeptSlots, ClearedCells, Chains.Distinct;
      ghost var q0, jobs0, i, k := q, jlist[..], 0, 0;
      var jind := qHead;
      ValidQueue(0);
      ClearingStarts(q0, jobs0, JobOf(netid), ClearsJob(netid, hosts));
      while jind >= 0
        invariant Valid() && SameArrays()
        invariant Clearing(q0, jobs0, JobOf(netid), ClearsJob(netid, hosts), i, k, q, jlist[..]) && jind == At(q, k)
        decreases |q0| - i
      {
        jind, k := ClearTurn(jind, netid, hosts, q0, jobs0, i, k);
        i := i + 1;
      }
      ClearingEnds(q0, jobs0, JobOf(netid), ClearsJob(netid, hosts), i, k, q, jlist[..]);
    }
  }

  // ----- A job that has been put in can be found -----

  /** The slot by which other hosts, or this one, name a job that enqueue has put in slot jind */
  function SlotOf(inj: Job, netid: int, jind: int): int {
    if netid == 0 then jind else inj.rslot
  }

  /** What has been made of a job that arrived: nobody has it, and of what went on elsewhere it keeps whether it
      has been printed, and whether it has a page file. */
  predicate Arrived(inj: Job, j: Job, networkOk: bool) {
    && j.sflags == {} && j.pslot == NoPlace
    && (forall f :: f in j.dflags <==> f in inj.dflags && (f == PRINTED || f == PAGEFILE))
    && (j.localOnly <==> inj.localOnly || !networkOk)
    && j.jobno == inj.jobno && j.time == inj.time && j.pri == inj.pri
  }

  lemma StoredArrives(inj: Job, netid: int, jind: int, networkOk: bool, w: int)
    ensures var j := Stored(inj, netid, jind, networkOk).(wpri := w);
            Arrived(inj, j, networkOk) && j.netid == netid && j.rslot == SlotOf(inj, netid, jind) && j.wpri == w
  {
  }

  /** enqueue, and the two lookups: each finds a job with the key that the job came with, or that a
      local job has got, and finds this very job unless another one had the key already. */
  method EnqueueAndFind(seg: JobSeg, inj: Job, netid: int, maxjobs: nat) returns (jind: int, found: int, found': int)
    requires seg.Valid() && maxjobs > seg.links.Length
    modifies seg, seg.links, seg.jnoLinks, seg.jidLinks, seg.jlist, seg.hashpJno, seg.hashpJid
    ensures seg.Valid() && jind in seg.q && 0 <= found < seg.jlist.Length && 0 <= found' < seg.jlist.Length
    ensures seg.jlist[found].netid == netid && seg.jlist[found].rslot == SlotOf(inj, netid, jind)
    ensures seg.jlist[found'].netid == netid && seg.jlist[found'].rslot == SlotOf(inj, netid, jind) &&
            seg.jlist[found'].jobno == inj.jobno
    ensures (forall i :: i in old(seg.q) && 0 <= i < old(seg.jlist.Length) ==>
               !(old(seg.jlist[..])[i].netid == netid && old(seg.jlist[..])[i].rslot == SlotOf(inj, netid, jind))) ==>
              found == found' == jind
  {
    hide JobSeg.Valid, PlaceUp, JobsAt;
    ghost var q, jobs := seg.q, seg.jlist[..];
    seg.ValidQueue(0);
    jind := seg.Enqueue(inj, netid, maxjobs);
    InsertedHas(q, seg.q, jind);
    found := seg.FindRslot(netid, if netid == 0 then jind else inj.rslot);
    found' := seg.FindJslot(inj.jobno, netid, if netid == 0 then jind else inj.rslot);
  }

  lemma InsertedHas(q: seq<int>, q': seq<int>, i: int)
    requires exists m: nat :: m <= |q| && q' == Inserted(q, m, i)
    ensures forall x :: x in q' <==> x in q || x == i
  {
    var m: nat :| m <= |q| && q' == Inserted(q, m, i);
    assert q == q[..m] + q[m..];
  }
}
