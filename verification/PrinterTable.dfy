/**
 The printer segment (src/sh_plist.c): slots that hold the list of printers, a chain of free
 slots, and hash chains by owner and slot.
 */
module PrinterTable {
  import opened Common
  import opened Chains
  import opened Segments

  datatype PtrState = Null | Halt | InState(code: nat)
  datatype PFlag = SELECT | INTER | HEOJ | PROPOSED

  /** The fields of a printer that the table operations look at */
  datatype Ptr = Ptr(state: PtrState, name: string, dev: string, netid: int, rslot: int, job: int,
                     rjhostid: int, rjslot: int, jslot: int, sflags: set<PFlag>, dflags: set<nat>,
                     localNet: bool, localOnly: bool, pid: int)

  const FREE_PTR := Ptr(Null, "", "", 0, 0, 0, 0, END, END, {}, {}, false, false, 0)

  // ----- What the operations do to a printer -----

  /** As takeoff_l leaves it */
  function Cleared(p: Ptr): Ptr {
    p.(state := Null, rjslot := END, jslot := END, netid := 0, rslot := 0)
  }

  /** What net_pclear does: a printer of the dead host goes, and a half-made proposal to that
      host is forgotten. */
  function Clears(p: Ptr, netid: int): Ptr {
    if p.netid == netid then Cleared(p)
    else if p.netid == 0 && PROPOSED in p.sflags && p.rjhostid == netid then
      p.(jslot := END, rjhostid := 0, sflags := {})
    else p
  }

  function ClearsPtr(netid: int): Ptr -> Ptr {
    (p: Ptr) => Clears(p, netid)
  }

  function PtrOf(netid: int): Ptr -> bool {
    (p: Ptr) => p.netid == netid
  }

  /** As addptr stores it */
  function Added(pdet: Ptr, netid: int, pind: int, networkOk: bool): Ptr {
    pdet.(state := if netid == 0 then Halt else pdet.state, sflags := if netid == 0 then {} else pdet.sflags,
          dflags := if netid == 0 then {} else pdet.dflags,
          netid := netid, rslot := if netid == 0 then pind else pdet.rslot,
          job := 0, rjhostid := 0, rjslot := END, jslot := END, localOnly := pdet.localOnly || !networkOk, pid := 0)
  }

  /** As chgptr stores a change of the local printer in slot pind */
  function Changed(newp: Ptr, pind: int, networkOk: bool): Ptr {
    newp.(job := 0, rjhostid := 0, rjslot := END, jslot := END, state := Halt, sflags := {}, dflags := {}, pid := 0,
          rslot := pind, netid := 0, localOnly := newp.localOnly || !networkOk)
  }

  /** For each slot the host of its printer, if there is one: what net_jclear sees of the printers */
  function HostsOf(ptrs: seq<Ptr>): (hosts: seq<Option<int>>)
    ensures |hosts| == |ptrs|
    ensures forall x :: 0 <= x < |hosts| ==> hosts[x] == if ptrs[x].state == Null then None else Some(ptrs[x].netid)
  {
    seq(|ptrs|, x requires 0 <= x < |ptrs| => if ptrs[x].state == Null then None else Some(ptrs[x].netid))
  }

  /** The test of addptr: is there a printer of this name on the host, or one on this device? */
  predicate Clash(rs: Ptr, netid: int, pdet: Ptr, sameName: (string, string) -> bool) {
    rs.state != Null && rs.netid == netid && (sameName(rs.name, pdet.name) || (!rs.localNet && rs.dev == pdet.dev))
  }

  predicate HasId(p: Ptr, netid: int, slot: int) {
    p.netid == netid && p.rslot == slot
  }

  /** The segment has grown, by empty slots. */
  ghost predicate Grown(ptrs: seq<Ptr>, ptrs': seq<Ptr>) {
    ptrs <= ptrs' && forall x :: |ptrs| <= x < |ptrs'| ==> ptrs'[x].state == Null
  }

  ghost predicate SameKey(p: Ptr, p': Ptr) {
    p'.netid == p.netid && p'.rslot == p.rslot
  }

  /** There are no printers but in the slots of the list, and local ones bear their own slot number. */
  ghost predicate Listed(q: seq<int>, ptrs: seq<Ptr>) {
    forall x :: 0 <= x < |ptrs| ==>
      && (ptrs[x].state != Null ==> x in q)
      && (x in q && ptrs[x].netid == 0 ==> ptrs[x].state != Null && ptrs[x].rslot == x)
  }

  /** Two local printers have different names, and are not on the same device of this host. */
  predicate Apart(p: Ptr, r: Ptr, sameName: (string, string) -> bool) {
    !sameName(p.name, r.name) && !sameName(r.name, p.name) && (p.localNet || r.localNet || p.dev != r.dev)
  }

  /** What addptr and chgptr test for: any two local printers are apart. */
  ghost predicate AllApart(q: seq<int>, ptrs: seq<Ptr>, sameName: (string, string) -> bool) {
    forall x, y ::
      x in q && y in q && 0 <= x < |ptrs| && 0 <= y < |ptrs| && x != y && ptrs[x].netid == ptrs[y].netid == 0 ==>
        Apart(ptrs[x], ptrs[y], sameName)
  }

  ghost predicate Symmetric(sameName: (string, string) -> bool) {
    forall a, b :: sameName(a, b) <==> sameName(b, a)
  }

  /** Is there another local printer with the name of p? */
  ghost predicate NameTaken(q: seq<int>, ptrs: seq<Ptr>, pind: int, p: Ptr, sameName: (string, string) -> bool) {
    exists x :: x in q && 0 <= x < |ptrs| && x != pind && ptrs[x].netid == 0 && sameName(ptrs[x].name, p.name)
  }

  /** addptr has found no clash. */
  lemma AddedApart(q: seq<int>, q': seq<int>, ptrs: seq<Ptr>, ptrs': seq<Ptr>, pind: int, netid: int, pdet: Ptr, p: Ptr,
                   sameName: (string, string) -> bool)
    requires AllApart(q, ptrs, sameName) && Symmetric(sameName) && SameStart(q, ptrs, ptrs')
    requires forall x :: x in q && 0 <= x < |ptrs| && ptrs[x].netid == 0 ==> ptrs[x].state != Null
    requires !exists x :: x in q && 0 <= x < |ptrs| && Clash(ptrs[x], netid, pdet, sameName)
    requires SamePlace(pdet.(netid := netid), p) && 0 <= pind < |ptrs'| && ptrs'[pind] == p && Joins(q, q', pind)
    ensures AllApart(q', ptrs', sameName)
  {
  }

  /** The same printer, but for what goes on there */
  predicate SamePlace(p: Ptr, p': Ptr) {
    p'.name == p.name && p'.dev == p.dev && p'.localNet == p.localNet && p'.netid == p.netid
  }

  /** chgptr has put the printer p in slot pind. */
  lemma ChangedApart(q: seq<int>, ptrs: seq<Ptr>, pind: int, p: Ptr, sameName: (string, string) -> bool)
    requires AllApart(q, ptrs, sameName) && Symmetric(sameName) && Listed(q, ptrs)
    requires 0 <= pind < |ptrs| && pind in q && p.netid == ptrs[pind].netid
    requires p.netid != 0 || p.localNet ||
             !exists x :: x in q && 0 <= x < |ptrs| && x != pind && Clash(ptrs[x], 0, p, sameName)
    ensures AllApart(q, ptrs[pind := p], sameName) <==>
              p.netid != 0 || !p.localNet || !NameTaken(q, ptrs[pind := p], pind, p, sameName)
  {
    var ptrs' := ptrs[pind := p];
    if p.netid == 0 && p.localNet && NameTaken(q, ptrs', pind, p, sameName) {
      var x :| x in q && 0 <= x < |ptrs'| && x != pind && ptrs'[x].netid == 0 && sameName(ptrs'[x].name, p.name);
      assert !Apart(ptrs'[x], ptrs'[pind], sameName);
    }
  }

  /** The test of chgptr for a printer on a device of this host and addptr's test are the same. */
  lemma SameClash(rs: Ptr, newp: Ptr, p: Ptr, sameName: (string, string) -> bool)
    requires p.name == newp.name && p.dev == newp.dev
    ensures Clash(rs, 0, newp, sameName) <==> Clash(rs, 0, p, sameName)
  {
  }

  /** What chgptr tells another host, or all of them, about a printer */
  datatype News = NoNews | Update(p: Ptr) | Dropped | Announced | Altered

  /** Does chgptr turn a change of the local printer in slot pind away? */
  ghost predicate Refused(q: seq<int>, ptrs: seq<Ptr>, pind: int, newp: Ptr, sameName: (string, string) -> bool)
    requires 0 <= pind < |ptrs|
  {
    || ptrs[pind].pid != 0
    || (!newp.localNet && exists x :: x in q && 0 <= x < |ptrs| && x != pind && Clash(ptrs[x], 0, newp, sameName))
  }

  /** The printer that chgptr puts in slot pind, if it does; remote says whether the change comes
      from another host. */
  ghost function Change(q: seq<int>, ptrs: seq<Ptr>, pind: nat, remote: bool, newp: Ptr, networkOk: bool,
                        sameName: (string, string) -> bool): Option<Ptr>
  {
    if pind >= |ptrs| || ptrs[pind].state == Null then None
    else if ptrs[pind].netid != 0 then
      if !remote then None
      else Some(newp.(rslot := ptrs[pind].rslot, netid := ptrs[pind].netid, jslot := ptrs[pind].jslot))
    else if Refused(q, ptrs, pind, newp, sameName) then None
    else Some(Changed(newp, pind, networkOk))
  }

  lemma ListedLess(q: seq<int>, k: nat, ptrs: seq<Ptr>)
    requires Listed(q, ptrs) && Distinct(q) && k < |q| && 0 <= q[k] < |ptrs|
    ensures Listed(Without(q, k), ptrs[q[k] := Cleared(ptrs[q[k]])])
    ensures Leaves(q, Without(q, k), q[k]) && q[k] in q
  {
    WithoutDistinct(q, k);
  }

  lemma ListedMore(q: seq<int>, ptrs: seq<Ptr>, i: int, p: Ptr)
    requires Listed(q, ptrs) && Distinct(q) && i !in q && 0 <= i < |ptrs|
    requires p.netid == 0 ==> p.state != Null && p.rslot == i
    ensures Listed(Inserted(q, |q|, i), ptrs[i := p]) && Joins(q, Inserted(q, |q|, i), i)
  {
    InsertedDistinct(q, |q|, i);
  }

  class PtrSeg {
    const pidHash: (int, int) -> nat             // pid_hash
    const sameName: (string, string) -> bool     // ncstrcmp
    const networkOk: bool

    var links: array<Link>                       // l_nxt, l_prv
    var pidLinks: array<Link>                    // nxt_pid_hash, prv_pid_hash
    var plist: array<Ptr>
    const hashpPid: array<int>

    var freech: int
    var lHead: int
    var lTail: int
    var nptrs: nat

    ghost var q: seq<int>
    ghost var free: seq<int>
    ghost var chains: seq<seq<int>>

    /** A segment of maxptrs slots without a printer, as set up from an empty printer file */
    constructor (pidHash: (int, int) -> nat, pidMod: nat, sameName: (string, string) -> bool, networkOk: bool,
                 maxptrs: nat)
      requires (forall n, s :: pidHash(n, s) < pidMod) && maxptrs > 0
      ensures Valid() && q == [] && links.Length == maxptrs
      ensures this.networkOk == networkOk && this.sameName == sameName
      ensures fresh(links) && fresh(pidLinks) && fresh(plist) && fresh(hashpPid)
    {
      hide Chains.Hashed, Chains.Queue, Chains.FreeList, Slots, Extends;
      this.pidHash, this.sameName, this.networkOk := pidHash, sameName, networkOk;
      links, pidLinks := new Link[maxptrs](_ => Link(END, END)), new Link[maxptrs](_ => Link(END, END));
      plist := new Ptr[maxptrs](_ => FREE_PTR);
      hashpPid := new int[pidMod](_ => END);
      freech, lHead, lTail, nptrs := END, END, END, 0;
      q, chains := [], seq(pidMod, _ => []);
      free := Upto(0, maxptrs);
      new;
      FreeRest(0);
      EmptySegment(links[..]);
      NoneHashed(pidLinks[..], hashpPid[..], chains, Bucket(plist[..]));
    }

    ghost function Bucket(ptrs: seq<Ptr>): int -> int {
      i => if 0 <= i < |ptrs| then pidHash(ptrs[i].netid, ptrs[i].rslot) else -1
    }

    ghost predicate Shape()
      reads `links, `pidLinks, `plist
    {
      && links.Length == pidLinks.Length == plist.Length && links != pidLinks
      && (forall n, s :: pidHash(n, s) < hashpPid.Length)
    }

    /** The list and the free chain share the slots between them. */
    ghost predicate Queued()
      reads `links, `lHead, `lTail, `freech, `nptrs, `q, `free, links
    {
      && Queue(links[..], lHead, lTail, q)
      && FreeList(links[..], freech, free)
      && Slots(links.Length, q, free)
      && nptrs == |q|
    }

    /** Each of the slots qs is on the chain that its key hashes to. */
    ghost predicate HashedPid(qs: seq<int>, ptrs: seq<Ptr>)
      reads `pidLinks, `chains, pidLinks, hashpPid
    {
      Hashed(pidLinks[..], hashpPid[..], chains, qs, Bucket(ptrs))
    }

    ghost predicate Valid()
      reads this, links, pidLinks, plist, hashpPid
    {
      Shape() && Queued() && HashedPid(q, plist[..]) && Listed(q, plist[..])
    }

    twostate predicate SameArrays()
      reads this
    {
      links == old(links) && pidLinks == old(pidLinks) && plist == old(plist)
    }

    // ----- takeoff_l -----

    /** The assignments that take a slot off the list, and put it on the free chain */
    method CutOut(pind: int)
      requires 0 <= pind < links.Length && links[pind].nxt < links.Length && links[pind].prv < links.Length
      requires links[pind].nxt != pind && links[pind].prv != pind
      modifies this`lHead, this`lTail, this`freech, links
      ensures links[..] == Cut(old(links[..]), pind)[pind := Link(old(freech), END)]
      ensures lHead == if old(links[pind].prv) < 0 then old(links[pind].nxt) else old(lHead)
      ensures lTail == if old(links[pind].nxt) < 0 then old(links[pind].prv) else old(lTail)
      ensures freech == pind
    {
      ghost var was := links[..];
      var nxtind, prvind := links[pind].nxt, links[pind].prv;
      if nxtind < 0 {
        lTail := prvind;
      } else {
        links[nxtind] := links[nxtind].(prv := prvind);
      }
      if prvind < 0 {
        lHead := nxtind;
      } else {
        links[prvind] := links[prvind].(nxt := nxtind);
      }
      links[pind] := Link(freech, END);
      freech := pind;
      forall x | 0 <= x < links.Length
        ensures links[x] == Cut(was, pind)[pind := Link(old(freech), END)][x]
      {
        CutAt(was, pind, x);
      }
    }

    method FreeSlot(pind: int, ghost k: nat)
      requires Queued() && k < |q| && q[k] == pind
      modifies this`lHead, this`lTail, this`q, this`free, this`freech, this`nptrs, links
      ensures Queued() && q == Without(old(q), k) && free == [pind] + old(free)
    {
      hide Chains.Queue, Chains.FreeList, Slots;
      ghost var was := links[..];
      OnQueue(was, lHead, lTail, q, k);
      NotBeside(q, k);
      CutFreed(was, lHead, lTail, q, freech, free, k);
      CutOut(pind);
      q := Without(q, k);
      free := [pind] + free;
      nptrs := nptrs - 1;
    }

    /** The assignments that take it off its hash chain; qs are the slots that stay listed. */
    method Unhash(pind: int, ghost qs: seq<int>, ghost ptrs: seq<Ptr>, ghost q0: seq<int>)
      requires Shape() && HashedPid(q0, plist[..]) && pind in q0 && 0 <= pind < plist.Length
      requires Leaves(q0, qs, pind) && |ptrs| == plist.Length
      requires forall x :: 0 <= x < |ptrs| && x != pind ==> ptrs[x] == plist[x]
      modifies this`chains, pidLinks, hashpPid
      ensures HashedPid(qs, ptrs)
    {
      ghost var k := OnChain(pidLinks[..], hashpPid[..], chains, q0, Bucket(plist[..]), pind);
      HashedCut(pidLinks[..], hashpPid[..], chains, q0, qs, Bucket(plist[..]), Bucket(ptrs), k, pind);
      var h := pidHash(plist[pind].netid, plist[pind].rslot);
      UnlinkHash(pidLinks, hashpPid, h, pind);
      chains := chains[h := Without(chains[h], k)];
    }

    /** takeoff_l */
    method TakeoffL(pind: int, ghost k: nat)
      requires Valid() && k < |q| && q[k] == pind
      modifies this, links, pidLinks, plist, hashpPid
      ensures Valid() && SameArrays()
      ensures q == Without(old(q), k) && free == [pind] + old(free)
      ensures plist[..] == old(plist[..])[pind := Cleared(old(plist[pind]))]
      ensures old(AllApart(q, plist[..], sameName)) ==> AllApart(q, plist[..], sameName)
    {
      hide Chains.Hashed, Chains.Queue, Chains.FreeList, Slots, Listed;
      ghost var q0 := q;
      OnQueue(links[..], lHead, lTail, q, k);
      ghost var ptrs := plist[..][pind := Cleared(plist[pind])];
      ListedLess(q, k, plist[..]);
      FreeSlot(pind, k);
      Unhash(pind, q, ptrs, q0);
      plist[pind] := Cleared(plist[pind]);
    }

    /** What there is to know about a slot of the list */
    lemma ValidQueue(k: nat)
      requires Valid()
      ensures Distinct(q) && lHead == At(q, 0) && plist.Length == links.Length
      ensures forall x :: x in q ==> 0 <= x < plist.Length
      ensures k < |q| ==> 0 <= q[k] < links.Length && links[q[k]].nxt == At(q, k + 1)
    {
      QueueStart(links[..], lHead, lTail, q);
      if k < |q| {
        QueueNext(links[..], lHead, lTail, q, k);
      }
    }

    // ----- net_pclear -----

    /** A printer has changed, but not its key. */
    lemma StillValid(ptrs: seq<Ptr>)
      requires Shape() && Queued() && HashedPid(q, ptrs) && Listed(q, ptrs) && |ptrs| == plist.Length
      requires forall x :: 0 <= x < |ptrs| ==>
                 && SameKey(ptrs[x], plist[x])
                 && (plist[x].state == ptrs[x].state || (x in q && (plist[x].netid == 0 ==> plist[x].state != Null)))
      ensures Valid()
    {
      HashedFrame(pidLinks[..], pidLinks[..], hashpPid[..], chains, q, q, Bucket(ptrs), Bucket(plist[..]));
    }

    /** One turn of the loop, for the printer at place k */
    method ClearOne(pind: int, netid: int, ghost k: nat) returns (gone: bool)
      requires Valid() && k < |q| && q[k] == pind && 0 <= pind < plist.Length
      modifies this, links, pidLinks, plist, hashpPid
      ensures Valid() && SameArrays()
      ensures gone == (old(plist[pind]).netid == netid) && q == if gone then Without(old(q), k) else old(q)
      ensures plist[..] == old(plist[..])[pind := Clears(old(plist[pind]), netid)]
      ensures old(AllApart(q, plist[..], sameName)) ==> AllApart(q, plist[..], sameName)
    {
      hide Chains.Hashed, Chains.Queue, Chains.FreeList, Slots, Listed;
      var p := plist[pind];
      gone := p.netid == netid;
      if gone {
        TakeoffL(pind, k);
      } else if p.netid == 0 && PROPOSED in p.sflags && p.rjhostid == netid {
        ghost var ptrs := plist[..];
        plist[pind] := p.(jslot := END, rjhostid := 0, sflags := {});
        StillValid(ptrs);
      }
    }

    method ClearTurn(pind: int, netid: int, ghost q0: seq<int>, ghost ptrs0: seq<Ptr>, ghost i: nat, ghost k: nat)
      returns (nxtind: int, ghost k': nat)
      requires Valid() && Clearing(q0, ptrs0, PtrOf(netid), ClearsPtr(netid), i, k, q, plist[..]) &&
               pind == At(q, k) >= 0
      modifies this, links, pidLinks, plist, hashpPid
      ensures Valid() && SameArrays()
      ensures i < |q0| && Clearing(q0, ptrs0, PtrOf(netid), ClearsPtr(netid), i + 1, k', q, plist[..]) &&
              nxtind == At(q, k')
      ensures old(AllApart(q, plist[..], sameName)) ==> AllApart(q, plist[..], sameName)
    {
      hide Valid, Clearing, KeptSlots, ClearedCells, Clears, Chains.Distinct, AllApart;
      ClearingAt(q0, ptrs0, PtrOf(netid), ClearsPtr(netid), i, k, q, plist[..]);
      ValidQueue(k);
      ClearingStep(q0, ptrs0, PtrOf(netid), ClearsPtr(netid), i, k, q, plist[..]);
      AtWithout(q, k);
      nxtind := links[pind].nxt;
      var gone := ClearOne(pind, netid, k);
      k' := if gone then k else k + 1;
    }

    /** net_pclear */
    method NetPclear(netid: int)
      requires Valid()
      modifies this, links, pidLinks, plist, hashpPid
      ensures Valid() && SameArrays()
      ensures q == KeptSlots(old(q), old(plist[..]), PtrOf(netid)) &&
              plist[..] == ClearedCells(old(q), old(plist[..]), ClearsPtr(netid))
      ensures old(AllApart(q, plist[..], sameName)) ==> AllApart(q, plist[..], sameName)
    {
      hide Valid, Clearing, KeptSlots, ClearedCells, Chains.Distinct, AllApart;
      ghost var q0, ptrs0, i, k := q, plist[..], 0, 0;
      var pind := lHead;
      ValidQueue(0);
      ClearingStarts(q0, ptrs0, PtrOf(netid), ClearsPtr(netid));
      while pind >= 0
        invariant Valid() && SameArrays()
        invariant old(AllApart(q, plist[..], sameName)) ==> AllApart(q, plist[..], sameName)
        invariant Clearing(q0, ptrs0, PtrOf(netid), ClearsPtr(netid), i, k, q, plist[..]) && pind == At(q, k)
        decreases |q0| - i
      {
        pind, k := ClearTurn(pind, netid, q0, ptrs0, i, k);
        i := i + 1;
      }
      ClearingEnds(q0, ptrs0, PtrOf(netid), ClearsPtr(netid), i, k, q, plist[..]);
    }

    // ----- addptr -----

    method Remap(maxptrs: nat)
      requires Shape() && maxptrs > links.Length
      modifies this`links, this`pidLinks, this`plist
      ensures Shape() && links.Length == maxptrs && fresh(links) && fresh(pidLinks) && fresh(plist)
      ensures links[..old(links.Length)] == old(links[..]) && old(pidLinks[..]) <= pidLinks[..]
      ensures Grown(old(plist[..]), plist[..])
    {
      links := Longer(links, maxptrs, Link(END, END));
      pidLinks := Longer(pidLinks, maxptrs, Link(END, END));
      plist := Longer(plist, maxptrs, FREE_PTR);
    }

    /** free_rest: the new slots go in front of the free chain, in order. */
    method FreeRest(pind: nat)
      requires pind < links.Length
      modifies this`freech, links
      ensures Extends(old(links[..pind]), links[..], old(freech)) && freech == pind
    {
      var cnt := links.Length;
      while cnt > pind
        invariant pind <= cnt <= links.Length
        invariant forall i :: 0 <= i < pind ==> links[i] == old(links[i])
        invariant forall i :: cnt <= i < links.Length ==>
                    links[i] == Link(if i + 1 < links.Length then i + 1 else old(freech), END)
        invariant freech == if cnt < links.Length then cnt else old(freech)
      {
        cnt := cnt - 1;
        links[cnt] := Link(freech, END);
        freech := cnt;
      }
    }

    /** growpseg with a mapped file: the segment grows where it is, to maxptrs slots. */
    method Grow(maxptrs: nat)
      requires Valid() && maxptrs > links.Length
      modifies this
      ensures Valid() && links.Length == maxptrs && fresh(links) && fresh(pidLinks) && fresh(plist)
      ensures q == old(q) && nptrs == old(nptrs) && Grown(old(plist[..]), plist[..])
    {
      hide Chains.Hashed, Chains.Queue, Chains.FreeList, Slots, Extends;
      var n := links.Length;
      ghost var was, wasPid, wasPtrs := links[..], pidLinks[..], plist[..];
      Remap(maxptrs);
      FreeRest(n);
      LinksGrown(was, links[..], lHead, lTail, q, old(freech), free);
      free := Upto(n, maxptrs) + free;
      HashedFrame(wasPid, pidLinks[..], hashpPid[..], chains, q, q, Bucket(wasPtrs), Bucket(plist[..]));
    }

    /** The list half of puton_l, with the slot just taken off the free chain */
    method Append(pind: int)
      requires Queued() && free != [] && pind == free[0]
      modifies this`freech, this`free, this`lHead, this`lTail, this`nptrs, this`q, links
      ensures Queued() && free == old(free[1..]) && q == Inserted(old(q), |old(q)|, pind)
    {
      hide Chains.Queue, Chains.FreeList, Slots, Chains.Put;
      ghost var was := links[..];
      FirstFree(links.Length, q, free);
      AppendLinks(was, lHead, lTail, q, freech, free);
      freech := links[pind].nxt;
      free := free[1..];
      LinkLast(pind);
      q := Inserted(q, |q|, pind);
      nptrs := nptrs + 1;
    }

    /** The assignments of that half */
    method LinkLast(pind: int)
      requires 0 <= pind < links.Length && lTail < links.Length && lTail != pind
      modifies this`lHead, this`lTail, links
      ensures links[..] == Put(old(links[..]), pind, old(lTail), END)
      ensures lTail == pind && lHead == if old(lTail) < 0 then pind else old(lHead)
    {
      var prv := lTail;
      links[pind] := Link(END, prv);
      lTail := pind;
      if prv < 0 {
        lHead := pind;
      } else {
        links[prv] := links[prv].(nxt := pind);
      }
    }

    /** The hash half; ptrs is the array before the printer was stored. */
    method Hash(pind: int, ghost q0: seq<int>, ghost ptrs: seq<Ptr>, ghost ptrs': seq<Ptr>)
      requires Shape() && 0 <= pind < plist.Length && pind !in q0 && HashedPid(q0, ptrs)
      requires Joins(q0, q, pind) && |ptrs| == |ptrs'| == plist.Length && SameKey(plist[pind], ptrs'[pind])
      requires forall x :: 0 <= x < |ptrs| && x != pind ==> ptrs'[x] == ptrs[x]
      modifies this`chains, pidLinks, hashpPid
      ensures HashedPid(q, ptrs')
    {
      ghost var b := pidHash(plist[pind].netid, plist[pind].rslot);
      HeadOf(pidLinks[..], hashpPid[..], chains, q0, Bucket(ptrs), b, pind);
      HashedPush(pidLinks[..], hashpPid[..], chains, q0, q, Bucket(ptrs), Bucket(ptrs'), pind);
      PushHash(pidLinks, hashpPid, pidHash(plist[pind].netid, plist[pind].rslot), pind);
      chains := chains[b := Inserted(chains[b], 0, pind)];
    }

    /** addptr, when the printer is new and there is a free slot */
    method Insert(netid: int, pdet: Ptr) returns (pind: int)
      requires Valid() && free != []
      modifies this, links, pidLinks, plist, hashpPid
      ensures Valid() && SameArrays()
      ensures pind == old(free[0]) && q == Inserted(old(q), |old(q)|, pind) && 0 <= pind < plist.Length
      ensures plist[..] == old(plist[..])[pind := Added(pdet, netid, pind, networkOk)]
    {
      hide Chains.Hashed, Chains.Queue, Chains.FreeList, Slots, Listed;
      FirstFree(links.Length, q, free);
      QueueEnd(links[..], lHead, lTail, q);
      FreeHead(links[..], freech, free);
      pind := freech;
      ghost var q0, ptrs, ptrs' := q, plist[..], plist[..][pind := Added(pdet, netid, pind, networkOk)];
      ListedMore(q, ptrs, pind, Added(pdet, netid, pind, networkOk));
      Append(pind);
      plist[pind] := Added(pdet, netid, pind, networkOk);
      Hash(pind, q0, ptrs, ptrs');
    }

    /** The loop of addptr along the list */
    method Taken(netid: int, pdet: Ptr) returns (taken: bool)
      requires Valid()
      ensures taken <==> exists x :: x in q && 0 <= x < plist.Length && Clash(plist[x], netid, pdet, sameName)
    {
      hide Valid, Clash;
      ValidQueue(0);
      ghost var k := 0;
      var pind := lHead;
      while pind >= 0
        invariant k <= |q| && pind == At(q, k)
        invariant forall m :: 0 <= m < k ==> 0 <= q[m] < plist.Length && !Clash(plist[q[m]], netid, pdet, sameName)
        decreases |q| - k
      {
        ValidQueue(k);
        assert q[k] in q;
        if Clash(plist[pind], netid, pdet, sameName) {
          return true;
        }
        pind := links[pind].nxt;
        k := k + 1;
      }
      EndOfQueue(q, k);
      return false;
    }

    /** addptr, growing the segment to maxptrs slots if it is full: it then never finds the free
        chain empty, which the code reports as an error. */
    method AddPtr(netid: int, pdet: Ptr, maxptrs: nat) returns (added: bool, pind: int)
      requires Valid() && maxptrs > links.Length
      modifies this, links, pidLinks, plist, hashpPid
      ensures Valid()
      ensures var ptrs := old(plist[..]);
              added <==> !exists x :: x in old(q) && 0 <= x < |ptrs| && Clash(ptrs[x], netid, pdet, sameName)
      ensures !added ==> SameArrays() && q == old(q) && plist[..] == old(plist[..])
      ensures SameArrays() || (fresh(links) && fresh(pidLinks) && fresh(plist))
      ensures links.Length == if added && |old(q)| == old(links.Length) then maxptrs else old(links.Length)
      ensures added ==> pind !in old(q) && q == Inserted(old(q), |old(q)|, pind) && 0 <= pind < plist.Length
      ensures added ==>
                plist[pind] == Added(pdet, netid, pind, networkOk) && SameStart(old(q), old(plist[..]), plist[..])
      ensures Symmetric(sameName) && old(AllApart(q, plist[..], sameName)) ==> AllApart(q, plist[..], sameName)
    {
      hide Valid, AllApart, Clash, Symmetric, Grown, Added;
      pind := END;
      var taken := Taken(netid, pdet);
      if taken {
        return false, pind;
      }
      ghost var q0, ptrs := q, plist[..];
      ListedStates();
      pind := AddNew(netid, pdet, maxptrs);
      added := true;
      if Symmetric(sameName) && AllApart(q0, ptrs, sameName) {
        AddedPlace(pdet, netid, pind);
        AddedApart(q0, q, ptrs, plist[..], pind, netid, pdet, plist[pind], sameName);
      }
    }

    lemma AddedPlace(pdet: Ptr, netid: int, pind: int)
      ensures SamePlace(pdet.(netid := netid), Added(pdet, netid, pind, networkOk))
    {
    }

    /** The rest of addptr, when there is no clash */
    method AddNew(netid: int, pdet: Ptr, maxptrs: nat) returns (pind: int)
      requires Valid() && maxptrs > links.Length
      modifies this, links, pidLinks, plist, hashpPid
      ensures Valid()
      ensures pind !in old(q) && q == Inserted(old(q), |old(q)|, pind) && Joins(old(q), q, pind) &&
              0 <= pind < plist.Length
      ensures plist[pind] == Added(pdet, netid, pind, networkOk) && SameStart(old(q), old(plist[..]), plist[..])
      ensures SameArrays() || (fresh(links) && fresh(pidLinks) && fresh(plist))
      ensures links.Length == if |old(q)| == old(links.Length) then maxptrs else old(links.Length)
    {
      hide Chains.Hashed, Chains.Queue, Chains.FreeList, Slots, Listed;
      ValidQueue(0);
      FreeRemains(links.Length, q, free);
      if nptrs >= links.Length {
        Grow(maxptrs);
      }
      FreeRemains(links.Length, q, free);
      ghost var q1 := q;
      pind := Insert(netid, pdet);
      InsertedDistinct(q1, |q1|, pind);
    }

    // ----- chgptr -----

    /** The loop of chgptr along the list */
    method OtherTaken(pind: int, newp: Ptr) returns (taken: bool)
      requires Valid()
      ensures taken <==> exists x :: x in q && 0 <= x < plist.Length && x != pind && Clash(plist[x], 0, newp, sameName)
    {
      hide Valid, Clash;
      ValidQueue(0);
      ghost var k := 0;
      var ind := lHead;
      while ind >= 0
        invariant k <= |q| && ind == At(q, k)
        invariant forall m :: 0 <= m < k ==>
                    0 <= q[m] < plist.Length && (q[m] == pind || !Clash(plist[q[m]], 0, newp, sameName))
        decreases |q| - k
      {
        ValidQueue(k);
        assert q[k] in q;
        if ind != pind && Clash(plist[ind], 0, newp, sameName) {
          return true;
        }
        ind := links[ind].nxt;
        k := k + 1;
      }
      EndOfQueue(q, k);
      return false;
    }

    /** The printer in slot pind becomes p, with the same key. */
    method Rewrite(pind: nat, p: Ptr)
      requires Valid() && pind in q && pind < plist.Length && SameKey(plist[pind], p) &&
               (p.netid == 0 ==> p.state != Null)
      requires p.netid != 0 || p.localNet ||
               !exists x :: x in q && 0 <= x < plist.Length && x != pind && Clash(plist[x], 0, p, sameName)
      modifies plist
      ensures Valid() && plist[..] == old(plist[..])[pind := p]
      ensures Symmetric(sameName) && old(AllApart(q, plist[..], sameName)) ==>
                (AllApart(q, plist[..], sameName) <==>
                    p.netid != 0 || !p.localNet || !NameTaken(q, plist[..], pind, p, sameName))
    {
      hide Chains.Hashed, Chains.Queue, Chains.FreeList, Slots, AllApart, NameTaken, Symmetric, Clash;
      ghost var ptrs := plist[..];
      if Symmetric(sameName) && AllApart(q, ptrs, sameName) {
        ChangedApart(q, ptrs, pind, p, sameName);
      }
      plist[pind] := p;
      assert plist[..] == ptrs[pind := p];
      StillValid(ptrs);
    }

    /** chgptr.  What another host says of its printer is taken over but for the key; a local
        printer gets the key that it has.  Local printers stay apart unless a printer is made
        SPP_LOCALNET and given the name of another: then the code looks for no clash. */
    method ChgPtr(pind: nat, remote: bool, newp: Ptr) returns (news: News)
      requires Valid()
      modifies plist
      ensures Valid() && q == old(q)
      ensures var c := Change(q, old(plist[..]), pind, remote, newp, networkOk, sameName);
              && (c == None ==> plist[..] == old(plist[..]))
              && (c != None ==> pind < plist.Length && plist[..] == old(plist[..])[pind := c.value])
              && (Symmetric(sameName) && old(AllApart(q, plist[..], sameName)) ==>
                    (AllApart(q, plist[..], sameName) <==>
                       c == None || c.value.netid != 0 || !newp.localNet ||
                       !NameTaken(q, plist[..], pind, c.value, sameName)))
      ensures var ptrs := old(plist[..]);
              news == if pind >= plist.Length || ptrs[pind].state == Null then NoNews
                      else if ptrs[pind].netid != 0 then if remote then NoNews else Update(newp)
                      else if Change(q, ptrs, pind, remote, newp, networkOk, sameName) == None then NoNews
                      else if newp.localOnly || !networkOk then if ptrs[pind].localOnly then NoNews else Dropped
                      else if ptrs[pind].localOnly then Announced else Altered
    {
      hide Valid, AllApart, NameTaken, Symmetric, Clash;
      ListedStates();
      ValidQueue(0);
      if pind >= plist.Length {
        return NoNews;
      }
      var cp := plist[pind];
      if cp.state == Null {
        return NoNews;
      }
      ghost var ptrs := plist[..];
      if cp.netid != 0 {
        if !remote {
          return Update(newp);
        }
        Rewrite(pind, newp.(rslot := cp.rslot, netid := cp.netid, jslot := cp.jslot));
        return NoNews;
      }
      if !newp.localNet {
        var taken := OtherTaken(pind, newp);
        if taken {
          return NoNews;
        }
      }
      if cp.pid != 0 {
        return NoNews;
      }
      forall x | 0 <= x < |ptrs| { SameClash(ptrs[x], newp, Changed(newp, pind, networkOk), sameName); }
      Rewrite(pind, Changed(newp, pind, networkOk));
      if cp.localOnly != plist[pind].localOnly {
        return if plist[pind].localOnly then Dropped else Announced;
      }
      return if plist[pind].localOnly then NoNews else Altered;
    }

    // ----- find_pslot -----

    /** The chain that a key hashes to holds the listed printers with that key. */
    lemma OnPidChain(netid: int, slot: int)
      requires Valid()
      ensures var h := pidHash(netid, slot);
              && h < |chains| == hashpPid.Length && plist.Length == pidLinks.Length
              && Chain(pidLinks[..], hashpPid[h], chains[h])
              && (forall i :: i in chains[h] ==> i in q)
              && (forall i :: i in q && 0 <= i < plist.Length && HasId(plist[i], netid, slot) ==> i in chains[h])
    {
      hide Chains.Chain, Chains.Queue, Chains.FreeList, Slots;
      assert forall i :: i in q && 0 <= i < plist.Length && HasId(plist[i], netid, slot) ==>
            Bucket(plist[..])(i) == pidHash(netid, slot);
    }

    /** find_pslot (src/sh_netfeed.c): finds a printer if there is one with the key. */
    method FindPslot(netid: int, slot: int) returns (pind: int)
      requires Valid()
      ensures pind >= 0 ==> pind < plist.Length && HasId(plist[pind], netid, slot) && plist[pind].state != Null
      ensures pind < 0 ==> forall i :: 0 <= i < plist.Length && plist[i].state != Null ==> !HasId(plist[i], netid, slot)
    {
      ListedStates();
      hide Valid;
      OnPidChain(netid, slot);
      var h := pidHash(netid, slot);
      ghost var c, k := chains[h], 0;
      pind := hashpPid[h];
      while pind >= 0
        invariant k <= |c| && pind == At(c, k)
        invariant forall m :: 0 <= m < k ==>
                    0 <= c[m] < plist.Length && !(plist[c[m]].state != Null && HasId(plist[c[m]], netid, slot))
        decreases |c| - k
      {
        ChainNext(pidLinks[..], hashpPid[h], c, k);
        assert c[k] in c;
        if plist[pind].state != Null && HasId(plist[pind], netid, slot) {
          return;
        }
        pind := pidLinks[pind].nxt;
        k := k + 1;
      }
    }

    lemma ListedStates()
      requires Valid()
      ensures forall x :: 0 <= x < plist.Length && plist[x].state != Null ==> x in q
      ensures forall x :: x in q && 0 <= x < plist.Length && plist[x].netid == 0 ==>
                plist[x].state != Null && plist[x].rslot == x
    {
    }
  }

  // ----- A printer that has been added can be found -----

  /** A printer that does nothing: halted, not taken, with no job and no process */
  predicate AtRest(p: Ptr) {
    && p.state == Halt && p.pid == p.job == 0 && p.rjslot == END && p.dflags == {} && Untaken(p)
  }

  predicate Untaken(p: Ptr) {
    p.sflags == {} && p.jslot == END && p.rjhostid == 0
  }

  /** What has been made of a printer that arrived: a local one is at rest; of a printer of another host
      the state is known, and nothing else of what it does. */
  predicate Arrived(pdet: Ptr, p: Ptr, netid: int, networkOk: bool) {
    && SamePlace(pdet.(netid := netid), p)
    && (p.localOnly <==> pdet.localOnly || !networkOk)
    && (netid == 0 ==> AtRest(p))
    && (netid != 0 ==> p.state == pdet.state && p.sflags == pdet.sflags && p.dflags == pdet.dflags)
    && p.job == p.rjhostid == p.pid == 0 && p.jslot == p.rjslot == END
  }

  /** No other local printer has the name of p or is on its device. */
  ghost predicate NoneTaken(q: seq<int>, ptrs: seq<Ptr>, pind: nat, p: Ptr, sameName: (string, string) -> bool) {
    forall x {:trigger ptrs[x]} :: x in q && x != pind && 0 <= x < |ptrs| && ptrs[x].state != Null ==>
      ptrs[x].netid != 0 || (!sameName(ptrs[x].name, p.name) && (ptrs[x].localNet || ptrs[x].dev != p.dev))
  }

  /** What chgptr makes of a printer that it changes: a local one comes to rest in its slot, and one of
      another host stays where it is, with the job that it was given. */
  lemma ChangeRests(q: seq<int>, ptrs: seq<Ptr>, pind: nat, remote: bool, newp: Ptr, networkOk: bool,
                    sameName: (string, string) -> bool)
    ensures var c := Change(q, ptrs, pind, remote, newp, networkOk, sameName);
            c.Some? ==>
              && pind < |ptrs| && ptrs[pind].state != Null && c.value.netid == ptrs[pind].netid
              && SamePlace(newp.(netid := ptrs[pind].netid), c.value)
              && (ptrs[pind].netid != 0 ==>
                    && remote && c.value.rslot == ptrs[pind].rslot && c.value.jslot == ptrs[pind].jslot
                    && c.value.state == newp.state && c.value.sflags == newp.sflags
                    && c.value.localOnly == newp.localOnly)
              && (ptrs[pind].netid == 0 ==>
                    && AtRest(c.value) && c.value.rslot == pind && ptrs[pind].pid == 0
                    && (c.value.localOnly <==> newp.localOnly || !networkOk)
                    && (newp.localNet || NoneTaken(q, ptrs, pind, newp, sameName)))
  {
  }

  /** No printer has the key. */
  ghost predicate KeyFree(q: seq<int>, ptrs: seq<Ptr>, netid: int, rslot: int) {
    forall x :: x in q && 0 <= x < |ptrs| ==> !HasId(ptrs[x], netid, rslot)
  }

  /** addptr and find_pslot: a printer is found by the slot that it came with, or that a local one has
      got, and it is this very one unless another one had the key already. */
  method AddAndFind(seg: PtrSeg, netid: int, pdet: Ptr, maxptrs: nat) returns (added: bool, pind: int, found: int)
    requires seg.Valid() && maxptrs > seg.links.Length
    modifies seg, seg.links, seg.pidLinks, seg.plist, seg.hashpPid
    ensures seg.Valid()
    ensures added ==> pind in seg.q
    ensures added && (netid == 0 || pdet.state != Null) ==>
              && 0 <= found < seg.plist.Length && seg.plist[found].state != Null
              && seg.plist[found].netid == netid && seg.plist[found].rslot == if netid == 0 then pind else pdet.rslot
    ensures added && (netid == 0 || pdet.state != Null) ==>
              KeyFree(old(seg.q), old(seg.plist[..]), netid, if netid == 0 then pind else pdet.rslot) ==> found == pind
    ensures added ==> pind < seg.plist.Length && Arrived(pdet, seg.plist[pind], netid, seg.networkOk)
  {
    hide PtrSeg.Valid, AllApart, Clash;
    ghost var q := seg.q;
    found := END;
    added, pind := seg.AddPtr(netid, pdet, maxptrs);
    if added {
      LastInserted(q, pind);
      seg.ListedStates();
      found := seg.FindPslot(netid, if netid == 0 then pind else pdet.rslot);
    }
  }

  lemma LastInserted(q: seq<int>, i: int)
    ensures forall x :: x in Inserted(q, |q|, i) <==> x in q || x == i
  {
    assert q == q[..|q|];
  }

  // ----- Two printers with one name -----

  /** Two local printers are added, "a" and "b"; the second is then made SPP_LOCALNET and called "a". */
  method SameName() returns (seg: PtrSeg)
    ensures fresh(seg) && seg.Valid() && Symmetric(seg.sameName) && !AllApart(seg.q, seg.plist[..], seg.sameName)
  {
    hide PtrSeg.Valid, AllApart;
    seg := new PtrSeg((_, _) => 0, 1, (a, b) => a == b, true, 2);
    var a, b := FREE_PTR.(name := "a", dev := "x"), FREE_PTR.(name := "b", dev := "y");
    NoneApart(seg.plist[..], seg.sameName);
    var added, first := seg.AddPtr(0, a, 3);
    assert seg.q == [first] && seg.plist[first] == Added(a, 0, first, true);
    var added', second := seg.AddPtr(0, b, 4);
    assert first in seg.q && second in seg.q && seg.plist[first].name == "a";
    var news := seg.ChgPtr(second, false, b.(name := "a", localNet := true));
    assert seg.plist[first].name == "a" && seg.plist[first].netid == 0;
  }

  lemma NoneApart(ptrs: seq<Ptr>, sameName: (string, string) -> bool)
    ensures AllApart([], ptrs, sameName)
  {
  }
}
