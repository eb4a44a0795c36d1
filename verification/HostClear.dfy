/** What is left of a host that has died: nothing in either segment refers to it any more. */
module HostClear {
  import opened Common
  import opened Chains
  import opened Segments
  import opened JobLists
  import opened JobTable
  import opened PrinterTable

  /** A job that was promised to host netid, or assigned to one of its printers */
  predicate Involves(j: Job, netid: int, hosts: seq<Option<int>>) {
    || (SFlag.PROPOSED in j.sflags && j.pslot == HostPlace(netid))
    || AtPrinterOf(j, netid, hosts)
  }

  predicate AtPrinterOf(j: Job, netid: int, hosts: seq<Option<int>>) {
    j.pslot.PtrPlace? && 0 <= j.pslot.slot < |hosts| && hosts[j.pslot.slot] == Some(netid)
  }

  /** Of a job only what ties it to the dead host is forgotten; the flag WARNED stays, and of
      the other flags nothing. */
  ghost predicate Freed(j: Job, j': Job, netid: int, hosts: seq<Option<int>>) {
    if j.netid == 0 && Involves(j, netid, hosts) then
      && j' == j.(sflags := j'.sflags, dflags := j'.dflags, pslot := NoPlace)
      && (forall f :: f in j'.sflags <==> f == WARNED && f in j.sflags)
      && j'.dflags == if SFlag.PROPOSED in j.sflags && j.pslot == HostPlace(netid) then j.dflags else {}
    else j' == j
  }

  lemma JobsForget(q: seq<int>, jobs: seq<Job>, netid: int, hosts: seq<Option<int>>, x: int)
    requires x in KeptSlots(q, jobs, JobOf(netid))
    ensures x in q && 0 <= x < |jobs| && jobs[x].netid != netid
    ensures var j' := ClearedCells(q, jobs, ClearsJob(netid, hosts))[x];
            && Freed(jobs[x], j', netid, hosts)
            && (j'.netid == 0 ==> !Involves(j', netid, hosts))
  {
    KeptExactly(q, jobs, JobOf(netid), x);
  }

  lemma PrintersForget(q: seq<int>, ptrs: seq<Ptr>, netid: int, x: int)
    requires netid != 0 && x in KeptSlots(q, ptrs, PtrOf(netid))
    ensures x in q && 0 <= x < |ptrs| && ptrs[x].netid != netid
    ensures var p' := ClearedCells(q, ptrs, ClearsPtr(netid))[x];
            && p'.netid == ptrs[x].netid
            && (p'.netid == 0 ==> !(PtrProposed(p') && p'.rjhostid == netid))
            && (p'.netid == 0 && PtrProposed(ptrs[x]) && ptrs[x].rjhostid == netid ==>
                  Untaken(p') && SamePlace(ptrs[x], p') && p'.state == ptrs[x].state && p'.pid == ptrs[x].pid)
            && (!(ptrs[x].netid == 0 && PtrProposed(ptrs[x]) && ptrs[x].rjhostid == netid) ==> p' == ptrs[x])
  {
    KeptExactly(q, ptrs, PtrOf(netid), x);
  }

  predicate PtrProposed(p: Ptr) {
    PFlag.PROPOSED in p.sflags
  }

  /** Neither segment refers to the host. */
  ghost predicate Forgotten(jq: seq<int>, jobs: seq<Job>, pq: seq<int>, ptrs: seq<Ptr>, netid: int,
                            hosts: seq<Option<int>>) {
    && (forall x :: x in jq ==>
        0 <= x < |jobs| && jobs[x].netid != netid && (jobs[x].netid == 0 ==> !Involves(jobs[x], netid, hosts)))
    && (forall x :: x in pq ==>
        0 <= x < |ptrs| && ptrs[x].netid != netid &&
        (ptrs[x].netid == 0 ==> !(PtrProposed(ptrs[x]) && ptrs[x].rjhostid == netid)))
  }

  lemma AllForgotten(jq: seq<int>, jobs: seq<Job>, pq: seq<int>, ptrs: seq<Ptr>, netid: int)
    requires netid != 0
    ensures var hosts := HostsOf(ptrs);
            Forgotten(KeptSlots(jq, jobs, JobOf(netid)), ClearedCells(jq, jobs, ClearsJob(netid, hosts)),
                      KeptSlots(pq, ptrs, PtrOf(netid)), ClearedCells(pq, ptrs, ClearsPtr(netid)), netid, hosts)
  {
    forall x | x in KeptSlots(jq, jobs, JobOf(netid))
      ensures 0 <= x < |jobs|
      ensures var j' := ClearedCells(jq, jobs, ClearsJob(netid, HostsOf(ptrs)))[x];
              j'.netid != netid && (j'.netid == 0 ==> !Involves(j', netid, HostsOf(ptrs)))
    {
      JobsForget(jq, jobs, netid, HostsOf(ptrs), x);
    }
    forall x | x in KeptSlots(pq, ptrs, PtrOf(netid))
      ensures 0 <= x < |ptrs|
      ensures var p' := ClearedCells(pq, ptrs, ClearsPtr(netid))[x];
              p'.netid != netid && (p'.netid == 0 ==> !(PtrProposed(p') && p'.rjhostid == netid))
    {
      PrintersForget(pq, ptrs, netid, x);
    }
  }

  /** The two clearing routines in the order that matters: net_jclear looks at the printers that
      net_pclear takes away. */
  method Clear(jseg: JobSeg, pseg: PtrSeg, netid: int)
    requires netid != 0 && jseg.Valid() && pseg.Valid()
    requires {jseg.links, jseg.jnoLinks, jseg.jidLinks} !! {pseg.links, pseg.pidLinks}
    requires jseg.hashpJno != pseg.hashpPid && jseg.hashpJid != pseg.hashpPid
    modifies jseg, jseg.links, jseg.jnoLinks, jseg.jidLinks, jseg.jlist, jseg.hashpJno, jseg.hashpJid
    modifies pseg, pseg.links, pseg.pidLinks, pseg.plist, pseg.hashpPid
    ensures jseg.Valid() && pseg.Valid()
    ensures jseg.q == KeptSlots(old(jseg.q), old(jseg.jlist[..]), JobOf(netid))
    ensures pseg.q == KeptSlots(old(pseg.q), old(pseg.plist[..]), PtrOf(netid))
    ensures Forgotten(jseg.q, jseg.jlist[..], pseg.q, pseg.plist[..], netid, HostsOf(old(pseg.plist[..])))
  {
    hide JobSeg.Valid, PtrSeg.Valid, Forgotten, KeptSlots, ClearedCells;
    AllForgotten(jseg.q, jseg.jlist[..], pseg.q, pseg.plist[..], netid);
    jseg.NetJclear(netid, HostsOf(pseg.plist[..]));
    pseg.NetPclear(netid);
  }
}
