/**
 The table of other hosts (src/sh_network.c): records found through hash chains, a list of the
 connections, a list of the pending probes, and the number of connections still to be
 synchronised.  Records are named by their addresses; `remotes` holds those that are allocated,
 so that looking one up is only possible while it is.
 */
module ConnTable {
  import opened Common
  import opened Chains

  datatype Sync = NsyncNone | NsyncReq | NsyncOk

  datatype Remote = Remote(hostid: int, sockfd: int, isClient: bool, probed: bool, connected: bool, notServer: bool,
                           isSync: Sync, timeout: nat, lastwrite: int, seqto: nat)

  /** A message that was written, or for which the write failed */
  datatype Attempt = Attempt(rp: int, seq_: nat, ok: bool)

  type Remotes = map<int, Remote>

  // ----- Lists of records -----

  /** The place of rp in l, or the length of l */
  function IndexOf(l: seq<int>, rp: int): (k: nat)
    ensures k <= |l| && (k < |l| ==> l[k] == rp) && (k < |l| <==> rp in l)
  {
    if l == [] || l[0] == rp then 0 else 1 + IndexOf(l[1..], rp)
  }

  /** free_remlist: the last element takes the place of the one that goes. */
  function SwapOut(l: seq<int>, k: nat): seq<int>
    requires k < |l|
  {
    if k == |l| - 1 then l[..k] else l[k := l[|l| - 1]][..|l| - 1]
  }

  lemma SwapOutRest(l: seq<int>, k: nat)
    requires Distinct(l) && k < |l|
    ensures Distinct(SwapOut(l, k)) && forall x :: x in SwapOut(l, k) <==> x in l && x != l[k]
    ensures |SwapOut(l, k)| == |l| - 1 && SwapOut(l, k)[..k] == l[..k]
  {
    var w := SwapOut(l, k);
    forall x
      ensures x in w <==> x in l && x != l[k]
    {
      if x in l && x != l[k] {
        var m :| 0 <= m < |l| && l[m] == x;
        assert w[if m == |l| - 1 then k else m] == x;
      }
      if x in w {
        var m :| 0 <= m < |w| && w[m] == x;
        assert l[if m == k then |l| - 1 else m] == x;
      }
    }
  }

  // ----- What holds between the parts of the table -----

  /** Each record is on the chain of its host, once, and nothing else is. */
  ghost predicate Chained(hashtab: seq<seq<int>>, remotes: Remotes, nhash: int -> nat) {
    && (forall b :: 0 <= b < |hashtab| ==> Distinct(hashtab[b]))
    && (forall b, r :: 0 <= b < |hashtab| && r in hashtab[b] ==> r in remotes && nhash(remotes[r].hostid) == b)
    && (forall r :: r in remotes ==> nhash(remotes[r].hostid) < |hashtab| && r in hashtab[nhash(remotes[r].hostid)])
  }

  ghost predicate Connections(l: seq<int>, remotes: Remotes) {
    Distinct(l) && forall r :: r in l <==> r in remotes && remotes[r].connected
  }

  /** ... of which there is at most one to a host */
  ghost predicate Probes(l: seq<int>, remotes: Remotes) {
    && Distinct(l) && (forall r :: r in l <==> r in remotes && remotes[r].probed)
    && (forall r, r' :: r in l && r' in l && remotes[r].hostid == remotes[r'].hostid ==> r == r')
  }

  /** The chain c, threaded through the records from the head of a bucket on */
  ghost predicate Thread(head: int, hashNext: map<int, int>, c: seq<int>) {
    && head == At(c, 0)
    && forall k :: 0 <= k < |c| ==> 0 <= c[k] && c[k] in hashNext && hashNext[c[k]] == At(c, k + 1)
  }

  ghost predicate Threaded(heads: seq<int>, hashNext: map<int, int>, chains: seq<seq<int>>) {
    |heads| == |chains| && forall b :: 0 <= b < |heads| ==> Thread(heads[b], hashNext, chains[b])
  }

  lemma ThreadSame(head: int, hashNext: map<int, int>, hashNext': map<int, int>, c: seq<int>)
    requires Thread(head, hashNext, c)
    requires forall x :: x in c && x in hashNext ==> x in hashNext' && hashNext'[x] == hashNext[x]
    ensures Thread(head, hashNext', c)
  {
    hide At;
  }

  /** Where the pointer to an element of a chain is, and what is there without the element */
  lemma ThreadCut(head: int, hashNext: map<int, int>, c: seq<int>, k: nat)
    requires Thread(head, hashNext, c) && Distinct(c) && k < |c|
    ensures c[k] in hashNext
    ensures k == 0 ==> Thread(hashNext[c[0]], hashNext, Without(c, 0))
    ensures k > 0 ==> Thread(head, hashNext[c[k - 1] := hashNext[c[k]]], Without(c, k))
  {
    hide At;
    var w := Without(c, k);
    var next' := if k > 0 then hashNext[c[k - 1] := hashNext[c[k]]] else hashNext;
    AtCut(c, k, 0);
    forall m | 0 <= m < |w|
      ensures 0 <= w[m] && w[m] in next' && next'[w[m]] == At(w, m + 1)
    {
      AtCut(c, k, m);
      AtCut(c, k, m + 1);
      AtPlace(c, k);
    }
  }

  lemma AtPlace(c: seq<int>, k: nat)
    requires k < |c|
    ensures At(c, k) == c[k]
  {
  }

  lemma AtCut(c: seq<int>, k: nat, m: nat)
    requires k < |c|
    ensures At(Without(c, k), m) == At(c, if m < k then m else m + 1)
    ensures m < |c| - 1 ==> Without(c, k)[m] == c[if m < k then m else m + 1]
    ensures |Without(c, k)| == |c| - 1
  {
  }

  lemma ThreadPush(head: int, hashNext: map<int, int>, c: seq<int>, rp: int)
    requires Thread(head, hashNext, c) && rp !in c && rp >= 0
    ensures Thread(rp, hashNext[rp := head], [rp] + c)
  {
    var w := [rp] + c;
    forall m | 0 <= m < |w|
      ensures 0 <= w[m] && w[m] in hashNext[rp := head] && hashNext[rp := head][w[m]] == At(w, m + 1)
    {
      if m > 0 {
        assert w[m] == c[m - 1] && At(w, m + 1) == At(c, m);
      }
    }
  }

  lemma ThreadHead(head: int, hashNext: map<int, int>, c: seq<int>)
    requires Thread(head, hashNext, c)
    ensures head == At(c, 0) && (head == END <==> |c| == 0)
  {
  }

  lemma ThreadStep(head: int, hashNext: map<int, int>, c: seq<int>, k: nat)
    requires Thread(head, hashNext, c) && k <= |c|
    ensures At(c, k) == END <==> k == |c|
    ensures k < |c| ==> At(c, k) == c[k] && c[k] in hashNext && hashNext[c[k]] == At(c, k + 1)
  {
  }

  lemma ThreadedCut(heads: seq<int>, hashNext: map<int, int>, chains: seq<seq<int>>, b: nat, k: nat)
    requires Threaded(heads, hashNext, chains) && b < |chains| && k < |chains[b]| && Distinct(chains[b])
    requires forall b', x :: 0 <= b' < |chains| && b' != b && x in chains[b'] ==> x !in chains[b]
    ensures chains[b][k] in hashNext && |heads| == |chains|
    ensures var c, chains' := chains[b], chains[b := Without(chains[b], k)];
            if k == 0 then Threaded(heads[b := hashNext[c[0]]], hashNext, chains')
            else Threaded(heads, hashNext[c[k - 1] := hashNext[c[k]]], chains')
  {
    hide Thread, Without;
    var c := chains[b];
    ThreadCut(heads[b], hashNext, c, k);
    if k > 0 {
      var hashNext' := hashNext[c[k - 1] := hashNext[c[k]]];
      forall b' | 0 <= b' < |chains| && b' != b
        ensures Thread(heads[b'], hashNext', chains[b'])
      {
        assert c[k - 1] in c;
        ThreadSame(heads[b'], hashNext, hashNext', chains[b']);
      }
    }
  }

  lemma ThreadedPush(heads: seq<int>, hashNext: map<int, int>, chains: seq<seq<int>>, b: nat, rp: int)
    requires Threaded(heads, hashNext, chains) && b < |chains| && rp >= 0
    requires forall b :: 0 <= b < |chains| ==> rp !in chains[b]
    ensures |heads| == |chains|
    ensures Threaded(heads[b := rp], hashNext[rp := heads[b]], chains[b := [rp] + chains[b]])
  {
    hide Thread;
    ThreadPush(heads[b], hashNext, chains[b], rp);
    forall b' | 0 <= b' < |chains| && b' != b
      ensures Thread(heads[b'], hashNext[rp := heads[b]], chains[b'])
    {
      ThreadSame(heads[b'], hashNext, hashNext[rp := heads[b]], chains[b']);
    }
  }

  lemma ThreadedFreed(heads: seq<int>, hashNext: map<int, int>, chains: seq<seq<int>>, rp: int)
    requires Threaded(heads, hashNext, chains) && forall b :: 0 <= b < |chains| ==> rp !in chains[b]
    ensures Threaded(heads, hashNext - {rp}, chains)
  {
    hide Thread;
    forall b | 0 <= b < |chains|
      ensures Thread(heads[b], hashNext - {rp}, chains[b])
    {
      ThreadSame(heads[b], hashNext, hashNext - {rp}, chains[b]);
    }
  }

  /** Two chains have no record in common. */
  lemma ChainsApart(hashtab: seq<seq<int>>, remotes: Remotes, nhash: int -> nat, b: nat)
    requires Chained(hashtab, remotes, nhash) && b < |hashtab|
    ensures Distinct(hashtab[b])
    ensures forall b', x :: 0 <= b' < |hashtab| && b' != b && x in hashtab[b'] ==> x !in hashtab[b]
  {
    forall b', x | 0 <= b' < |hashtab| && b' != b && x in hashtab[b']
      ensures x !in hashtab[b]
    {
      assert nhash(remotes[x].hostid) == b';
    }
  }

  lemma ChainOf(hashtab: seq<seq<int>>, remotes: Remotes, nhash: int -> nat, netid: int)
    requires Chained(hashtab, remotes, nhash) && nhash(netid) < |hashtab|
    ensures forall r :: r in hashtab[nhash(netid)] ==> r in remotes
    ensures forall r :: r in remotes && remotes[r].hostid == netid ==> r in hashtab[nhash(netid)]
  {
  }

  lemma OffChains(hashtab: seq<seq<int>>, remotes: Remotes, nhash: int -> nat, rp: int)
    requires Chained(hashtab, remotes, nhash) && rp !in remotes
    ensures forall b :: 0 <= b < |hashtab| ==> rp !in hashtab[b]
  {
  }

  /** The sockets of the connections, of which no two have the same */
  ghost function SocketsOf(remotes: Remotes): set<int> {
    set r | r in remotes && remotes[r].connected :: remotes[r].sockfd
  }

  ghost predicate Sockets(open: set<int>, remotes: Remotes) {
    && open == SocketsOf(remotes)
    && forall r, r' ::
      r in remotes && r' in remotes && remotes[r].connected && remotes[r'].connected ==>
        remotes[r].sockfd == remotes[r'].sockfd ==> r == r'
  }

  lemma SocketsWithout(open: set<int>, remotes: Remotes, rp: int)
    requires Sockets(open, remotes) && rp in remotes
    ensures Sockets(if remotes[rp].connected then open - {remotes[rp].sockfd} else open, remotes - {rp})
  {
    var open' := if remotes[rp].connected then open - {remotes[rp].sockfd} else open;
    forall s
      ensures s in open' <==> s in SocketsOf(remotes - {rp})
    {
      if s in open' {
        var r :| r in remotes && remotes[r].connected && remotes[r].sockfd == s;
        assert r in remotes - {rp};
      }
    }
  }

  lemma SocketsChanged(open: set<int>, remotes: Remotes, rp: int, rec: Remote)
    requires Sockets(open, remotes) && rp in remotes && rec.connected == remotes[rp].connected &&
             rec.sockfd == remotes[rp].sockfd
    ensures Sockets(open, remotes[rp := rec])
  {
    forall s
      ensures s in open <==> s in SocketsOf(remotes[rp := rec])
    {
      if s in open {
        var r :| r in remotes && remotes[r].connected && remotes[r].sockfd == s;
        assert r in remotes[rp := rec];
      }
    }
  }

  lemma SocketsWith(open: set<int>, remotes: Remotes, rp: int, rec: Remote)
    requires Sockets(open, remotes) && (rp !in remotes || !remotes[rp].connected) &&
             (rec.connected ==> rec.sockfd !in open)
    ensures Sockets(if rec.connected then open + {rec.sockfd} else open, remotes[rp := rec])
  {
    var open', remotes' := if rec.connected then open + {rec.sockfd} else open, remotes[rp := rec];
    forall s
      ensures s in open' <==> s in SocketsOf(remotes')
    {
      if s in open' {
        if s in open {
          var r :| r in remotes && remotes[r].connected && remotes[r].sockfd == s;
          assert r in remotes';
        } else {
          assert rp in remotes';
        }
      }
    }
    forall r, r' | r in remotes' && r' in remotes' && remotes'[r].connected && remotes'[r'].connected &&
      remotes'[r].sockfd == remotes'[r'].sockfd
      ensures r == r'
    {
      assert r != rp ==> remotes[r].sockfd in open;
      assert r' != rp ==> remotes[r'].sockfd in open;
    }
  }

  /** The connections that are not synchronised */
  ghost function Unsynced(remotes: Remotes): set<int> {
    set r | r in remotes && remotes[r].connected && remotes[r].isSync != NsyncOk
  }

  lemma ChainedWithout(hashtab: seq<seq<int>>, remotes: Remotes, nhash: int -> nat, rp: int, k: nat)
    requires Chained(hashtab, remotes, nhash) && rp in remotes
    requires k < |hashtab[nhash(remotes[rp].hostid)]| && hashtab[nhash(remotes[rp].hostid)][k] == rp
    ensures var b := nhash(remotes[rp].hostid);
            Chained(hashtab[b := Without(hashtab[b], k)], remotes - {rp}, nhash)
  {
    WithoutDistinct(hashtab[nhash(remotes[rp].hostid)], k);
  }

  lemma ChainedWith(hashtab: seq<seq<int>>, remotes: Remotes, nhash: int -> nat, rp: int, rec: Remote)
    requires Chained(hashtab, remotes, nhash) && rp !in remotes && nhash(rec.hostid) < |hashtab|
    ensures var b := nhash(rec.hostid); Chained(hashtab[b := [rp] + hashtab[b]], remotes[rp := rec], nhash)
  {
    var b := nhash(rec.hostid);
    assert rp !in hashtab[b];
    assert forall x :: x in [rp] + hashtab[b] <==> x == rp || x in hashtab[b];
  }

  lemma ChainedSame(hashtab: seq<seq<int>>, remotes: Remotes, nhash: int -> nat, rp: int, rec: Remote)
    requires Chained(hashtab, remotes, nhash) && rp in remotes && rec.hostid == remotes[rp].hostid
    ensures Chained(hashtab, remotes[rp := rec], nhash)
  {
  }

  lemma ConnectionsWith(l: seq<int>, remotes: Remotes, rp: int, rec: Remote)
    requires Connections(l, remotes) && (rp in remotes ==> !remotes[rp].connected)
    ensures Connections(if rec.connected then l + [rp] else l, remotes[rp := rec])
  {
    var w := l + [rp];
    assert forall x :: x in w <==> x in l || x == rp;
  }

  lemma ConnectionsWithout(l: seq<int>, remotes: Remotes, rp: int)
    requires Connections(l, remotes) && rp in remotes
    ensures remotes[rp].connected <==> rp in l
    ensures Connections(if rp in l then SwapOut(l, IndexOf(l, rp)) else l, remotes - {rp})
  {
    if rp in l {
      hide SwapOut;
      SwapOutRest(l, IndexOf(l, rp));
    }
  }

  lemma ConnectionsSame(l: seq<int>, remotes: Remotes, rp: int, rec: Remote)
    requires Connections(l, remotes) && rp in remotes && rec.connected == remotes[rp].connected
    ensures Connections(l, remotes[rp := rec])
  {
  }

  lemma ProbesWith(l: seq<int>, remotes: Remotes, rp: int, rec: Remote)
    requires Probes(l, remotes) && rp !in remotes
    requires rec.probed ==> forall r :: r in remotes && remotes[r].probed ==> remotes[r].hostid != rec.hostid
    ensures Probes(if rec.probed then l + [rp] else l, remotes[rp := rec])
  {
    var w := l + [rp];
    assert forall x :: x in w <==> x in l || x == rp;
  }

  lemma ProbesWithout(l: seq<int>, remotes: Remotes, rp: int)
    requires Probes(l, remotes) && rp in remotes
    ensures remotes[rp].probed <==> rp in l
    ensures Probes(if rp in l then SwapOut(l, IndexOf(l, rp)) else l, remotes - {rp})
  {
    if rp in l {
      hide SwapOut;
      SwapOutRest(l, IndexOf(l, rp));
    }
  }

  lemma ProbesSame(l: seq<int>, remotes: Remotes, rp: int, rec: Remote)
    requires Probes(l, remotes) && rp in remotes && rec.probed == remotes[rp].probed && rec.hostid == remotes[rp].hostid
    ensures Probes(l, remotes[rp := rec])
  {
  }

  /** A probe that is a probe no more */
  lemma ProbesLess(l: seq<int>, remotes: Remotes, rp: int, rec: Remote)
    requires Probes(l, remotes) && rp in remotes && remotes[rp].probed && !rec.probed
    ensures rp in l && Distinct(l) && Probes(SwapOut(l, IndexOf(l, rp)), remotes[rp := rec]) &&
            rp !in SwapOut(l, IndexOf(l, rp))
  {
    hide SwapOut;
    SwapOutRest(l, IndexOf(l, rp));
  }

  lemma DistinctLists(l: seq<int>, p: seq<int>, remotes: Remotes)
    requires Connections(l, remotes) && Probes(p, remotes)
    ensures Distinct(l) && Distinct(p)
  {
  }

  lemma UnsyncedWithout(remotes: Remotes, rp: int)
    requires rp in remotes
    ensures |Unsynced(remotes - {rp})| ==
            |Unsynced(remotes)| - if remotes[rp].connected && remotes[rp].isSync != NsyncOk then 1 else 0
  {
    assert Unsynced(remotes - {rp}) == Unsynced(remotes) - {rp};
  }

  lemma UnsyncedChanged(remotes: Remotes, rp: int, rec: Remote)
    ensures rp in Unsynced(remotes) <==> rp in remotes && remotes[rp].connected && remotes[rp].isSync != NsyncOk
    ensures |Unsynced(remotes[rp := rec])| ==
            |Unsynced(remotes)| - (if rp in Unsynced(remotes) then 1 else 0)
            + if rec.connected && rec.isSync != NsyncOk then 1 else 0
  {
    hide Unsynced;
    UnsyncedOthers(remotes, rp, rec);
    SizeWithout(Unsynced(remotes), rp);
    SizeWithout(Unsynced(remotes[rp := rec]), rp);
  }

  lemma UnsyncedOthers(remotes: Remotes, rp: int, rec: Remote)
    ensures Unsynced(remotes[rp := rec]) - {rp} == Unsynced(remotes) - {rp}
    ensures rp in Unsynced(remotes) <==> rp in remotes && remotes[rp].connected && remotes[rp].isSync != NsyncOk
    ensures rp in Unsynced(remotes[rp := rec]) <==> rec.connected && rec.isSync != NsyncOk
  {
  }

  lemma SizeWithout(u: set<int>, x: int)
    ensures |u - {x}| == |u| - if x in u then 1 else 0
  {
  }

  // ----- The log of writes -----

  function Tried(log: seq<Attempt>): seq<int> {
    seq(|log|, k requires 0 <= k < |log| => log[k].rp)
  }

  predicate Failed(log: seq<Attempt>, rp: int) {
    exists k :: 0 <= k < |log| && log[k].rp == rp && !log[k].ok
  }

  function Reverse(l: seq<int>): (r: seq<int>)
    ensures |r| == |l|
  {
    seq(|l|, k requires 0 <= k < |l| => l[|l| - 1 - k])
  }

  // ----- Writing -----

  /** How many of `length` bytes the n-th write takes, when it takes any */
  function Taken(takes: nat -> nat, n: nat, length: nat): nat {
    if takes(n) < length then takes(n) else length
  }

  /** Do the writes from the n-th on get `length` bytes through? */
  predicate Through(takes: nat -> nat, n: nat, length: nat)
    decreases length
  {
    length == 0 || (takes(n) > 0 && Through(takes, n + 1, length - Taken(takes, n, length)))
  }

  /** Where the pointer to a record of a hash chain is */
  datatype Pointer = Head(b: nat) | NextOf(rp: int)

  lemma LogMore(was: seq<Attempt>, log: seq<Attempt>, more: seq<Attempt>)
    ensures was + (log + more) == (was + log) + more
  {
  }

  lemma LogNone(was: seq<Attempt>)
    ensures was + [] == was
  {
  }

  lemma ReverseMore(l: seq<int>, k: nat)
    requires k < |l|
    ensures Reverse(l[k..]) == Reverse(l[k + 1..]) + [l[k]]
  {
  }

  lemma AllTried(l: seq<int>, remotes: Remotes)
    ensures Reverse(l[|l|..]) == [] && l[0..] == l && Numbered([], remotes)
  {
  }

  class Network {
    const nhash: int -> nat         // calcnhash
    const takes: nat -> nat         // how many bytes the n-th write takes at most; 0 is an error
    const netmsg: nat               // the size of a message

    var remotes: Remotes
    var heads: seq<int>             // hashtab
    var hashNext: map<int, int>     // hash_next of the records
    ghost var hashtab: seq<seq<int>>
    var open: set<int>              // the sockets of connections
    var writes: nat                 // calls of write so far
    var probed: seq<int>
    var connected: seq<int>
    var netsyncReq: int             // Netsync_req
    var wrote: seq<Attempt>
    var next: nat                   // an address that was not used before

    constructor (nhash: int -> nat, takes: nat -> nat, nbuckets: nat, netmsg: nat)
      requires forall h :: nhash(h) < nbuckets
      ensures Valid() && remotes == map[] && wrote == [] && connected == [] && probed == [] && open == {}
    {
      this.nhash, this.takes, this.netmsg := nhash, takes, netmsg;
      remotes, heads, hashNext, open, writes := map[], seq(nbuckets, _ => END), map[], {}, 0;
      hashtab, probed, connected, netsyncReq, wrote, next := seq(nbuckets, _ => []), [], [], 0, [], 0;
    }

    ghost predicate Valid()
      reads this
    {
      && (forall h :: nhash(h) < |hashtab|)
      && Chained(hashtab, remotes, nhash)
      && Threaded(heads, hashNext, hashtab)
      && Sockets(open, remotes)
      && Connections(connected, remotes)
      && Probes(probed, remotes)
      && netsyncReq == |Unsynced(remotes)|
      && (forall r :: r in remotes ==> r < next && !(remotes[r].connected && remotes[r].probed))
    }

    /** free_chain; that the record is on its chain means that it is found. */
    method FreeChain(rp: int)
      requires Chained(hashtab, remotes, nhash) && Threaded(heads, hashNext, hashtab)
      requires rp in remotes && nhash(remotes[rp].hostid) < |hashtab| && rp in hashtab[nhash(remotes[rp].hostid)]
      modifies this`hashtab, this`heads, this`hashNext
      ensures var b := nhash(remotes[rp].hostid);
              hashtab == old(hashtab)[b := Without(old(hashtab)[b], IndexOf(old(hashtab)[b], rp))]
      ensures Chained(hashtab, remotes - {rp}, nhash) && Threaded(heads, hashNext - {rp}, hashtab)
    {
      hide Chained, Thread, IndexOf, Without, At;
      var b := nhash(remotes[rp].hostid);
      ghost var c, k := hashtab[b], 0;
      ChainsApart(hashtab, remotes, nhash, b);
      ThreadHead(heads[b], hashNext, c);
      ghost var head, next0 := heads[b], hashNext;
      var rpp, pp := Head(b), heads[b];
      while pp != END && pp != rp
        invariant heads == old(heads) && hashNext == next0 && hashtab == old(hashtab) && k <= |c| && pp == At(c, k) &&
                  rpp == if k == 0 then Head(b) else NextOf(c[k - 1])
        invariant forall m :: 0 <= m < k ==> c[m] != rp
        invariant pp == END <==> k == |c|
        decreases |c| - k
      {
        ThreadStep(head, next0, c, k);
        rpp := NextOf(pp);
        pp := hashNext[pp];
        k := k + 1;
        ThreadStep(head, next0, c, k);
      }
      if pp != END {
        ThreadStep(head, next0, c, k);
        InPlace(c, k);
        ThreadedCut(heads, hashNext, hashtab, b, k);
        ChainedWithout(hashtab, remotes, nhash, rp, k);
        match rpp {
          case Head(_) => heads := heads[b := hashNext[rp]];
          case NextOf(prev) => hashNext := hashNext[prev := hashNext[rp]];
        }
        hashtab := hashtab[b := Without(c, k)];
        OffChains(hashtab, remotes - {rp}, nhash, rp);
        ThreadedFreed(heads, hashNext, hashtab, rp);
      }
    }

    /** free_remlist, on either list: the list without rp, if it was there */
    static method FreeRemlist(l: seq<int>, rp: int) returns (l': seq<int>)
      requires Distinct(l)
      ensures l' == if rp in l then SwapOut(l, IndexOf(l, rp)) else l
    {
      var cnt := |l| - 1;
      while cnt >= 0
        invariant -1 <= cnt < |l| && rp !in l[cnt + 1..]
      {
        if l[cnt] == rp {
          assert IndexOf(l, rp) == cnt;
          return SwapOut(l, cnt);
        }
        cnt := cnt - 1;
      }
      assert l[0..] == l;
      l' := l;
    }

    /** deallochost, but for the clearing of the jobs and printers of the host */
    method DeallocHost(rp: int)
      requires Valid() && rp in remotes
      modifies this`remotes, this`hashtab, this`heads, this`hashNext, this`open, this`connected, this`probed,
               this`netsyncReq
      ensures open == if old(remotes)[rp].connected then old(open) - {old(remotes)[rp].sockfd} else old(open)
      ensures Valid() && remotes == old(remotes) - {rp}
      ensures netsyncReq == old(netsyncReq)
                            - if old(remotes)[rp].connected && old(remotes)[rp].isSync != NsyncOk then 1 else 0
      ensures connected == if old(remotes)[rp].connected then SwapOut(old(connected), IndexOf(old(connected), rp))
                           else old(connected)
      ensures probed == if old(remotes)[rp].probed then SwapOut(old(probed), IndexOf(old(probed), rp)) else old(probed)
    {
      hide Chained, Threaded, Sockets, Connections, Probes, SwapOut, IndexOf, Unsynced, Without;
      ConnectionsWithout(connected, remotes, rp);
      ProbesWithout(probed, remotes, rp);
      DistinctLists(connected, probed, remotes);
      UnsyncedWithout(remotes, rp);
      SocketsWithout(open, remotes, rp);
      OnChain(rp);
      FreeChain(rp);
      if remotes[rp].connected {
        open := open - {remotes[rp].sockfd};
        if remotes[rp].isSync != NsyncOk {
          netsyncReq := netsyncReq - 1;
        }
        connected := FreeRemlist(connected, rp);
      }
      if remotes[rp].probed {
        probed := FreeRemlist(probed, rp);
      }
      remotes := remotes - {rp};
      hashNext := hashNext - {rp};
    }

    lemma OnChain(rp: int)
      requires Valid() && rp in remotes
      ensures nhash(remotes[rp].hostid) < |hashtab| && rp in hashtab[nhash(remotes[rp].hostid)]
    {
    }

    /** A record changes in place, but not its host or its flags. */
    method Change(rp: int, rec: Remote)
      requires Valid() && rp in remotes
      requires rec.hostid == remotes[rp].hostid && rec.connected == remotes[rp].connected &&
               rec.probed == remotes[rp].probed
      requires rec.isSync == NsyncOk <==> remotes[rp].isSync == NsyncOk
      requires rec.sockfd == remotes[rp].sockfd
      modifies this`remotes
      ensures Valid() && remotes == old(remotes)[rp := rec]
    {
      hide Chained, Threaded, Sockets, Connections, Probes, Unsynced;
      SocketsChanged(open, remotes, rp, rec);
      ConnectionsSame(connected, remotes, rp, rec);
      ProbesSame(probed, remotes, rp, rec);
      ChainedSame(hashtab, remotes, nhash, rp, rec);
      UnsyncedChanged(remotes, rp, rec);
      remotes := remotes[rp := rec];
    }

    /** The loop of chk_write: short writes are gone on with. */
    method WriteAll(size: nat) returns (ok: bool)
      modifies this`writes
      ensures ok == Through(takes, old(writes), size)
    {
      var length: nat := size;
      while length != 0
        invariant length <= size && Through(takes, writes, length) == Through(takes, old(writes), size)
        decreases length
      {
        var nbytes := Taken(takes, writes, length);
        writes := writes + 1;
        if nbytes == 0 {
          return false;
        }
        length := length - nbytes;
      }
      ok := true;
    }

    /** chk_write, with the number that the message carries */
    method ChkWrite(rp: int, size: nat, now: int) returns (ok: bool)
      requires Valid() && rp in remotes && remotes[rp].connected
      modifies this`remotes, this`hashtab, this`heads, this`hashNext, this`open, this`connected, this`probed,
               this`netsyncReq, this`wrote, this`writes
      ensures Valid() && probed == old(probed)
      ensures wrote == old(wrote) + [Attempt(rp, old(remotes)[rp].seqto, ok)] && ok == Through(takes, old(writes), size)
      ensures open == if ok then old(open) else old(open) - {old(remotes)[rp].sockfd}
      ensures ok ==> connected == old(connected) && remotes == old(remotes)[rp := Written(old(remotes)[rp], now)]
      ensures !ok ==>
                connected == SwapOut(old(connected), IndexOf(old(connected), rp)) && remotes == old(remotes) - {rp}
    {
      hide Chained, Threaded, Sockets, Connections, Probes, Unsynced, SwapOut, IndexOf, Through;
      ok := WriteAll(size);
      wrote := wrote + [Attempt(rp, remotes[rp].seqto, ok)];
      if !ok {
        DeallocHost(rp);
        return;
      }
      Change(rp, Written(remotes[rp], now));
    }

    lemma Starts(now: int)
      requires Valid()
      ensures Untouched(connected, remotes, [], |connected| - 1, connected, remotes) &&
              Sent(connected, remotes, [], connected, remotes, now)
    {
      forall k | 0 <= k < |connected|
        ensures Same(remotes, remotes, connected[k])
      {
        assert connected[k] in connected;
      }
    }

    /** A write to the connection at place cnt.  If it fails, an entry that has been dealt with
        already is put there. */
    method WriteAt(cnt: int, size: nat, now: int, ghost l0: seq<int>, ghost remotes0: Remotes,
                   ghost log: seq<Attempt>)
      returns (ghost a: Attempt)
      requires Valid() && 0 <= cnt < |l0| && Distinct(l0) && Untouched(l0, remotes0, log, cnt, connected, remotes) &&
               Sent(l0, remotes0, log, connected, remotes, now)
      modifies this`remotes, this`hashtab, this`heads, this`hashNext, this`open, this`connected, this`probed,
               this`netsyncReq, this`wrote, this`writes
      ensures Valid() && probed == old(probed) && wrote == old(wrote) + [a]
      ensures a.rp == l0[cnt] && a.rp in remotes0 && a.seq_ == remotes0[a.rp].seqto
      ensures Untouched(l0, remotes0, log + [a], cnt - 1, connected, remotes) &&
              Sent(l0, remotes0, log + [a], connected, remotes, now)
    {
      hide Chained, Threaded, Sockets, Probes, Unsynced, Untouched, Sent, SwapOut, Written, AfterWrite;
      Onward(l0, remotes0, log, cnt);
      var rp := connected[cnt];
      WrittenIs(remotes[rp], now);
      ghost var connected0, remotes1 := connected, remotes;
      InPlace(connected, cnt);
      SwapOutRest(connected, cnt);
      ghost var seq_ := remotes[rp].seqto;
      var ok := ChkWrite(rp, size, now);
      a := Attempt(rp, seq_, ok);
      UntouchedMore(l0, remotes0, log, cnt, connected0, remotes1, a, connected, remotes);
      SentMore(l0, remotes0, log, connected0, remotes1, a, connected, remotes, now);
    }

    lemma Onward(l0: seq<int>, remotes0: Remotes, log: seq<Attempt>, cnt: nat)
      requires cnt < |l0| && Untouched(l0, remotes0, log, cnt, connected, remotes)
      ensures cnt < |connected|
      ensures Untouched(l0, remotes0, log, cnt - 1, connected, remotes) && connected[cnt] == l0[cnt] &&
              Same(remotes0, remotes, l0[cnt]) && l0[cnt] !in Tried(log)
    {
      assert connected[..cnt + 1][..cnt] == l0[..cnt + 1][..cnt];
      assert connected[..cnt + 1][cnt] == l0[..cnt + 1][cnt];
      assert connected[..cnt] == connected[..cnt + 1][..cnt] && l0[..cnt] == l0[..cnt + 1][..cnt];
    }

    /** broadcast: one write to each connection there was at the start, the last one first, each
        with the sequence number of its own. */
    method Broadcast(size: nat, now: int) returns (ghost log: seq<Attempt>)
      requires Valid()
      modifies this`remotes, this`hashtab, this`heads, this`hashNext, this`open, this`connected, this`probed,
               this`netsyncReq, this`wrote, this`writes
      ensures Valid() && probed == old(probed) && wrote == old(wrote) + log
      ensures Tried(log) == Reverse(old(connected))
      ensures Numbered(log, old(remotes)) && Sent(old(connected), old(remotes), log, connected, remotes, now)
    {
      hide Valid, Sent, Untouched, Failed, Tried, Reverse, Numbered;
      ValidConnections();
      var cnt := |connected| - 1;
      log := [];
      Starts(now);
      NothingTried();
      ghost var l0, remotes0 := connected, remotes;
      AllTried(l0, remotes0);
      LogNone(wrote);
      while cnt >= 0
        invariant -1 <= cnt < |l0| && Valid() && probed == old(probed) && wrote == old(wrote) + log
        invariant Untouched(l0, remotes0, log, cnt, connected, remotes) &&
                  Sent(l0, remotes0, log, connected, remotes, now)
        invariant Tried(log) == Reverse(l0[cnt + 1..]) && Numbered(log, remotes0)
      {
        ghost var a := WriteAt(cnt, size, now, l0, remotes0, log);
        LogMore(old(wrote), log, [a]);
        FailedMore(log, a);
        NumberedMore(log, a, remotes0);
        ReverseMore(l0, cnt);
        log := log + [a];
        cnt := cnt - 1;
      }
    }

    /** The first half of nettickle: a tickle to each connection to which nothing was written for
        twice its time, and how long until the first of the others that are past their time. */
    method Tickle(now: int) returns (result: nat, ghost log: seq<Attempt>)
      requires Valid()
      modifies this`remotes, this`hashtab, this`heads, this`hashNext, this`open, this`connected, this`probed,
               this`netsyncReq, this`wrote, this`writes
      ensures Valid() && probed == old(probed) && wrote == old(wrote) + log
      ensures Tried(log) == Due(old(connected), 0, old(remotes), now)
      ensures Numbered(log, old(remotes)) && Sent(old(connected), old(remotes), log, connected, remotes, now)
      ensures OnTime(result, old(connected), old(remotes), now)
    {
      hide *;
      ValidConnections();
      var cnt := |connected| - 1;
      log, result := [], 0;
      Starts(now);
      NothingTried();
      ghost var l0, remotes0 := connected, remotes;
      LogNone(wrote);
      TickleStarts(l0, remotes0, now);
      AllTried(l0, remotes0);
      while cnt >= 0
        invariant -1 <= cnt < |l0| && Valid() && probed == old(probed) && wrote == old(wrote) + log
        invariant Untouched(l0, remotes0, log, cnt, connected, remotes) &&
                  Sent(l0, remotes0, log, connected, remotes, now)
        invariant Tried(log) == Due(l0, cnt + 1, remotes0, now) && Numbered(log, remotes0)
        invariant OnTime(result, l0[cnt + 1..], remotes0, now)
      {
        ghost var more;
        result, more := TickleOne(cnt, now, result, l0, remotes0, log);
        LogMore(old(wrote), log, more);
        log := log + more;
        cnt := cnt - 1;
      }
    }

    /** One turn of that loop */
    method TickleOne(cnt: nat, now: int, soonest: nat, ghost l0: seq<int>, ghost remotes0: Remotes,
                     ghost log: seq<Attempt>)
      returns (result: nat, ghost more: seq<Attempt>)
      requires Valid() && cnt < |l0| && Distinct(l0)
      requires Untouched(l0, remotes0, log, cnt, connected, remotes) && Sent(l0, remotes0, log, connected, remotes, now)
      requires Tried(log) == Due(l0, cnt + 1, remotes0, now) && Numbered(log, remotes0)
      requires OnTime(soonest, l0[cnt + 1..], remotes0, now)
      modifies this`remotes, this`hashtab, this`heads, this`hashNext, this`open, this`connected, this`probed,
               this`netsyncReq, this`wrote, this`writes
      ensures Valid() && probed == old(probed) && wrote == old(wrote) + more
      ensures Untouched(l0, remotes0, log + more, cnt - 1, connected, remotes) &&
              Sent(l0, remotes0, log + more, connected, remotes, now)
      ensures Tried(log + more) == Due(l0, cnt, remotes0, now) && Numbered(log + more, remotes0)
      ensures OnTime(result, l0[cnt..], remotes0, now)
    {
      hide Valid, Sent, Untouched, Failed, Tried, Due, OnTime, Idle, Numbered;
      Onward(l0, remotes0, log, cnt);
      var rp := remotes[connected[cnt]];
      var tleft := Idle(rp, now);
      TickleTurn(l0, cnt, remotes0, now, soonest);
      result := soonest;
      if tleft >= rp.timeout * 2 {
        ghost var a := WriteAt(cnt, netmsg, now, l0, remotes0, log);
        FailedMore(log, a);
        NumberedMore(log, a, remotes0);
        more := [a];
        return;
      }
      if tleft > rp.timeout {
        tleft := rp.timeout * 2 - tleft;
        if result == 0 || tleft < result {
          result := tleft;
        }
      }
      more := [];
      LogNone(log);
      LogNone(wrote);
    }

    lemma ValidConnections()
      requires Valid()
      ensures Distinct(connected)
    {
    }

    /** The second half: probes that have not been answered in their time are given up. */
    method DropProbes(now: int)
      requires Valid()
      modifies this`remotes, this`hashtab, this`heads, this`hashNext, this`open, this`connected, this`probed,
               this`netsyncReq
      ensures Valid() && connected == old(connected)
      ensures Dropped(old(remotes), remotes, old(probed), 0, now)
    {
      hide Chained, Threaded, Sockets, Connections, Unsynced, SwapOut, IndexOf;
      var cnt := |probed| - 1;
      ghost var l0, remotes0 := probed, remotes;
      while cnt >= 0
        invariant -1 <= cnt < |probed| && Valid() && connected == old(connected) && cnt < |l0|
        invariant probed[..cnt + 1] == l0[..cnt + 1]
        invariant Dropped(remotes0, remotes, l0, cnt + 1, now)
      {
        var rp := probed[cnt];
        assert rp == l0[cnt] by { assert probed[..cnt + 1][cnt] == l0[..cnt + 1][cnt]; }
        assert rp in probed;
        InPlace(probed, cnt);
        SwapOutRest(probed, cnt);
        assert probed[..cnt] == l0[..cnt] by { assert probed[..cnt + 1][..cnt] == l0[..cnt + 1][..cnt]; }
        DroppedMore(remotes0, remotes, l0, cnt, now);
        if Late(remotes[rp], now) {
          DeallocHost(rp);
        }
        cnt := cnt - 1;
      }
    }

    /** nettickle */
    method NetTickle(now: int) returns (result: nat, ghost log: seq<Attempt>)
      requires Valid()
      modifies this`remotes, this`hashtab, this`heads, this`hashNext, this`open, this`connected, this`probed,
               this`netsyncReq, this`wrote, this`writes
      ensures Valid() && wrote == old(wrote) + log
      ensures if old(connected) == [] then result == 0 && log == [] && remotes == old(remotes) else
                && Tried(log) == Due(old(connected), 0, old(remotes), now)
                && (forall r :: r in connected <==> r in old(connected) && !Failed(log, r))
                && (forall r :: r in connected ==>
                      && r in remotes && r in old(remotes)
                      && if r in Tried(log) then AfterWrite(old(remotes)[r], remotes[r], now)
                         else remotes[r] == old(remotes)[r])
                && (forall r :: r in probed ==> r in remotes && !Late(remotes[r], now))
                && (forall r :: r in old(probed) ==> (r in remotes <==> !Late(old(remotes)[r], now)))
                && OnTime(result, old(connected), old(remotes), now)
    {
      hide Chained, Threaded, Sockets, Connections, Unsynced, Failed, Tried, AfterWrite, Late, Idle;
      if |connected| <= 0 {
        return 0, [];
      }
      ghost var remotes0 := remotes;
      forall r | r in probed
        ensures r !in connected && r in remotes
      {
        NotBoth(r);
      }
      DueListed(connected, 0, remotes, now);
      result, log := Tickle(now);
      forall r | r in probed
        ensures Same(remotes0, remotes, r)
      {
        NotTried(log, r);
      }
      ghost var mid := remotes;
      forall r | r in connected
        ensures r in mid && r !in probed
      {
        NotProbed(r);
      }
      DropProbes(now);
    }

    /** A connection is not a probe. */
    lemma NotBoth(r: int)
      requires Valid() && r in probed
      ensures r !in connected && r in remotes
    {
    }

    lemma NotProbed(r: int)
      requires Valid() && r in connected
      ensures r !in probed && r in remotes
    {
    }

    /** netsync: ask the last connection in the list that has not been asked yet.  When the write
        fails, the record is freed, and marking it has no effect. */
    method NetSync(now: int) returns (ghost asked: Option<int>)
      requires Valid()
      modifies this`remotes, this`hashtab, this`heads, this`hashNext, this`open, this`connected, this`probed,
               this`netsyncReq, this`wrote, this`writes
      ensures Valid() && probed == old(probed)
      ensures asked.None? ==>
                && remotes == old(remotes) && wrote == old(wrote)
                && forall r :: r in connected ==> r in remotes && remotes[r].isSync != NsyncNone
      ensures asked.Some? ==>
                asked.value in old(remotes) && old(remotes)[asked.value].connected &&
                old(remotes)[asked.value].isSync == NsyncNone
      ensures remotes.Keys <= old(remotes).Keys
      ensures forall r :: r in old(remotes) && !(asked.Some? && asked.value == r) ==> Same(old(remotes), remotes, r)
      ensures asked.Some? ==>
                old(wrote) <= wrote && |wrote| == |old(wrote)| + 1 && wrote[|old(wrote)|].rp == asked.value
      ensures asked.Some? ==>
                if wrote[|old(wrote)|].ok then asked.value in remotes && remotes[asked.value].isSync == NsyncReq
                else asked.value !in remotes
    {
      hide Chained, Threaded, Sockets, Unsynced;
      var rpcnt := |connected| - 1;
      asked := None;
      while rpcnt >= 0
        invariant -1 <= rpcnt < |connected| && Valid() && connected == old(connected) && remotes == old(remotes) &&
                  wrote == old(wrote) && probed == old(probed)
        invariant forall k :: rpcnt < k < |connected| ==>
                    connected[k] in remotes && remotes[connected[k]].isSync != NsyncNone
      {
        var rp := connected[rpcnt];
        assert rp in connected;
        if remotes[rp].isSync == NsyncNone {
          asked := Some(rp);
          var ok := ChkWrite(rp, netmsg, now);
          if ok {
            Change(rp, remotes[rp].(isSync := NsyncReq));
          }
          return;
        }
        rpcnt := rpcnt - 1;
      }
    }

    // ----- Finding records -----

    /** The loops along a hash chain: the first record from place k of its chain on that is wanted */
    method Find(netid: int, want: Remote -> bool) returns (rp: Option<int>)
      requires Valid() && forall r :: want(r) ==> r.hostid == netid
      ensures rp.Some? ==> rp.value in remotes && want(remotes[rp.value])
      ensures rp.Some? <==> Has(remotes, want)
    {
      hide Valid, Thread, At;
      OnBucket(netid);
      var h := nhash(netid);
      ghost var c, k := hashtab[h], 0;
      ThreadHead(heads[h], hashNext, c);
      ThreadStep(heads[h], hashNext, c, 0);
      var r := heads[h];
      while r != END
        invariant k <= |c| && r == At(c, k) && (r == END <==> k == |c|)
        invariant forall m :: 0 <= m < k ==> c[m] in remotes && !want(remotes[c[m]])
        decreases |c| - k
      {
        ThreadStep(heads[h], hashNext, c, k);
        assert c[k] in hashtab[h];
        if want(remotes[r]) {
          return Some(r);
        }
        r := hashNext[r];
        k := k + 1;
        ThreadStep(heads[h], hashNext, c, k);
      }
      forall r | r in remotes
        ensures !want(remotes[r])
      {
        if remotes[r].hostid == netid {
          assert r in c;
        }
      }
      rp := None;
    }

    lemma OnBucket(netid: int)
      requires Valid()
      ensures nhash(netid) < |hashtab| == |heads| && Thread(heads[nhash(netid)], hashNext, hashtab[nhash(netid)])
      ensures forall r :: r in hashtab[nhash(netid)] ==> r in remotes
      ensures forall r :: r in remotes && remotes[r].hostid == netid ==> r in hashtab[nhash(netid)]
    {
      hide Chained, Thread, Sockets, Connections, Probes, Unsynced;
      ChainOf(hashtab, remotes, nhash, netid);
    }

    /** endsync: the first connection found to the host is synchronised; another one is asked. */
    method EndSync(netid: int, now: int) returns (ghost done: Option<int>, ghost asked: Option<int>)
      requires Valid()
      modifies this`remotes, this`hashtab, this`heads, this`hashNext, this`open, this`connected, this`probed,
               this`netsyncReq, this`wrote, this`writes
      ensures Valid() && old(wrote) <= wrote && |wrote| == |old(wrote)| + if asked.Some? then 1 else 0
      ensures asked.None? ==> forall r :: r in connected ==> r in remotes && remotes[r].isSync != NsyncNone
      ensures asked.Some? ==>
                && asked.value in old(remotes) && old(remotes)[asked.value].connected
                && old(remotes)[asked.value].isSync == NsyncNone && asked != done &&
                  wrote[|old(wrote)|].rp == asked.value
      ensures asked.Some? ==>
                if wrote[|old(wrote)|].ok then asked.value in remotes && remotes[asked.value].isSync == NsyncReq
                else asked.value !in remotes
      ensures forall r :: r in old(remotes) && Some(r) != done && Some(r) != asked ==> Same(old(remotes), remotes, r)
      ensures done.Some? ==> done.value in old(remotes) && ConnectedTo(netid)(old(remotes)[done.value])
      ensures done.Some? <==> Has(old(remotes), ConnectedTo(netid))
      ensures done.Some? ==> done.value in remotes && remotes[done.value].isSync == NsyncOk
    {
      hide Valid;
      var rp := Find(netid, ConnectedTo(netid));
      done := rp;
      if rp.Some? {
        var rec := remotes[rp.value];
        if rec.isSync != NsyncOk {
          Synced(rp.value);
        }
      }
      ghost var mid := remotes;
      assert rp.Some? ==> rp.value in mid && mid[rp.value].isSync == NsyncOk;
      asked := None;
      if netsyncReq <= 0 {
        AllSynced();
      } else {
        asked := NetSync(now);
        if rp.Some? {
          assert Same(mid, remotes, rp.value);
        }
        assert forall r :: r in mid && Some(r) != asked ==> Same(mid, remotes, r);
        forall r | r in old(remotes) && Some(r) != done && Some(r) != asked
          ensures Same(old(remotes), remotes, r)
        {
          assert r in mid && mid[r] == old(remotes)[r] && Same(mid, remotes, r);
        }
      }
    }

    lemma AllSynced()
      requires Valid() && netsyncReq <= 0
      ensures forall r :: r in connected ==> r in remotes && remotes[r].isSync == NsyncOk
    {
      hide Chained, Threaded, Sockets, Probes;
      assert Unsynced(remotes) == {};
      forall r | r in connected
        ensures r in remotes && remotes[r].isSync == NsyncOk
      {
        assert r !in Unsynced(remotes);
      }
    }

    method Synced(rp: int)
      requires Valid() && rp in remotes && remotes[rp].connected && remotes[rp].isSync != NsyncOk
      modifies this`remotes, this`netsyncReq
      ensures Valid() && remotes == old(remotes)[rp := old(remotes)[rp].(isSync := NsyncOk)]
    {
      hide Chained, Threaded, Sockets, Connections, Probes, Unsynced;
      var rec := remotes[rp].(isSync := NsyncOk);
      SocketsChanged(open, remotes, rp, rec);
      ConnectionsSame(connected, remotes, rp, rec);
      ProbesSame(probed, remotes, rp, rec);
      ChainedSame(hashtab, remotes, nhash, rp, rec);
      UnsyncedChanged(remotes, rp, rec);
      remotes := remotes[rp := rec];
      netsyncReq := netsyncReq - 1;
    }

    // ----- New records -----

    /** add_chain */
    method AddChain(rp: int, rec: Remote)
      requires Chained(hashtab, remotes, nhash) && Threaded(heads, hashNext, hashtab)
      requires rp !in remotes && rp >= 0 && nhash(rec.hostid) < |hashtab|
      modifies this`hashtab, this`heads, this`hashNext
      ensures Chained(hashtab, remotes[rp := rec], nhash) && Threaded(heads, hashNext, hashtab) &&
              |hashtab| == |old(hashtab)|
    {
      hide Chained, Threaded;
      var b := nhash(rec.hostid);
      ChainedWith(hashtab, remotes, nhash, rp, rec);
      OffChains(hashtab, remotes, nhash, rp);
      ThreadedPush(heads, hashNext, hashtab, b, rp);
      hashNext := hashNext[rp := heads[b]];
      heads := heads[b := rp];
      hashtab := hashtab[b := [rp] + hashtab[b]];
    }

    /** new_remote and add_chain, with the lists that its flags ask for */
    method Add(rec: Remote) returns (rp: int)
      requires Valid() && !(rec.connected && rec.probed)
      requires rec.probed ==> forall r :: r in remotes && remotes[r].probed ==> remotes[r].hostid != rec.hostid
      requires rec.connected ==> rec.sockfd !in open
      modifies this`remotes, this`hashtab, this`heads, this`hashNext, this`open, this`connected, this`probed,
               this`netsyncReq, this`next
      ensures Valid() && rp !in old(remotes) && remotes == old(remotes)[rp := rec]
      ensures connected == old(connected) + if rec.connected then [rp] else []
      ensures probed == old(probed) + if rec.probed then [rp] else []
      ensures netsyncReq == old(netsyncReq) + if rec.connected && rec.isSync != NsyncOk then 1 else 0
      ensures open == if rec.connected then old(open) + {rec.sockfd} else old(open)
    {
      hide Chained, Threaded, Sockets, Connections, Probes, Unsynced;
      rp := next;
      next := next + 1;
      SocketsWith(open, remotes, rp, rec);
      UnsyncedChanged(remotes, rp, rec);
      ConnectionsWith(connected, remotes, rp, rec);
      ProbesWith(probed, remotes, rp, rec);
      AddChain(rp, rec);
      if rec.connected {
        open := open + {rec.sockfd};
        connected := connected + [rp];
        if rec.isSync != NsyncOk {
          netsyncReq := netsyncReq + 1;
        }
      }
      if rec.probed {
        probed := probed + [rp];
      }
      remotes := remotes[rp := rec];
    }

    /** conn_attach, to a host known by a pending probe, or by the description prp alone; sk is
        the socket, if the connection comes about. */
    method ConnAttach(probe: Option<int>, prp: Remote, sk: Option<int>, now: int) returns (rp: Option<int>)
      requires Valid()
      requires if probe.Some? then probe.value in remotes && remotes[probe.value] == prp && prp.probed else !prp.probed
      requires sk.Some? ==> sk.value !in open
      modifies this`remotes, this`hashtab, this`heads, this`hashNext, this`open, this`connected, this`probed,
               this`netsyncReq, this`next
      ensures Valid()
      ensures sk.None? ==> rp.None? && remotes == old(remotes)
      ensures open == if sk.Some? then old(open) + {sk.value} else old(open)
      ensures sk.Some? ==> rp.Some? && remotes == old(remotes)[rp.value := Attached(prp, sk.value, now)]
      ensures sk.Some? ==> (if probe.Some? then rp == probe else rp.value !in old(remotes))
      ensures sk.Some? ==> netsyncReq == old(netsyncReq) + 1 && rp.value in connected && rp.value !in probed
    {
      hide Chained, Threaded, Sockets;
      if sk.None? {
        return None;
      }
      if probe.None? {
        var new_ := Add(Attached(prp, sk.value, now));
        return Some(new_);
      }
      Reuse(probe.value, Attached(prp, sk.value, now));
      rp := probe;
    }

    /** A probe becomes a connection: its record goes from the one list to the other. */
    method Reuse(rp: int, rec: Remote)
      requires Valid() && rp in remotes && remotes[rp].probed && rec.hostid == remotes[rp].hostid
      requires rec.connected && !rec.probed && rec.isSync != NsyncOk && rec.sockfd !in open
      modifies this`remotes, this`open, this`connected, this`probed, this`netsyncReq
      ensures Valid() && remotes == old(remotes)[rp := rec] && netsyncReq == old(netsyncReq) + 1
      ensures rp in connected && rp !in probed && open == old(open) + {rec.sockfd}
    {
      hide Chained, Threaded, Sockets, Connections, Probes, Unsynced, SwapOut, IndexOf;
      SocketsWith(open, remotes, rp, rec);
      ConnectionsWith(connected, remotes, rp, rec);
      ProbesLess(probed, remotes, rp, rec);
      open := open + {rec.sockfd};
      probed := FreeRemlist(probed, rp);
      ChainedSame(hashtab, remotes, nhash, rp, rec);
      UnsyncedChanged(remotes, rp, rec);
      connected := connected + [rp];
      remotes := remotes[rp := rec];
      netsyncReq := netsyncReq + 1;
    }

    /** probe_attach; `sent` says whether the probe could be sent.  A pending probe is refreshed,
        and there is no new one to a host that is connected as a server. */
    method ProbeAttach(prp: Remote, sent: bool, now: int)
      requires Valid()
      modifies this`remotes, this`hashtab, this`heads, this`hashNext, this`open, this`connected, this`probed,
               this`netsyncReq, this`next
      ensures Valid() && connected == old(connected) && netsyncReq == old(netsyncReq) && open == old(open)
      ensures !sent ==> remotes == old(remotes) && probed == old(probed)
      ensures sent ==>
                (Has(remotes, ProbedFor(prp.hostid)) <==>
                  Has(old(remotes), ProbedFor(prp.hostid)) || !Has(old(remotes), ServerAt(prp.hostid)))
      ensures forall r :: r in old(remotes) ==> r in remotes
      ensures forall r :: r in old(remotes) && !(sent && ProbedFor(prp.hostid)(old(remotes)[r])) ==>
                remotes[r] == old(remotes)[r]
      ensures forall r :: r in old(remotes) && sent && ProbedFor(prp.hostid)(old(remotes)[r]) ==>
                remotes[r] == old(remotes)[r].(lastwrite := now)
      ensures forall r :: r in remotes && r !in old(remotes) ==> remotes[r] == Probing(prp, now)
    {
      hide Chained, Threaded, Sockets;
      if !sent {
        return;
      }
      var rp := Find(prp.hostid, ProbedFor(prp.hostid));
      if rp.Some? {
        OneProbe(rp.value);
        Change(rp.value, remotes[rp.value].(lastwrite := now));
        assert ProbedFor(prp.hostid)(remotes[rp.value]);
        return;
      }
      var server := Find(prp.hostid, ServerAt(prp.hostid));
      if server.Some? {
        return;
      }
      var new_ := Add(Probing(prp, now));
      assert ProbedFor(prp.hostid)(remotes[new_]);
    }

    /** No other record is a probe for the same host. */
    lemma OneProbe(rp: int)
      requires Valid() && rp in remotes && remotes[rp].probed
      ensures forall r :: r in remotes && ProbedFor(remotes[rp].hostid)(remotes[r]) ==> r == rp
    {
      assert rp in probed;
      forall r | r in remotes && ProbedFor(remotes[rp].hostid)(remotes[r])
        ensures r == rp
      {
        assert r in probed;
      }
    }

    /** newhost: a connection from another host.  One that answers a probe is turned away, and
        the probe given up.  As find_connected passes over the connections that are not marked as
        clients, and not over those that are, it is a connection to a client on the host, and not
        one to its server, that lets a further connection be turned away. */
    method NewHost(hostid: int, sock: int, timeout: nat, now: int) returns (rp: Option<int>)
      requires Valid() && sock !in open
      modifies this`remotes, this`hashtab, this`heads, this`hashNext, this`open, this`connected, this`probed,
               this`netsyncReq, this`next
      ensures Valid() && netsyncReq == old(netsyncReq) && open == if rp.Some? then old(open) + {sock} else old(open)
      ensures rp.Some? <==>
                hostid == 0 || !(Has(old(remotes), ProbedFor(hostid)) || Has(old(remotes), ClientAt(hostid)))
      ensures rp.Some? ==>
                && rp.value !in old(remotes) && connected == old(connected) + [rp.value] && probed == old(probed)
                && var notServer := hostid == 0 || Has(old(remotes), NotServerAt(hostid));
                remotes == old(remotes)[rp.value := Accepted(hostid, sock, timeout, now, notServer)]
      ensures rp.None? ==> connected == old(connected) && remotes == Unprobed(old(remotes), hostid)
    {
      hide Chained, Threaded, Sockets;
      if hostid == 0 {
        var rec := Accepted(hostid, sock, timeout, now, true);
        var new_ := Add(rec);
        return Some(new_);
      }
      var probe := Find(hostid, ProbedFor(hostid));
      if probe.Some? {
        OneProbe(probe.value);
        DeallocHost(probe.value);
        UnprobedWithout(old(remotes), hostid, probe.value);
        return None;
      }
      UnprobedSame(remotes, hostid);
      var client := Find(hostid, ClientAt(hostid));
      if client.Some? {
        return None;
      }
      var notServer := Find(hostid, NotServerAt(hostid));
      var rec := Accepted(hostid, sock, timeout, now, notServer.Some?);
      var new_ := Add(rec);
      rp := Some(new_);
    }
  }

  ghost predicate Has(remotes: Remotes, want: Remote -> bool) {
    exists r :: r in remotes && want(remotes[r])
  }

  function ConnectedTo(netid: int): Remote -> bool {
    (r: Remote) => r.hostid == netid && r.connected
  }

  function ProbedFor(netid: int): Remote -> bool {
    (r: Remote) => r.hostid == netid && r.probed
  }

  /** A connection that neither of the two hosts has as a client */
  function ServerAt(netid: int): Remote -> bool {
    (r: Remote) => r.hostid == netid && r.connected && !r.isClient && !r.notServer
  }

  /** What find_connected finds */
  function ClientAt(netid: int): Remote -> bool {
    (r: Remote) => r.hostid == netid && r.connected && r.notServer
  }

  /** What inl_find_notserv finds */
  function NotServerAt(netid: int): Remote -> bool {
    (r: Remote) => r.hostid == netid && r.notServer && !r.connected
  }

  function Attached(prp: Remote, sk: int, now: int): Remote {
    prp.(sockfd := sk, isClient := true, connected := true, probed := false, notServer := false, isSync := NsyncNone,
         lastwrite := now, seqto := 0)
  }

  function Probing(prp: Remote, now: int): Remote {
    prp.(probed := true, isClient := true, connected := false, notServer := false, isSync := NsyncNone,
         lastwrite := now)
  }

  /** The records without the probe for the host, if there is one */
  ghost function Unprobed(remotes: Remotes, hostid: int): Remotes {
    map r | r in remotes && !ProbedFor(hostid)(remotes[r]) :: remotes[r]
  }

  lemma UnprobedWithout(remotes: Remotes, hostid: int, rp: int)
    requires rp in remotes && ProbedFor(hostid)(remotes[rp])
    requires forall r :: r in remotes && ProbedFor(hostid)(remotes[r]) ==> r == rp
    ensures Unprobed(remotes, hostid) == remotes - {rp}
  {
    var u := Unprobed(remotes, hostid);
    assert forall r :: r in u <==> r in remotes - {rp};
  }

  lemma UnprobedSame(remotes: Remotes, hostid: int)
    requires !Has(remotes, ProbedFor(hostid))
    ensures Unprobed(remotes, hostid) == remotes
  {
    var u := Unprobed(remotes, hostid);
    assert forall r :: r in u <==> r in remotes;
  }

  function Accepted(hostid: int, sock: int, timeout: nat, now: int, notServer: bool): Remote {
    Remote(hostid, sock, false, false, true, notServer, NsyncOk, timeout, now, 0)
  }

  /** A loop down the list of connections has come to place cnt: up to there the list l0 and the
      records are as they were, and nothing has been written to those. */
  ghost predicate Untouched(l0: seq<int>, remotes0: Remotes, log: seq<Attempt>, cnt: int, connected: seq<int>,
                            remotes: Remotes)
    requires -1 <= cnt < |l0|
  {
    && cnt < |connected| && connected[..cnt + 1] == l0[..cnt + 1]
    && forall k :: 0 <= k <= cnt ==> Same(remotes0, remotes, l0[k]) && l0[k] !in Tried(log)
  }

  /** What has happened so far: of the connections l0 those remain for which no write has failed;
      nothing else has been written to, taken away, or changed. */
  ghost predicate Sent(l0: seq<int>, remotes0: Remotes, log: seq<Attempt>, connected: seq<int>, remotes: Remotes,
                       now: int)
  {
    && (forall r :: r in connected <==> r in l0 && !Failed(log, r))
    && (forall r :: r in remotes <==> r in remotes0 && !Failed(log, r))
    && (forall r :: r in remotes && r !in Tried(log) ==> remotes[r] == remotes0[r])
    && (forall r :: r in remotes && r in Tried(log) ==> AfterWrite(remotes0[r], remotes[r], now))
  }

  /** The next message to this connection will bear the next number of sixteen bits, and it is not idle. */
  predicate AfterWrite(r: Remote, r': Remote, now: int) {
    && r' == r.(lastwrite := now, seqto := r'.seqto)
    && r'.seqto < 0x10000 && (r'.seqto as int - r.seqto - 1) % 0x10000 == 0
  }

  lemma WrittenIs(r: Remote, now: int)
    ensures AfterWrite(r, Written(r, now), now)
  {
  }

  /** One more write, to the connection at place cnt.  If it fails, an entry that has been dealt
      with already is put there. */
  lemma UntouchedMore(l0: seq<int>, remotes0: Remotes, log: seq<Attempt>, cnt: nat, connected: seq<int>,
                      remotes: Remotes,                       a: Attempt, connected': seq<int>, remotes': Remotes)
    requires cnt < |l0| && Distinct(l0) && Untouched(l0, remotes0, log, cnt, connected, remotes)
    requires a.rp == l0[cnt] && connected' in {connected, SwapOut(connected, cnt)} && Distinct(connected)
    requires forall r :: r in remotes && r != a.rp ==> r in remotes' && remotes'[r] == remotes[r]
    ensures Untouched(l0, remotes0, log + [a], cnt - 1, connected', remotes')
  {
    FailedMore(log, a);
    SwapOutRest(connected, cnt);
    assert connected[..cnt] == connected[..cnt + 1][..cnt] && l0[..cnt] == l0[..cnt + 1][..cnt];
    assert connected'[..cnt] == l0[..cnt];
    forall k | 0 <= k <= cnt - 1
      ensures Same(remotes0, remotes', l0[k]) && l0[k] !in Tried(log + [a])
    {
      assert Same(remotes0, remotes, l0[k]);
    }
  }

  lemma SentMore(l0: seq<int>, remotes0: Remotes, log: seq<Attempt>, connected: seq<int>, remotes: Remotes,
                 a: Attempt, connected': seq<int>, remotes': Remotes, now: int)
    requires Sent(l0, remotes0, log, connected, remotes, now) && a.rp in remotes
    requires forall r :: r in connected' <==> r in connected && (r != a.rp || a.ok)
    requires forall r :: r in remotes' <==> r in remotes && (r != a.rp || a.ok)
    requires forall r :: r in remotes' && r != a.rp ==> remotes'[r] == remotes[r]
    requires a.rp !in Tried(log) && (a.ok ==> AfterWrite(remotes[a.rp], remotes'[a.rp], now))
    ensures Sent(l0, remotes0, log + [a], connected', remotes', now)
  {
    FailedMore(log, a);
    hide Failed, Tried, AfterWrite;
  }

  ghost predicate Same(remotes0: Remotes, remotes: Remotes, r: int) {
    r in remotes0 && r in remotes && remotes[r] == remotes0[r]
  }

  /** Each message carries the sequence number of its connection. */
  ghost predicate Numbered(log: seq<Attempt>, remotes: Remotes) {
    forall k :: 0 <= k < |log| ==> log[k].rp in remotes && log[k].seq_ == remotes[log[k].rp].seqto
  }

  lemma NothingTried()
    ensures Tried([]) == [] && forall r :: !Failed([], r)
  {
  }

  /** The time since the last write, as an unsigned number */
  function Idle(r: Remote, now: int): nat {
    (now - r.lastwrite) % 0x100000000
  }

  predicate Late(r: Remote, now: int) {
    Idle(r, now) > r.timeout
  }

  lemma TickleStarts(l: seq<int>, remotes: Remotes, now: int)
    ensures Due(l, |l|, remotes, now) == [] && OnTime(0, l[|l|..], remotes, now) && Numbered([], remotes)
  {
  }

  lemma NotSoonerMore(l: seq<int>, k: nat, remotes: Remotes, now: int, result: nat)
    requires k < |l| && NotSooner(result, l[k + 1..], remotes, now)
    ensures NotSooner(result, l[k..], remotes, now)
  {
    if result > 0 {
      var r :| r in l[k + 1..] && r in remotes && DueIn(remotes[r], now, result);
      assert l[k..] == [l[k]] + l[k + 1..];
    }
  }

  lemma NotSoonerHere(l: seq<int>, k: nat, remotes: Remotes, now: int)
    requires k < |l| && l[k] in remotes
    ensures var (r, tleft) := (remotes[l[k]], Idle(remotes[l[k]], now));
            r.timeout < tleft < r.timeout * 2 ==> NotSooner(r.timeout * 2 - tleft, l[k..], remotes, now)
  {
    var x := l[k];
    assert l[k..][0] == x;
    assert remotes[x].timeout < Idle(remotes[x], now) < remotes[x].timeout * 2 ==>
        x in l[k..] && x in remotes && DueIn(remotes[x], now, remotes[x].timeout * 2 - Idle(remotes[x], now));
  }

  /** One turn of the loop of nettickle */
  lemma TickleTurn(l: seq<int>, k: nat, remotes: Remotes, now: int, result: nat)
    requires k < |l| && l[k] in remotes && OnTime(result, l[k + 1..], remotes, now)
    ensures var (r, tleft) := (remotes[l[k]], Idle(remotes[l[k]], now));
            if tleft >= r.timeout * 2 then
              && Due(l, k, remotes, now) == Due(l, k + 1, remotes, now) + [l[k]]
              && OnTime(result, l[k..], remotes, now)
            else
              && Due(l, k, remotes, now) == Due(l, k + 1, remotes, now)
              && var left := r.timeout * 2 - tleft;
              var soonest := if tleft > r.timeout && (result == 0 || left < result) then left else result;
              OnTime(soonest, l[k..], remotes, now)
  {
    hide Idle, NotSooner;
    assert l[k..] == [l[k]] + l[k + 1..];
    assert Due(l, k + 1, remotes, now) + [] == Due(l, k + 1, remotes, now);
    NotSoonerHere(l, k, remotes, now);
    NotSoonerMore(l, k, remotes, now, result);
  }

  lemma NumberedMore(log: seq<Attempt>, a: Attempt, remotes: Remotes)
    requires Numbered(log, remotes) && a.rp in remotes && a.seq_ == remotes[a.rp].seqto
    ensures Numbered(log + [a], remotes)
  {
  }

  /** Of the probes from place k of l on those that are late have gone, and nothing else. */
  ghost predicate Dropped(remotes0: Remotes, remotes: Remotes, l: seq<int>, k: nat, now: int)
    requires k <= |l|
  {
    && (forall r :: r in remotes <==> r in remotes0 && !(r in l[k..] && Late(remotes0[r], now)))
    && (forall r :: r in remotes ==> remotes[r] == remotes0[r])
  }

  lemma DroppedMore(remotes0: Remotes, remotes: Remotes, l: seq<int>, k: nat, now: int)
    requires k < |l| && Distinct(l) && Dropped(remotes0, remotes, l, k + 1, now) && l[k] in remotes
    ensures Dropped(remotes0, if Late(remotes[l[k]], now) then remotes - {l[k]} else remotes, l, k, now)
  {
    assert l[k..] == [l[k]] + l[k + 1..];
  }

  /** The connections from place k on that are to be tickled, last one first */
  function Due(l: seq<int>, k: nat, remotes: Remotes, now: int): seq<int>
    requires k <= |l|
    decreases |l| - k
  {
    if k == |l| then []
    else
      var due := l[k] in remotes && Idle(remotes[l[k]], now) >= remotes[l[k]].timeout * 2;
      Due(l, k + 1, remotes, now) + if due then [l[k]] else []
  }

  lemma {:induction false} DueListed(l: seq<int>, k: nat, remotes: Remotes, now: int)
    requires k <= |l|
    ensures forall r :: r in Due(l, k, remotes, now) ==> r in l
    decreases |l| - k
  {
    if k < |l| {
      DueListed(l, k + 1, remotes, now);
    }
  }

  lemma NotTried(log: seq<Attempt>, r: int)
    requires r !in Tried(log)
    ensures !Failed(log, r)
  {
    forall k | 0 <= k < |log|
      ensures log[k].rp != r
    {
      assert Tried(log)[k] == log[k].rp;
    }
  }

  /** Coming back after result is in time for each connection that is past its time, and not yet
      twice; 0 means that there is none. */
  ghost predicate SoonEnough(result: nat, l: seq<int>, remotes: Remotes, now: int) {
    forall r :: r in l && r in remotes && remotes[r].timeout < Idle(remotes[r], now) < remotes[r].timeout * 2 ==>
      0 < result <= remotes[r].timeout * 2 - Idle(remotes[r], now)
  }

  /** ... and no earlier than one of these needs it. */
  ghost predicate NotSooner(result: nat, l: seq<int>, remotes: Remotes, now: int) {
    result > 0 ==> exists r :: r in l && r in remotes && DueIn(remotes[r], now, result)
  }

  ghost predicate OnTime(result: nat, l: seq<int>, remotes: Remotes, now: int) {
    SoonEnough(result, l, remotes, now) && NotSooner(result, l, remotes, now)
  }

  /** Past its time, and to be tickled after `left` more seconds */
  predicate DueIn(r: Remote, now: int, left: nat) {
    r.timeout < Idle(r, now) && Idle(r, now) + left == r.timeout * 2
  }

  lemma InPlace(l: seq<int>, k: nat)
    requires Distinct(l) && k < |l|
    ensures IndexOf(l, l[k]) == k
  {
  }

  lemma FailedMore(log: seq<Attempt>, a: Attempt)
    ensures forall r :: Failed(log + [a], r) <==> Failed(log, r) || (r == a.rp && !a.ok)
    ensures forall r :: r in Tried(log + [a]) <==> r in Tried(log) || r == a.rp
    ensures Tried(log + [a]) == Tried(log) + [a.rp]
  {
    assert (log + [a])[|log|] == a;
    assert Tried(log + [a]) == Tried(log) + [a.rp];
    forall r
      ensures Failed(log + [a], r) <==> Failed(log, r) || (r == a.rp && !a.ok)
    {
      if Failed(log, r) {
        var k :| 0 <= k < |log| && log[k].rp == r && !log[k].ok;
        assert (log + [a])[k] == log[k];
      }
    }
  }

  function Written(r: Remote, now: int): Remote {
    r.(lastwrite := now, seqto := (r.seqto + 1) % 0x10000)
  }

  // ----- What is looked for, and what is made -----

  /** What each search asks of a record */
  lemma WantedAre(r: Remote, netid: int)
    ensures ConnectedTo(netid)(r) <==> r.hostid == netid && r.connected
    ensures ProbedFor(netid)(r) <==> r.hostid == netid && r.probed
    ensures ClientAt(netid)(r) <==> ConnectedTo(netid)(r) && r.notServer
    ensures NotServerAt(netid)(r) <==> r.hostid == netid && r.notServer && !ConnectedTo(netid)(r)
    ensures ServerAt(netid)(r) <==> ConnectedTo(netid)(r) && !ClientAt(netid)(r) && !r.isClient
  {
  }

  /** New records are not idle: a probe is for its host; a connection starts to count at 0, and is to be
      synchronised if this host has asked for it. */
  lemma NewRecords(prp: Remote, hostid: int, sock: int, timeout: nat, now: int, notServer: bool)
    ensures var r := Attached(prp, sock, now);
            && ConnectedTo(prp.hostid)(r) && r.isClient && !r.notServer && !r.probed && r.sockfd == sock && r.seqto == 0
            && r.isSync == NsyncNone && r.timeout == prp.timeout && Idle(r, now) == 0
    ensures var r := Probing(prp, now);
            && ProbedFor(prp.hostid)(r) && r.isClient && !r.notServer && !r.connected
            && r.isSync == NsyncNone && r.timeout == prp.timeout && Idle(r, now) == 0
    ensures var r := Accepted(hostid, sock, timeout, now, notServer);
            && ConnectedTo(hostid)(r) && !r.isClient && (ServerAt(hostid)(r) <==> !notServer) && r.sockfd == sock
            && r.seqto == 0 && r.isSync == NsyncOk && r.timeout == timeout && Idle(r, now) == 0 && !r.probed
  {
  }

  /** While the clock has not wrapped round, a connection is tickled exactly when nothing was written to it for
      twice its time, and a probe is late when it is past its time. */
  lemma {:induction false} DueExactly(l: seq<int>, k: nat, remotes: Remotes, now: int, r: int)
    requires k <= |l| && forall x :: x in remotes ==> 0 <= now - remotes[x].lastwrite < 0x100000000
    ensures r in Due(l, k, remotes, now) <==>
            r in l[k..] && r in remotes && now >= remotes[r].lastwrite + 2 * remotes[r].timeout
    ensures r in remotes ==> (Late(remotes[r], now) <==> now > remotes[r].lastwrite + remotes[r].timeout)
    decreases |l| - k
  {
    if k < |l| {
      DueExactly(l, k + 1, remotes, now, r);
      assert l[k..] == [l[k]] + l[k + 1..];
    }
  }

  // ----- Two connections from one host -----

  lemma OneServer(hostid: int, sock: int, rp: int)
    ensures var rec := Accepted(hostid, sock, 1, 0, false);
            && ServerAt(hostid)(rec)
            && var remotes := map[rp := rec];
            !Has(remotes, ProbedFor(hostid)) && !Has(remotes, ClientAt(hostid)) && !Has(remotes, NotServerAt(hostid))
  {
  }

  ghost predicate IsServer(net: Network, r: int, hostid: int)
    reads net
  {
    r in net.connected && r in net.remotes && ServerAt(hostid)(net.remotes[r])
  }

  /** Two connections from the server of one host are both accepted. */
  method TwoServers(hostid: int) returns (net: Network)
    requires hostid != 0
    ensures exists r, r' :: r != r' && IsServer(net, r, hostid) && IsServer(net, r', hostid)
  {
    hide Network.Valid, Unprobed, Accepted, ServerAt;
    net := new Network(_ => 0, _ => 1, 1, 1);
    var a := net.NewHost(hostid, 3, 1, 0);
    OneServer(hostid, 3, a.value);
    assert net.remotes == map[a.value := Accepted(hostid, 3, 1, 0, false)];
    var b := net.NewHost(hostid, 4, 1, 0);
    OneServer(hostid, 4, b.value);
    assert net.connected == [a.value, b.value];
    assert net.remotes[a.value] == Accepted(hostid, 3, 1, 0, false) &&
        net.remotes[b.value] == Accepted(hostid, 4, 1, 0, false);
    assert IsServer(net, a.value, hostid) && IsServer(net, b.value, hostid);
  }
}
