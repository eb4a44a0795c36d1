/**
 Lists kept in an array of slots by the index of the next and of the previous slot, with -1
 (SHM_HASHEND) for none: the queue and the hash chains of the shared segments.  A list is
 described by the sequence of its slots.
 */
module Chains {

  datatype Link = Link(nxt: int, prv: int)

  const END := -1

  ghost predicate Distinct(c: seq<int>) {
    forall j, k :: 0 <= j < k < |c| ==> c[j] != c[k]
  }

  function At(c: seq<int>, k: int): int {
    if 0 <= k < |c| then c[k] else END
  }

  /** A doubly linked list with its head */
  ghost predicate Chain(links: seq<Link>, head: int, c: seq<int>) {
    && Distinct(c)
    && head == At(c, 0)
    && (forall k :: 0 <= k < |c| ==> 0 <= c[k] < |links| && links[c[k]] == Link(At(c, k + 1), At(c, k - 1)))
  }

  /** ... and its tail */
  ghost predicate Queue(links: seq<Link>, head: int, tail: int, c: seq<int>) {
    Chain(links, head, c) && tail == At(c, |c| - 1)
  }

  lemma OnQueue(links: seq<Link>, head: int, tail: int, c: seq<int>, k: nat)
    requires Queue(links, head, tail, c) && k < |c|
    ensures Distinct(c) && 0 <= c[k] < |links| && links[c[k]] == Link(At(c, k + 1), At(c, k - 1))
  {
  }

  lemma QueueSlot(links: seq<Link>, head: int, tail: int, c: seq<int>, m: nat)
    requires Queue(links, head, tail, c) && m <= |c|
    ensures At(c, m - 1) < |links|
    ensures m == 0 ==> At(c, m - 1) < 0
    ensures m > 0 ==> 0 <= c[m - 1] == At(c, m - 1) && links[c[m - 1]] == Link(At(c, m), At(c, m - 2))
  {
  }

  lemma QueueNext(links: seq<Link>, head: int, tail: int, c: seq<int>, m: nat)
    requires Queue(links, head, tail, c) && m < |c|
    ensures 0 <= c[m] < |links| && links[c[m]].nxt == At(c, m + 1) < |links|
    ensures m + 1 < |c| ==> 0 <= c[m + 1] == At(c, m + 1)
    ensures m + 1 == |c| ==> At(c, m + 1) < 0
  {
  }

  lemma QueueStart(links: seq<Link>, head: int, tail: int, c: seq<int>)
    requires Queue(links, head, tail, c)
    ensures Distinct(c) && head == At(c, 0) && forall x :: x in c ==> 0 <= x < |links|
  {
  }

  lemma ChainNext(links: seq<Link>, head: int, c: seq<int>, k: nat)
    requires Chain(links, head, c) && At(c, k) >= 0
    ensures k < |c| && 0 <= c[k] < |links| && links[c[k]].nxt == At(c, k + 1)
  {
  }

  /** A free chain: only the next slots matter. */
  ghost predicate FreeList(links: seq<Link>, head: int, c: seq<int>) {
    && Distinct(c)
    && head == At(c, 0)
    && (forall k :: 0 <= k < |c| ==> 0 <= c[k] < |links| && links[c[k]].nxt == At(c, k + 1))
  }

  function Without(c: seq<int>, k: nat): seq<int>
    requires k < |c|
  {
    c[..k] + c[k + 1..]
  }

  function Inserted(c: seq<int>, k: nat, i: int): seq<int>
    requires k <= |c|
  {
    c[..k] + [i] + c[k..]
  }

  function SetNxt(links: seq<Link>, i: int, v: int): seq<Link> {
    if 0 <= i < |links| then links[i := links[i].(nxt := v)] else links
  }

  function SetPrv(links: seq<Link>, i: int, v: int): seq<Link> {
    if 0 <= i < |links| then links[i := links[i].(prv := v)] else links
  }

  /** Links after slot i has been cut out; its own link stays as it was. */
  function Cut(links: seq<Link>, i: int): seq<Link>
    requires 0 <= i < |links|
  {
    SetNxt(SetPrv(links, links[i].nxt, links[i].prv), links[i].prv, links[i].nxt)
  }

  /** Links after slot i has been put between p and n, either of which may be missing */
  function Put(links: seq<Link>, i: int, p: int, n: int): seq<Link>
    requires 0 <= i < |links|
  {
    SetPrv(SetNxt(links[i := Link(n, p)], p, i), n, i)
  }

  lemma WithoutDistinct(c: seq<int>, k: nat)
    requires Distinct(c) && k < |c|
    ensures Distinct(Without(c, k))
    ensures forall x :: x in Without(c, k) <==> x in c && x != c[k]
  {
    var w := Without(c, k);
    forall x
      ensures x in w <==> x in c && x != c[k]
    {
      if x in c && x != c[k] {
        var m :| 0 <= m < |c| && c[m] == x;
        assert w[if m < k then m else m - 1] == x;
      }
      if x in w {
        var m :| 0 <= m < |w| && w[m] == x;
        assert c[if m < k then m else m + 1] == x;
      }
    }
  }

  lemma InsertedDistinct(c: seq<int>, k: nat, i: int)
    requires Distinct(c) && k <= |c| && i !in c
    ensures Distinct(Inserted(c, k, i))
    ensures forall x :: x in Inserted(c, k, i) <==> x in c || x == i
  {
    var w := Inserted(c, k, i);
    forall x
      ensures x in w <==> x in c || x == i
    {
      if x in c {
        var m :| 0 <= m < |c| && c[m] == x;
        assert w[if m < k then m else m + 1] == x;
      }
      assert w[k] == i;
    }
  }

  /** Which links outside a list, and of the slot itself, have not changed */
  ghost predicate Kept(links: seq<Link>, links': seq<Link>, c: seq<int>) {
    |links'| == |links| && forall i :: 0 <= i < |links| && i !in c ==> links'[i] == links[i]
  }

  lemma IsAt(c: seq<int>, o: int, j: int)
    requires Distinct(c) && 0 <= o < |c| && c[o] >= 0
    ensures c[o] == At(c, j) <==> o == j
  {
  }

  lemma CutAt(links: seq<Link>, i: int, x: int)
    requires 0 <= i < |links| && 0 <= x < |links|
    ensures |Cut(links, i)| == |links|
    ensures Cut(links, i)[x] == Link(if x == links[i].prv then links[i].nxt else links[x].nxt,
                                     if x == links[i].nxt then links[i].prv else links[x].prv)
  {
  }

  lemma WithoutAt(c: seq<int>, k: nat, o: int)
    requires k < |c| && 0 <= o < |c| && o != k
    ensures var m := if o < k then o else o - 1;
            && Without(c, k)[m] == c[o]
            && At(Without(c, k), m + 1) == (if o + 1 == k then At(c, k + 1) else At(c, o + 1))
            && At(Without(c, k), m - 1) == (if o - 1 == k then At(c, k - 1) else At(c, o - 1))
  {
  }

  /** Cutting a slot out of its list */
  lemma CutChain(links: seq<Link>, head: int, c: seq<int>, k: nat)
    requires Chain(links, head, c) && k < |c|
    ensures Chain(Cut(links, c[k]), if links[c[k]].prv < 0 then links[c[k]].nxt else head, Without(c, k))
    ensures |Cut(links, c[k])| == |links|
  {
    var l', w := Cut(links, c[k]), Without(c, k);
    WithoutDistinct(c, k);
    assert links[c[k]] == Link(At(c, k + 1), At(c, k - 1));
    CutAt(links, c[k], c[k]);
    forall m | 0 <= m < |w|
      ensures 0 <= w[m] < |links| && l'[w[m]] == Link(At(w, m + 1), At(w, m - 1))
    {
      var o := if m < k then m else m + 1;
      WithoutAt(c, k, o);
      CutAt(links, c[k], c[o]);
      IsAt(c, o, k - 1);
      IsAt(c, o, k + 1);
    }
  }

  /** Links of slots that are not in the list stay as they were; so does that of the slot itself. */
  lemma CutOthers(links: seq<Link>, head: int, c: seq<int>, k: nat, i: int)
    requires Chain(links, head, c) && k < |c| && 0 <= i < |links| && (i !in c || i == c[k])
    ensures |Cut(links, c[k])| == |links| && Cut(links, c[k])[i] == links[i]
  {
    CutAt(links, c[k], i);
    assert links[c[k]] == Link(At(c, k + 1), At(c, k - 1));
    if i == c[k] {
      IsAt(c, k, k - 1);
      IsAt(c, k, k + 1);
    }
  }

  lemma PutAt(links: seq<Link>, i: int, p: int, n: int, x: int)
    requires 0 <= i < |links| && 0 <= x < |links| && i != p && i != n
    ensures |Put(links, i, p, n)| == |links|
    ensures Put(links, i, p, n)[x] ==
            if x == i then Link(n, p) else Link(if x == p then i else links[x].nxt, if x == n then i else links[x].prv)
  {
  }

  lemma InsertedAt(c: seq<int>, k: nat, i: int, o: int)
    requires k <= |c| && 0 <= o < |c|
    ensures var m := if o < k then o else o + 1;
            && Inserted(c, k, i)[m] == c[o]
            && At(Inserted(c, k, i), m + 1) == (if o + 1 == k then i else At(c, o + 1))
            && At(Inserted(c, k, i), m - 1) == (if o == k then i else At(c, o - 1))
  {
  }

  /** The slot at place m of the list w has the links l' that it should have. */
  ghost predicate PutFits(links: seq<Link>, l': seq<Link>, w: seq<int>, m: int)
    requires 0 <= m < |w|
  {
    |l'| == |links| && 0 <= w[m] < |links| && l'[w[m]] == Link(At(w, m + 1), At(w, m - 1))
  }

  lemma PutElement(links: seq<Link>, head: int, c: seq<int>, k: nat, i: int, o: int)
    requires Chain(links, head, c) && k <= |c| && i !in c && 0 <= i < |links| && 0 <= o < |c|
    ensures var l', w, m := Put(links, i, At(c, k - 1), At(c, k)), Inserted(c, k, i), if o < k then o else o + 1;
            PutFits(links, l', w, m)
  {
    assert c[o] in c;
    InsertedAt(c, k, i, o);
    PutAt(links, i, At(c, k - 1), At(c, k), c[o]);
    IsAt(c, o, k - 1);
    IsAt(c, o, k);
  }

  lemma PutNew(links: seq<Link>, c: seq<int>, k: nat, i: int)
    requires k <= |c| && i !in c && 0 <= i < |links|
    ensures var l', w := Put(links, i, At(c, k - 1), At(c, k)), Inserted(c, k, i);
            PutFits(links, l', w, k)
    ensures At(Inserted(c, k, i), 0) == if k == 0 then i else At(c, 0)
  {
    assert i != At(c, k - 1) && i != At(c, k);
    PutAt(links, i, At(c, k - 1), At(c, k), i);
  }

  lemma PutAll(links: seq<Link>, head: int, c: seq<int>, k: nat, i: int, m: nat)
    requires Chain(links, head, c) && k <= |c| && i !in c && 0 <= i < |links| && m < |Inserted(c, k, i)|
    ensures PutFits(links, Put(links, i, At(c, k - 1), At(c, k)), Inserted(c, k, i), m)
  {
    if m == k {
      PutNew(links, c, k, i);
    } else {
      assert |Inserted(c, k, i)| == |c| + 1;
      hide Chain, Put, PutFits, Distinct, Inserted, At;
      PutElement(links, head, c, k, i, if m < k then m else m - 1);
    }
  }

  /** Putting a new slot into a list, at place k */
  lemma PutChain(links: seq<Link>, head: int, c: seq<int>, k: nat, i: int)
    requires Chain(links, head, c) && k <= |c| && i !in c && 0 <= i < |links|
    ensures Chain(Put(links, i, At(c, k - 1), At(c, k)), if k == 0 then i else head, Inserted(c, k, i))
    ensures |Put(links, i, At(c, k - 1), At(c, k))| == |links|
  {
    var l', w := Put(links, i, At(c, k - 1), At(c, k)), Inserted(c, k, i);
    assert head == At(c, 0) && At(w, 0) == if k == 0 then i else At(c, 0);
    assert |l'| == |links|;
    assert Distinct(w) by { InsertedDistinct(c, k, i); }
    hide Put, PutFits, Inserted;
    forall m | 0 <= m < |w|
      ensures PutFits(links, l', w, m)
    {
      PutAll(links, head, c, k, i, m);
    }
    hide Chain, Distinct;
    ChainFromFits(links, l', w);
  }

  lemma ChainFromFits(links: seq<Link>, l': seq<Link>, w: seq<int>)
    requires Distinct(w) && |l'| == |links|
    requires forall m :: 0 <= m < |w| ==> PutFits(links, l', w, m)
    ensures Chain(l', At(w, 0), w)
  {
    forall m | 0 <= m < |w|
      ensures 0 <= w[m] < |l'| && l'[w[m]] == Link(At(w, m + 1), At(w, m - 1))
    {
      assert PutFits(links, l', w, m);
    }
  }

  lemma CutKeeps(links: seq<Link>, head: int, c: seq<int>, k: nat)
    requires Chain(links, head, c) && k < |c|
    ensures Kept(links, Cut(links, c[k]), Without(c, k))
  {
    CutAt(links, c[k], c[k]);
    WithoutDistinct(c, k);
    forall i | 0 <= i < |links| && i !in Without(c, k)
      ensures Cut(links, c[k])[i] == links[i]
    {
      CutOthers(links, head, c, k, i);
    }
  }

  lemma PutKeeps(links: seq<Link>, c: seq<int>, k: nat, i: int)
    requires k <= |c| && i !in c && 0 <= i < |links| && i != At(c, k - 1) && i != At(c, k)
    ensures Kept(links, Put(links, i, At(c, k - 1), At(c, k)), Inserted(c, k, i))
  {
    PutAt(links, i, At(c, k - 1), At(c, k), i);
    assert c[..k] + c[k..] == c;
    forall x | 0 <= x < |links| && x !in Inserted(c, k, i)
      ensures Put(links, i, At(c, k - 1), At(c, k))[x] == links[x]
    {
      assert Inserted(c, k, i)[k] == i;
      assert forall y :: y in c ==> y in c[..k] || y in c[k..];
      PutOthers(links, c, k, i, x);
    }
  }

  /** The same for the queue, with its tail */
  lemma CutQueue(links: seq<Link>, head: int, tail: int, c: seq<int>, k: nat)
    requires Queue(links, head, tail, c) && k < |c|
    ensures var (p, n) := (links[c[k]].prv, links[c[k]].nxt);
            Queue(Cut(links, c[k]), if p < 0 then n else head, if n < 0 then p else tail, Without(c, k))
    ensures |Cut(links, c[k])| == |links|
  {
    CutChain(links, head, c, k);
    TailWithout(links, head, tail, c, k);
  }

  lemma TailWithout(links: seq<Link>, head: int, tail: int, c: seq<int>, k: nat)
    requires Queue(links, head, tail, c) && k < |c|
    ensures At(Without(c, k), |Without(c, k)| - 1) == if links[c[k]].nxt < 0 then links[c[k]].prv else tail
  {
    OnQueue(links, head, tail, c, k);
    LastWithout(c, k);
    assert k + 1 < |c| ==> 0 <= c[k + 1];
    assert k + 1 >= |c| ==> At(c, k + 1) < 0;
  }

  lemma LastWithout(c: seq<int>, k: nat)
    requires k < |c|
    ensures At(Without(c, k), |Without(c, k)| - 1) == if k + 1 < |c| then At(c, |c| - 1) else At(c, k - 1)
  {
  }

  /** What stands behind place k - 1 */
  lemma AtBehind(links: seq<Link>, head: int, c: seq<int>, k: nat, i: int)
    requires Chain(links, head, c) && k <= |c| && i !in c && 0 <= i
    ensures At(c, k - 1) < |links| && At(c, k) < |links| && i != At(c, k - 1) && i != At(c, k)
    ensures At(c, k) == if At(c, k - 1) < 0 then head else links[At(c, k - 1)].nxt
  {
  }

  lemma PutQueue(links: seq<Link>, head: int, tail: int, c: seq<int>, k: nat, i: int)
    requires Queue(links, head, tail, c) && k <= |c| && i !in c && 0 <= i < |links|
    ensures var (p, n) := (At(c, k - 1), At(c, k));
            Queue(Put(links, i, p, n), if p < 0 then i else head, if n < 0 then i else tail, Inserted(c, k, i))
    ensures |Put(links, i, At(c, k - 1), At(c, k))| == |links|
  {
    var w := Inserted(c, k, i);
    assert head == At(c, 0) && tail == At(c, |c| - 1) && |w| == |c| + 1;
    assert At(w, |w| - 1) == if k < |c| then At(c, |c| - 1) else i;
    assert k < |c| ==> At(c, k) >= 0;
    assert k > 0 ==> At(c, k - 1) >= 0;
    hide Chain, Put, Inserted;
    PutChain(links, head, c, k, i);
  }

  lemma PutOthers(links: seq<Link>, c: seq<int>, k: nat, i: int, x: int)
    requires k <= |c| && i !in c && 0 <= i < |links| && 0 <= x < |links| && x !in c && x != i
    ensures |Put(links, i, At(c, k - 1), At(c, k))| == |links|
    ensures Put(links, i, At(c, k - 1), At(c, k))[x] == links[x]
  {
    PutAt(links, i, At(c, k - 1), At(c, k), x);
  }

  lemma ChainFrame(links: seq<Link>, links': seq<Link>, head: int, c: seq<int>)
    requires Chain(links, head, c) && |links| <= |links'|
    requires forall i :: 0 <= i < |links| && i in c ==> links'[i] == links[i]
    ensures Chain(links', head, c)
  {
    forall k | 0 <= k < |c|
      ensures links'[c[k]] == links[c[k]]
    {
      assert c[k] in c;
    }
  }

  lemma FreeFrame(links: seq<Link>, links': seq<Link>, head: int, c: seq<int>)
    requires FreeList(links, head, c) && |links| <= |links'|
    requires forall i :: 0 <= i < |links| && i in c ==> links'[i].nxt == links[i].nxt
    ensures FreeList(links', head, c)
  {
    forall k | 0 <= k < |c|
      ensures links'[c[k]].nxt == links[c[k]].nxt
    {
      assert c[k] in c;
    }
  }

  lemma FreePush(links: seq<Link>, head: int, c: seq<int>, i: int, links': seq<Link>)
    requires FreeList(links, head, c) && i !in c && 0 <= i < |links| == |links'|
    requires forall x :: 0 <= x < |links| && x in c ==> links'[x].nxt == links[x].nxt
    requires links'[i].nxt == head
    ensures FreeList(links', i, [i] + c)
  {
    FreeFrame(links, links', head, c);
    forall k | 0 <= k < |c| + 1
      ensures var w := [i] + c; 0 <= w[k] < |links'| && links'[w[k]].nxt == At(w, k + 1)
    {
      assert k > 0 ==> ([i] + c)[k] == c[k - 1];
    }
  }

  lemma FreePop(links: seq<Link>, head: int, c: seq<int>)
    requires FreeList(links, head, c) && |c| > 0
    ensures head == c[0] && 0 <= head < |links| && head !in c[1..] && FreeList(links, links[head].nxt, c[1..])
  {
  }

  // ----- Hash chains -----

  /** Where a slot of q stands on its chain */
  lemma OnChain(links: seq<Link>, heads: seq<int>, chains: seq<seq<int>>, q: seq<int>, bucket: int -> int, i: int)
    returns (k: nat)
    requires Hashed(links, heads, chains, q, bucket) && i in q
    ensures 0 <= bucket(i) < |chains| == |heads| && k < |chains[bucket(i)]| && chains[bucket(i)][k] == i
    ensures 0 <= i < |links| && links[i].nxt < |links| && links[i].prv < |links|
  {
    var c := chains[bucket(i)];
    assert i in c;
    k :| 0 <= k < |c| && c[k] == i;
    assert Chain(links, heads[bucket(i)], c);
  }

  /** The head of a chain is not a slot that is not in q. */
  lemma HeadOf(links: seq<Link>, heads: seq<int>, chains: seq<seq<int>>, q: seq<int>, bucket: int -> int, b: int,
               i: int)
    requires Hashed(links, heads, chains, q, bucket) && 0 <= b < |heads| && i !in q && i >= 0
    ensures heads[b] < |links| && heads[b] != i && |chains| == |heads|
  {
    assert Chain(links, heads[b], chains[b]);
    if chains[b] != [] {
      assert chains[b][0] in chains[b];
    }
  }

  /** The assignments that take slot i off its chain */
  method UnlinkHash(links: array<Link>, heads: array<int>, h: nat, i: int)
    requires h < heads.Length && 0 <= i < links.Length && links[i].nxt < links.Length && links[i].prv < links.Length
    modifies links, heads
    ensures links[..] == Cut(old(links[..]), i)
    ensures heads[..] == old(heads[..])[h := if old(links[i].prv) < 0 then old(links[i].nxt) else old(heads[h])]
  {
    var prevind, nextind := links[i].prv, links[i].nxt;
    if prevind < 0 {
      heads[h] := nextind;
    } else {
      links[prevind] := links[prevind].(nxt := nextind);
    }
    if nextind >= 0 {
      links[nextind] := links[nextind].(prv := prevind);
    }
  }

  /** The assignments that put slot i at the front of its chain */
  method PushHash(links: array<Link>, heads: array<int>, h: nat, i: int)
    requires h < heads.Length && 0 <= i < links.Length && heads[h] < links.Length && heads[h] != i
    modifies links, heads
    ensures links[..] == Put(old(links[..]), i, END, old(heads[h]))
    ensures heads[..] == old(heads[..])[h := i]
  {
    var nxtind := heads[h];
    links[i] := Link(nxtind, END);
    if nxtind >= 0 {
      links[nxtind] := links[nxtind].(prv := i);
    }
    heads[h] := i;
  }

  /** One chain for each bucket, holding exactly those of the slots in q that hash to it */
  ghost predicate Hashed(links: seq<Link>, heads: seq<int>, chains: seq<seq<int>>, q: seq<int>, bucket: int -> int) {
    && |heads| == |chains|
    && (forall b :: 0 <= b < |heads| ==> Chain(links, heads[b], chains[b]))
    && Buckets(chains, q, bucket)
  }

  lemma BucketsApart(chains: seq<seq<int>>, q: seq<int>, bucket: int -> int, b: int, b': int)
    requires Buckets(chains, q, bucket) && 0 <= b < |chains| && 0 <= b' < |chains| && b != b'
    ensures forall x :: x in chains[b'] ==> x !in chains[b] && x in q
  {
    forall x | x in chains[b']
      ensures x !in chains[b] && x in q
    {
      assert bucket(x) == b' && x in q;
      assert x in chains[b] ==> bucket(x) == b;
    }
  }

  lemma CutOtherChain(links: seq<Link>, head: int, c: seq<int>, k: nat, head': int, c': seq<int>)
    requires Chain(links, head, c) && k < |c| && Chain(links, head', c')
    requires forall x :: x in c' ==> x !in c
    ensures Chain(Cut(links, c[k]), head', c')
  {
    CutAt(links, c[k], c[k]);
    forall i | 0 <= i < |links| && i in c'
      ensures Cut(links, c[k])[i] == links[i]
    {
      CutOthers(links, head, c, k, i);
    }
    ChainFrame(links, Cut(links, c[k]), head', c');
  }

  lemma PutOtherChain(links: seq<Link>, head: int, c: seq<int>, i: int, head': int, c': seq<int>)
    requires Chain(links, head, c) && i !in c && 0 <= i < |links| && Chain(links, head', c')
    requires forall x :: x in c' ==> x !in c && x != i
    ensures Chain(Put(links, i, END, head), head', c')
  {
    PutAt(links, i, END, head, i);
    forall x | 0 <= x < |links| && x in c'
      ensures Put(links, i, END, head)[x] == links[x]
    {
      PutOthers(links, c, 0, i, x);
    }
    ChainFrame(links, Put(links, i, END, head), head', c');
  }

  /** Which slots are on which chain */
  ghost predicate Buckets(chains: seq<seq<int>>, q: seq<int>, bucket: int -> int) {
    && (forall b, i :: 0 <= b < |chains| && i in chains[b] ==> bucket(i) == b && i in q)
    && (forall i :: i in q ==> 0 <= bucket(i) < |chains| && i in chains[bucket(i)])
  }

  /** Only the chain of bucket b has changed. */
  lemma HashedChange(links': seq<Link>, heads: seq<int>, heads': seq<int>, chains: seq<seq<int>>,
                     chains': seq<seq<int>>,
                     q': seq<int>, bucket': int -> int, b: int)
    requires |heads'| == |heads| == |chains| == |chains'| && 0 <= b < |heads|
    requires forall b' :: 0 <= b' < |heads| && b' != b ==>
               heads'[b'] == heads[b'] && chains'[b'] == chains[b'] && Chain(links', heads[b'], chains[b'])
    requires Chain(links', heads'[b], chains'[b]) && Buckets(chains', q', bucket')
    ensures Hashed(links', heads', chains', q', bucket')
  {
  }

  /** Taking a slot off its chain, and off q */
  lemma HashedCut(links: seq<Link>, heads: seq<int>, chains: seq<seq<int>>, q: seq<int>, q': seq<int>,
                  bucket: int -> int, bucket': int -> int, k: nat, i: int)
    requires Hashed(links, heads, chains, q, bucket)
    requires 0 <= bucket(i) < |chains| && k < |chains[bucket(i)]| && chains[bucket(i)][k] == i
    requires forall x :: x in q' <==> x in q && x != i
    requires forall x :: x in q' ==> bucket'(x) == bucket(x)
    ensures 0 <= i < |links|
    ensures var b := bucket(i);
            Hashed(Cut(links, i), heads[b := if links[i].prv < 0 then links[i].nxt else heads[b]],
                   chains[b := Without(chains[b], k)], q', bucket')
    ensures |Cut(links, i)| == |links|
  {
    var b := bucket(i);
    var links', heads', chains' := Cut(links, i), heads[b := if links[i].prv < 0 then links[i].nxt else heads[b]],
        chains[b := Without(chains[b], k)];
    CutChain(links, heads[b], chains[b], k);
    forall b' | 0 <= b' < |heads| && b' != b
      ensures Chain(links', heads[b'], chains[b'])
    {
      BucketsApart(chains, q, bucket, b, b');
      CutOtherChain(links, heads[b], chains[b], k, heads[b'], chains[b']);
    }
    BucketsCut(chains, q, q', bucket, bucket', k, i);
    HashedChange(links', heads, heads', chains, chains', q', bucket', b);
  }

  lemma BucketsCut(chains: seq<seq<int>>, q: seq<int>, q': seq<int>, bucket: int -> int, bucket': int -> int, k: nat,
                   i: int)
    requires Buckets(chains, q, bucket)
    requires 0 <= bucket(i) < |chains| && k < |chains[bucket(i)]| && chains[bucket(i)][k] == i &&
             Distinct(chains[bucket(i)])
    requires forall x :: x in q' <==> x in q && x != i
    requires forall x :: x in q' ==> bucket'(x) == bucket(x)
    ensures Buckets(chains[bucket(i) := Without(chains[bucket(i)], k)], q', bucket')
  {
    WithoutDistinct(chains[bucket(i)], k);
  }

  /** Putting a new slot at the front of its chain */
  lemma HashedPush(links: seq<Link>, heads: seq<int>, chains: seq<seq<int>>, q: seq<int>, q': seq<int>,
                   bucket: int -> int, bucket': int -> int, i: int)
    requires Hashed(links, heads, chains, q, bucket)
    requires 0 <= i < |links| && i !in q && 0 <= bucket'(i) < |chains|
    requires forall x :: x in q' <==> x in q || x == i
    requires forall x :: x in q ==> bucket'(x) == bucket(x)
    ensures var b := bucket'(i);
            Hashed(Put(links, i, END, heads[b]), heads[b := i], chains[b := Inserted(chains[b], 0, i)], q', bucket')
    ensures |Put(links, i, END, heads[bucket'(i)])| == |links|
  {
    var b := bucket'(i);
    var links', heads', chains' := Put(links, i, END, heads[b]), heads[b := i], chains[b := Inserted(chains[b], 0, i)];
    assert i !in chains[b];
    PutChain(links, heads[b], chains[b], 0, i);
    forall b' | 0 <= b' < |heads| && b' != b
      ensures Chain(links', heads[b'], chains[b'])
    {
      BucketsApart(chains, q, bucket, b, b');
      PutOtherChain(links, heads[b], chains[b], i, heads[b'], chains[b']);
    }
    BucketsPush(chains, q, q', bucket, bucket', i);
    HashedChange(links', heads, heads', chains, chains', q', bucket', b);
  }

  lemma BucketsPush(chains: seq<seq<int>>, q: seq<int>, q': seq<int>, bucket: int -> int, bucket': int -> int, i: int)
    requires Buckets(chains, q, bucket)
    requires i !in q && 0 <= bucket'(i) < |chains|
    requires forall x :: x in q' <==> x in q || x == i
    requires forall x :: x in q ==> bucket'(x) == bucket(x)
    ensures Buckets(chains[bucket'(i) := Inserted(chains[bucket'(i)], 0, i)], q', bucket')
  {
    assert forall x :: x in Inserted(chains[bucket'(i)], 0, i) <==> x == i || x in chains[bucket'(i)];
  }

  /** Moving slots about in q, or growing the segment, does not touch the hash chains. */
  lemma HashedFrame(links: seq<Link>, links': seq<Link>, heads: seq<int>, chains: seq<seq<int>>, q: seq<int>,
                    q': seq<int>, bucket: int -> int, bucket': int -> int)
    requires Hashed(links, heads, chains, q, bucket)
    requires links <= links'
    requires forall x :: x in q' <==> x in q
    requires forall x :: x in q ==> bucket'(x) == bucket(x)
    ensures Hashed(links', heads, chains, q', bucket')
  {
    forall b | 0 <= b < |heads|
      ensures Chain(links', heads[b], chains[b])
    {
      ChainFrame(links, links', heads[b], chains[b]);
    }
  }
}
