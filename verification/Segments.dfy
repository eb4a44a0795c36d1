/**
 What the job segment and the printer segment have in common: slots that are shared between a
 queue and a chain of free slots, and that are cleared one after the other along the queue.
 */
module Segments {
  import opened Chains

  /** Every slot is either queued or free, and only once. */
  ghost predicate Slots(n: nat, q: seq<int>, free: seq<int>) {
    && |q| + |free| == n
    && (forall i :: 0 <= i < n <==> i in q || i in free)
    && (forall i :: i in q ==> i !in free)
  }

  /** The slots qs are those of q but for slot i. */
  ghost predicate Leaves(q: seq<int>, qs: seq<int>, i: int) {
    forall x :: x in qs <==> x in q && x != i
  }

  lemma SlotsFreed(n: nat, q: seq<int>, free: seq<int>, k: nat)
    requires Slots(n, q, free) && Distinct(q) && k < |q|
    ensures Slots(n, Without(q, k), [q[k]] + free)
  {
    WithoutDistinct(q, k);
    assert forall x :: x in [q[k]] + free <==> x == q[k] || x in free;
    assert q[k] in q;
  }

  /** The links after a slot has left the queue and become the head of the free chain */
  lemma FreedLinks(was: seq<Link>, cut: seq<Link>, head: int, tail: int, q: seq<int>, freech: int, free: seq<int>,
                   i: int)
    requires Queue(cut, head, tail, q) && Kept(was, cut, q) && FreeList(was, freech, free)
    requires 0 <= i < |cut| && i !in q && i !in free && forall x :: x in free ==> x !in q
    ensures Queue(cut[i := Link(freech, END)], head, tail, q)
    ensures FreeList(cut[i := Link(freech, END)], i, [i] + free)
  {
    var links := cut[i := Link(freech, END)];
    ChainFrame(cut, links, head, q);
    FreePush(was, freech, free, i, links);
  }

  /** The cells of the slots q are the same in a segment that may have grown. */
  ghost predicate SameStart<T(!new)>(q: seq<int>, cells: seq<T>, cells': seq<T>) {
    |cells| <= |cells'| && forall x :: x in q ==> 0 <= x < |cells| && cells'[x] == cells[x]
  }

  lemma FreeHead(links: seq<Link>, freech: int, free: seq<int>)
    requires FreeList(links, freech, free) && free != []
    ensures freech == free[0] && 0 <= freech < |links|
  {
  }

  /** Taking the first free slot and putting it behind the tail of the queue */
  lemma AppendLinks(was: seq<Link>, head: int, tail: int, q: seq<int>, freech: int, free: seq<int>)
    requires Queue(was, head, tail, q) && FreeList(was, freech, free) && Slots(|was|, q, free) && free != []
    ensures 0 <= free[0] < |was| && tail < |was| && tail != free[0]
    ensures var (i, w) := (free[0], Inserted(q, |q|, free[0]));
            var links := Put(was, i, tail, END);
            && |links| == |was|
            && Queue(links, if tail < 0 then i else head, i, w)
            && FreeList(links, was[i].nxt, free[1..])
            && Slots(|was|, w, free[1..])
  {
    hide FreeList;
    FreeTail(was, freech, free);
    var i := free[0];
    assert free == [i] + free[1..];
    FirstFree(|was|, q, free);
    AtBehind(was, head, q, |q|, i);
    PutQueue(was, head, tail, q, |q|, i);
    PutKeeps(was, q, |q|, i);
    FreeUnqueued(was, Put(was, i, tail, END), was[i].nxt, free[1..], q, Inserted(q, |q|, i), |q|, i);
  }

  lemma FreeTail(links: seq<Link>, freech: int, free: seq<int>)
    requires FreeList(links, freech, free) && free != []
    ensures 0 <= free[0] < |links| && FreeList(links, links[free[0]].nxt, free[1..])
    ensures free[0] !in free[1..]
  {
  }

  lemma EmptySegment(links: seq<Link>)
    requires Extends([], links, END)
    ensures Queue(links, END, END, []) && FreeList(links, 0, Upto(0, |links|)) && Slots(|links|, [], Upto(0, |links|))
  {
    FreeGrown([], links, END, []);
    SlotsGrown(0, |links|, [], []);
    assert Upto(0, |links|) + [] == Upto(0, |links|);
  }

  lemma NoneHashed(links: seq<Link>, heads: seq<int>, chains: seq<seq<int>>, bucket: int -> int)
    requires |heads| == |chains| && forall b :: 0 <= b < |heads| ==> heads[b] == END && chains[b] == []
    ensures Hashed(links, heads, chains, [], bucket)
  {
  }

  lemma EndOfQueue(q: seq<int>, k: nat)
    requires k <= |q| && forall x :: x in q ==> 0 <= x
    ensures At(q, k) < 0 <==> k == |q|
  {
    assert k < |q| ==> q[k] in q;
  }

  lemma NotBeside(q: seq<int>, k: nat)
    requires Distinct(q) && k < |q| && q[k] >= 0
    ensures At(q, k + 1) != q[k] && At(q, k - 1) != q[k]
  {
  }

  /** Taking the slot at place k off the queue and making it the head of the free chain */
  lemma CutFreed(was: seq<Link>, head: int, tail: int, q: seq<int>, freech: int, free: seq<int>, k: nat)
    requires Queue(was, head, tail, q) && FreeList(was, freech, free) && Slots(|was|, q, free) && k < |q|
    ensures 0 <= q[k] < |was| && was[q[k]].nxt < |was| && was[q[k]].prv < |was|
    ensures var (i, w) := (q[k], Without(q, k));
            var links := Cut(was, i)[i := Link(freech, END)];
            && |links| == |was|
            && Queue(links, if was[i].prv < 0 then was[i].nxt else head, if was[i].nxt < 0 then was[i].prv else tail, w)
            && FreeList(links, i, [i] + free)
            && Slots(|was|, w, [i] + free)
  {
    CutQueue(was, head, tail, q, k);
    CutKeeps(was, head, q, k);
    WithoutDistinct(q, k);
    assert q[k] in q;
    var l := was[q[k]];
    FreedLinks(was, Cut(was, q[k]), if l.prv < 0 then l.nxt else head, if l.nxt < 0 then l.prv else tail,
               Without(q, k), freech, free, q[k]);
    SlotsFreed(|was|, q, free, k);
  }

  /** The array a with more elements behind it */
  method Longer<T>(a: array<T>, n: nat, fill: T) returns (b: array<T>)
    requires n >= a.Length
    ensures fresh(b) && b.Length == n && a[..] <= b[..]
    ensures forall k :: a.Length <= k < n ==> b[k] == fill
  {
    b := new T[n](i reads a => if 0 <= i < a.Length then a[i] else fill);
  }

  /** The slots from `from` to n, in order */
  function Upto(from: nat, n: nat): (s: seq<int>)
    requires from <= n
    ensures |s| == n - from && forall k :: 0 <= k < |s| ==> s[k] == from + k
  {
    seq(n - from, k => from + k)
  }

  /** The links of a segment that has grown: the new slots are chained, in order, before the free ones. */
  ghost predicate Extends(was: seq<Link>, links: seq<Link>, freech: int) {
    && |was| < |links|
    && (forall i :: 0 <= i < |was| ==> links[i] == was[i])
    && (forall i :: |was| <= i < |links| ==> links[i] == Link(if i + 1 < |links| then i + 1 else freech, END))
  }

  lemma FreeGrown(was: seq<Link>, links: seq<Link>, freech: int, free: seq<int>)
    requires FreeList(was, freech, free) && Extends(was, links, freech)
    ensures FreeList(links, |was|, Upto(|was|, |links|) + free)
  {
    hide Upto, At;
    var all := Upto(|was|, |links|) + free;
    NewDistinct(|was|, |links|, free);
    GrownSlot(was, links, freech, free, 0);
    forall k | 0 <= k < |all|
      ensures 0 <= all[k] < |links| && links[all[k]].nxt == At(all, k + 1)
    {
      GrownSlot(was, links, freech, free, k);
    }
  }

  lemma NewDistinct(n: nat, m: nat, free: seq<int>)
    requires n <= m && Distinct(free) && forall k :: 0 <= k < |free| ==> free[k] < n
    ensures Distinct(Upto(n, m) + free)
  {
    hide Upto;
    var all := Upto(n, m) + free;
    forall j, k | 0 <= j < k < |all|
      ensures all[j] != all[k]
    {
      assert all[k] == if k < m - n then n + k else free[k - (m - n)];
      assert all[j] == if j < m - n then n + j else free[j - (m - n)];
    }
  }

  lemma GrownSlot(was: seq<Link>, links: seq<Link>, freech: int, free: seq<int>, k: nat)
    requires FreeList(was, freech, free) && Extends(was, links, freech) && k < |links| - |was| + |free|
    ensures var all := Upto(|was|, |links|) + free;
            0 <= all[k] < |links| && links[all[k]].nxt == At(all, k + 1) && |was| == At(all, 0)
  {
    hide Upto, Distinct;
    var n, all := |links| - |was|, Upto(|was|, |links|) + free;
    if k < n {
      assert all[k] == |was| + k;
    } else {
      assert all[k] == free[k - n] && At(all, k + 1) == At(free, k - n + 1);
    }
  }

  lemma SlotsGrown(n: nat, m: nat, q: seq<int>, free: seq<int>)
    requires Slots(n, q, free) && n <= m
    ensures Slots(m, q, Upto(n, m) + free)
  {
    var all := Upto(n, m) + free;
    forall x
      ensures x in all <==> n <= x < m || x in free
    {
      if n <= x < m {
        assert Upto(n, m)[x - n] == x;
      }
    }
  }

  lemma LinksGrown(was: seq<Link>, links: seq<Link>, head: int, tail: int, q: seq<int>, freech: int, free: seq<int>)
    requires Queue(was, head, tail, q) && FreeList(was, freech, free) && Slots(|was|, q, free)
    requires Extends(was, links, freech)
    ensures Queue(links, head, tail, q) && FreeList(links, |was|, Upto(|was|, |links|) + free)
    ensures Slots(|links|, q, Upto(|was|, |links|) + free)
    ensures forall x :: x in q ==> 0 <= x < |was|
  {
    ChainFrame(was, links, head, q);
    FreeGrown(was, links, freech, free);
    SlotsGrown(|was|, |links|, q, free);
  }

  /** The slots qs are those of q and slot i. */
  ghost predicate Joins(q: seq<int>, qs: seq<int>, i: int) {
    forall x :: x in qs <==> x in q || x == i
  }

  lemma QueueEnd(links: seq<Link>, head: int, tail: int, q: seq<int>)
    requires Queue(links, head, tail, q)
    ensures Distinct(q) && tail == At(q, |q| - 1)
  {
  }

  lemma FirstFree(n: nat, q: seq<int>, free: seq<int>)
    requires Slots(n, q, free) && free != []
    ensures 0 <= free[0] < n && free[0] !in q
  {
    assert free[0] in free;
  }

  lemma TakenSlot(links: seq<Link>, head: int, tail: int, q: seq<int>, free: seq<int>, i: int)
    requires Slots(|links|, q, [i] + free)
    ensures 0 <= i < |links| && i !in q
  {
    FirstFree(|links|, q, [i] + free);
  }

  lemma FreeUnqueued(was: seq<Link>, links: seq<Link>, freech: int, free: seq<int>, q: seq<int>, q': seq<int>, k: nat,
                     i: int)
    requires FreeList(was, freech, free) && Slots(|was|, q, [i] + free) && Distinct(q)
    requires k <= |q| && q' == Inserted(q, k, i) && Kept(was, links, q') && i !in free
    ensures FreeList(links, freech, free) && Slots(|links|, q', free)
  {
    assert forall x :: x in [i] + free <==> x == i || x in free;
    InsertedDistinct(q, k, i);
    FreeFrame(was, links, freech, free);
  }

  lemma FreeRemains(n: nat, q: seq<int>, free: seq<int>)
    requires Slots(n, q, free)
    ensures |q| <= n && (|q| < n ==> free != [] && free[0] !in q)
  {
    if free != [] {
      FirstFree(n, q, free);
    }
  }

  /** A queue in which the slot at place k has gone to place m */
  function Moved(q: seq<int>, k: nat, m: nat): (q': seq<int>)
    requires k < |q| && m < |q|
    ensures |q'| == |q| && q'[m] == q[k] && Without(q', m) == Without(q, k)
  {
    Inserted(Without(q, k), m, q[k])
  }

  lemma MovedFree(was: seq<Link>, cut: seq<Link>, links: seq<Link>, freech: int, free: seq<int>, q: seq<int>, k: nat,
                  m: nat)
    requires FreeList(was, freech, free) && Slots(|was|, q, free) && Distinct(q)
    requires k < |q| && m < |q|
    requires Kept(was, cut, Without(q, k)) && Kept(cut, links, Moved(q, k, m))
    ensures FreeList(links, freech, free) && Slots(|links|, Moved(q, k, m), free)
  {
    MovedSame(q, k, m);
    WithoutDistinct(q, k);
    FreeFrame(was, links, freech, free);
  }

  lemma MovedSame(q: seq<int>, k: nat, m: nat)
    requires Distinct(q) && k < |q| && m < |q|
    ensures Distinct(Moved(q, k, m)) && forall x :: x in Moved(q, k, m) <==> x in q
  {
    WithoutDistinct(q, k);
    InsertedDistinct(Without(q, k), m, q[k]);
    assert q[k] in q;
  }

  lemma MovesDown(q: seq<int>, k: nat, n: nat)
    requires k + n < |q| && Distinct(q)
    ensures q[k + n] == q[k] ==> n == 0 && Moved(q, k, k) == q
    ensures q[k + n] != q[k] ==> n > 0 && At(Without(q, k), k + n - 1) == q[k + n]
  {
  }

  lemma AtWithout(q: seq<int>, k: nat)
    requires k < |q|
    ensures At(Without(q, k), k) == At(q, k + 1)
  {
  }

  // ----- Clearing -----

  /** The slots of a queue but for those with a cell that goes, in order */
  function KeptSlots<T>(q: seq<int>, cells: seq<T>, goes: T -> bool): seq<int> {
    if q == [] then []
    else
      var x := q[|q| - 1];
      KeptSlots(q[..|q| - 1], cells, goes) + if 0 <= x < |cells| && !goes(cells[x]) then [x] else []
  }

  /** The cells when those of the queue have been cleared */
  function ClearedCells<T>(q: seq<int>, cells: seq<T>, clear: T -> T): (cells': seq<T>)
    ensures |cells'| == |cells|
  {
    seq(|cells|, x requires 0 <= x < |cells| => if x in q then clear(cells[x]) else cells[x])
  }

  /** A loop along the queue has come to place i of the old queue q0, which now is place k. */
  ghost predicate Clearing<T(!new)>(q0: seq<int>, cells0: seq<T>, goes: T -> bool, clear: T -> T, i: nat, k: nat,
                             q: seq<int>, cells: seq<T>) {
    && Distinct(q0) && (forall x :: x in q0 ==> 0 <= x < |cells0|)
    && i <= |q0|
    && k == |KeptSlots(q0[..i], cells0, goes)|
    && q == KeptSlots(q0[..i], cells0, goes) + q0[i..]
    && cells == ClearedCells(q0[..i], cells0, clear)
  }

  lemma ClearingStarts<T(!new)>(q0: seq<int>, cells0: seq<T>, goes: T -> bool, clear: T -> T)
    requires Distinct(q0) && forall x :: x in q0 ==> 0 <= x < |cells0|
    ensures Clearing(q0, cells0, goes, clear, 0, 0, q0, cells0)
  {
    assert ClearedCells([], cells0, clear) == cells0;
  }

  lemma ClearingAt<T(!new)>(q0: seq<int>, cells0: seq<T>, goes: T -> bool, clear: T -> T, i: nat, k: nat, q: seq<int>,
                     cells: seq<T>)
    requires Clearing(q0, cells0, goes, clear, i, k, q, cells)
    ensures At(q, k) >= 0 ==>
              i < |q0| && k < |q| && q[k] == q0[i] && 0 <= q[k] < |cells| == |cells0| && cells[q[k]] == cells0[q0[i]]
    ensures At(q, k) < 0 ==> i == |q0|
  {
    if i < |q0| {
      assert q[k] == q0[i] && q0[i] in q0;
      assert q0[i] !in q0[..i];
    }
  }

  lemma ClearingStep<T(!new)>(q0: seq<int>, cells0: seq<T>, goes: T -> bool, clear: T -> T, i: nat, k: nat,
                       q: seq<int>, cells: seq<T>)
    requires Clearing(q0, cells0, goes, clear, i, k, q, cells) && i < |q0| && k < |q|
    ensures |cells| == |cells0| && 0 <= q[k] < |cells|
    ensures var cells' := cells[q[k] := clear(cells[q[k]])];
            if goes(cells[q[k]]) then Clearing(q0, cells0, goes, clear, i + 1, k, Without(q, k), cells')
            else Clearing(q0, cells0, goes, clear, i + 1, k + 1, q, cells')
  {
    ClearingAt(q0, cells0, goes, clear, i, k, q, cells);
    assert q0[..i + 1][..i] == q0[..i] && q0[i] in q0;
    assert forall x :: x in q0[..i + 1] <==> x in q0[..i] || x == q0[i];
    assert cells[q[k] := clear(cells[q[k]])] == ClearedCells(q0[..i + 1], cells0, clear);
  }

  lemma ClearingEnds<T(!new)>(q0: seq<int>, cells0: seq<T>, goes: T -> bool, clear: T -> T, i: nat, k: nat,
                       q: seq<int>, cells: seq<T>)
    requires Clearing(q0, cells0, goes, clear, i, k, q, cells) && At(q, k) < 0
    ensures q == KeptSlots(q0, cells0, goes) && cells == ClearedCells(q0, cells0, clear)
  {
    ClearingAt(q0, cells0, goes, clear, i, k, q, cells);
    assert q0[..i] == q0;
  }

  /** x stands before y. */
  ghost predicate Before(s: seq<int>, x: int, y: int) {
    exists m, n :: 0 <= m < n < |s| && s[m] == x && s[n] == y
  }

  /** What is kept is the queue without the slots that go: the others stay, in their order. */
  lemma {:induction false} KeptInOrder<T(!new)>(q: seq<int>, cells: seq<T>, goes: T -> bool, i: nat, k: nat)
    requires i < k < |q| && Keeps(cells, goes, q[i]) && Keeps(cells, goes, q[k])
    ensures Before(KeptSlots(q, cells, goes), q[i], q[k])
  {
    var before := q[..|q| - 1];
    var kept, all := KeptSlots(before, cells, goes), KeptSlots(q, cells, goes);
    assert before[i] == q[i] && kept <= all;
    if k < |q| - 1 {
      assert before[k] == q[k];
      KeptInOrder(before, cells, goes, i, k);
      var m, n :| 0 <= m < n < |kept| && kept[m] == q[i] && kept[n] == q[k];
      assert 0 <= m < n < |all| && all[m] == q[i] && all[n] == q[k];
    } else {
      KeptExactly(before, cells, goes, q[i]);
      var m :| 0 <= m < |kept| && kept[m] == q[i];
      assert all == kept + [q[k]];
      assert 0 <= m < |kept| < |all| && all[m] == q[i] && all[|kept|] == q[k];
    }
  }

  predicate Keeps<T>(cells: seq<T>, goes: T -> bool, x: int) {
    0 <= x < |cells| && !goes(cells[x])
  }

  lemma {:induction false} KeptExactly<T(!new)>(q: seq<int>, cells: seq<T>, goes: T -> bool, x: int)
    ensures x in KeptSlots(q, cells, goes) <==> x in q && Keeps(cells, goes, x)
    ensures |KeptSlots(q, cells, goes)| <= |q|
  {
    if q != [] {
      var before := q[..|q| - 1];
      KeptExactly(before, cells, goes, x);
      assert x in q <==> x in before || x == q[|q| - 1];
    }
  }
}
