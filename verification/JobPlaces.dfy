/** Where enqueue puts a job, and where a change of priority moves it. */
module JobPlaces {
  import opened Common
  import opened Chains
  import opened Segments
  import opened JobLists

  /** The priority left after n jobs have been passed at a cost of d each */
  function Decayed(f: real, n: nat, d: real): real {
    if n == 0 then f else Decayed(f, n - 1, d) - d
  }

  lemma {:induction false} DecayedMore(f: real, n: nat, d: real)
    ensures Decayed(f - d, n, d) == Decayed(f, n + 1, d)
    ensures d >= 0.0 ==> Decayed(f, n, d) <= f
  {
    if n > 0 {
      DecayedMore(f, n - 1, d);
    }
  }

  lemma {:induction false} DecayedByOne(pri: int, n: nat)
    ensures Decayed(pri as real, n, 1.0) == (pri - n) as real
  {
    if n > 0 {
      DecayedByOne(pri, n - 1);
    }
  }

  /** Job k is below the priority left to a job that has passed all behind it. */
  ghost predicate Passed(jobs: seq<Job>, f: real, d: real, k: nat)
    requires k < |jobs|
  {
    (jobs[k].pri as real) < Decayed(f, |jobs| - 1 - k, d)
  }

  /** Place m is the first one, coming from the tail, at which the job before it reaches the
      priority that is left. */
  ghost predicate FirstStop(jobs: seq<Job>, f: real, d: real, m: nat) {
    && m <= |jobs|
    && (m > 0 ==> jobs[m - 1].pri as real >= Decayed(f, |jobs| - m, d))
    && (forall k :: m <= k < |jobs| ==> Passed(jobs, f, d, k))
  }

  lemma {:induction false} PlacedAt(jobs: seq<Job>, f: real, time: int, d: real, m: nat)
    ensures FirstStop(jobs, f, d, m) <==> m == PlaceUp(jobs, f, false, time, d).0
    ensures PlaceUp(jobs, f, false, time, d).1 == Decayed(f, |jobs| - PlaceUp(jobs, f, false, time, d).0, d)
    decreases |jobs|
  {
    if jobs != [] && (jobs[|jobs| - 1].pri as real) < f {
      var before := jobs[..|jobs| - 1];
      PlacedAt(before, f - d, time, d, m);
      DecayedMore(f, |before| - PlaceUp(before, f - d, false, time, d).0, d);
      StopBefore(jobs, f, d, m);
    } else if jobs != [] {
      assert m < |jobs| ==> (Passed(jobs, f, d, |jobs| - 1) <==> (jobs[|jobs| - 1].pri as real) < f);
    }
  }

  /** The last job is passed: the stop is one of those of the jobs before it. */
  lemma StopBefore(jobs: seq<Job>, f: real, d: real, m: nat)
    requires jobs != [] && (jobs[|jobs| - 1].pri as real) < f
    ensures FirstStop(jobs, f, d, m) <==> FirstStop(jobs[..|jobs| - 1], f - d, d, m)
  {
    var before, g := jobs[..|jobs| - 1], f - d;
    forall k | 0 <= k < |before|
      ensures Passed(before, g, d, k) <==> Passed(jobs, f, d, k)
    {
      DecayedMore(f, |before| - 1 - k, d);
    }
    assert Passed(jobs, f, d, |before|);
    if m <= |before| {
      DecayedMore(f, |before| - m, d);
      assert m > 0 ==> before[m - 1] == jobs[m - 1];
    }
  }

  /** Whatever the host of the job, nobody of its own or a higher priority is passed. */
  lemma {:induction false} PassesOnlyLower(jobs: seq<Job>, f: real, foreign: bool, time: int, d: real)
    requires d >= 0.0
    ensures var (m, g) := PlaceUp(jobs, f, foreign, time, d);
            && g <= f
            && (forall k :: m <= k < |jobs| ==> (jobs[k].pri as real) < f)
            && (m > 0 ==> jobs[m - 1].pri as real >= g)
    decreases |jobs|
  {
    if jobs != [] && (jobs[|jobs| - 1].pri as real) < f {
      var f' := if foreign && jobs[|jobs| - 1].time >= time then f else f - d;
      PassesOnlyLower(jobs[..|jobs| - 1], f', foreign, time, d);
    }
  }

  /** How many of the jobs were submitted before that time */
  function Earlier(jobs: seq<Job>, time: int): nat {
    if jobs == [] then 0 else Earlier(jobs[..|jobs| - 1], time) + if jobs[|jobs| - 1].time < time then 1 else 0
  }

  /** For a job of another host only jobs submitted earlier cost anything to pass. */
  lemma {:induction false} ForeignDecay(jobs: seq<Job>, f: real, time: int, d: real)
    ensures var (m, g) := PlaceUp(jobs, f, true, time, d); g == Decayed(f, Earlier(jobs[m..], time), d)
    decreases |jobs|
  {
    var m := PlaceUp(jobs, f, true, time, d).0;
    if jobs != [] && (jobs[|jobs| - 1].pri as real) < f {
      var before, last := jobs[..|jobs| - 1], jobs[|jobs| - 1];
      ForeignDecay(before, if last.time >= time then f else f - d, time, d);
      assert jobs[m..][..|jobs| - 1 - m] == before[m..] && jobs[m..][|jobs| - 1 - m] == last;
      DecayedMore(f, Earlier(before[m..], time), d);
    } else {
      assert jobs[|jobs|..] == [];
    }
  }

  // ----- The working priority -----

  /** The nearest short, halves going away from zero */
  lemma RoundsToNearest(f: real)
    ensures -32768 <= RoundShort(f) <= 32767
    ensures -32768.0 <= f <= 32767.0 ==> -0.5 <= RoundShort(f) as real - f <= 0.5
    ensures f > 32767.0 ==> RoundShort(f) == 32767
    ensures f < -32768.0 ==> RoundShort(f) == -32768
  {
    if f >= 0.0 && f + 0.5 <= 32767.0 {
      assert (f + 0.5).Floor <= 32767;
    }
    if f < 0.0 && f - 0.5 >= -32768.0 {
      assert (0.5 - f).Floor <= 32768;
    }
  }

  lemma RoundsExactly(n: int)
    requires -32768 < n < 32767
    ensures RoundShort(n as real) == n
  {
    if n < 0 {
      assert 0.5 - n as real == (-n) as real + 0.5;
      FloorOf(-n);
    } else {
      FloorOf(n);
    }
  }

  lemma FloorOf(n: int)
    ensures (n as real + 0.5).Floor == n
  {
  }

  /** With the decrement of 1 that the scheduler starts with and priorities of at least 1, a
      local job passes fewer jobs than its priority, and the working priority stored counts them. */
  lemma WorkingPriority(jobs: seq<Job>, pri: Byte, time: int)
    requires pri >= 1 && forall k :: 0 <= k < |jobs| ==> jobs[k].pri >= 1
    ensures var (m, g) := PlaceUp(jobs, pri as real, false, time, 1.0);
            && |jobs| - m <= pri as int - 1
            && RoundShort(g) == pri as int - (|jobs| - m) >= 1
  {
    var (m, g) := PlaceUp(jobs, pri as real, false, time, 1.0);
    PlacedAt(jobs, pri as real, time, 1.0, m);
    DecayedByOne(pri as int, |jobs| - m);
    if m < |jobs| {
      DecayedByOne(pri as int, |jobs| - 1 - m);
      assert Passed(jobs, pri as real, 1.0, m);
    }
    RoundsExactly(pri as int - (|jobs| - m));
  }

  // ----- A change of priority -----

  /** Job k is above the priority of a job that has let all before it pass. */
  ghost predicate Overtakes(jobs: seq<Job>, f: real, d: real, k: nat)
    requires k < |jobs|
  {
    jobs[k].pri as real > Decayed(f, k, -d)
  }

  /** Coming from the front, place n is the first whose job is within the priority that has grown. */
  ghost predicate FirstBelow(jobs: seq<Job>, f: real, d: real, n: nat) {
    && n <= |jobs|
    && (n < |jobs| ==> jobs[n].pri as real <= Decayed(f, n, -d))
    && (forall k :: 0 <= k < n ==> Overtakes(jobs, f, d, k))
  }

  lemma {:induction false} MovedDownTo(jobs: seq<Job>, f: real, d: real, n: nat)
    ensures FirstBelow(jobs, f, d, n) <==> n == PlaceDown(jobs, f, d).0
    ensures PlaceDown(jobs, f, d).1 == Decayed(f, PlaceDown(jobs, f, d).0, -d)
    decreases |jobs|
  {
    if jobs != [] && jobs[0].pri as real > f {
      DecayedMore(f, PlaceDown(jobs[1..], f + d, d).0, -d);
      if n > 0 {
        MovedDownTo(jobs[1..], f + d, d, n - 1);
        BelowBehind(jobs, f, d, n);
      } else {
        MovedDownTo(jobs[1..], f + d, d, 0);
      }
    } else if jobs != [] && n > 0 {
      assert Overtakes(jobs, f, d, 0) <==> jobs[0].pri as real > f;
    }
  }

  lemma BelowBehind(jobs: seq<Job>, f: real, d: real, n: nat)
    requires jobs != [] && jobs[0].pri as real > f && n > 0
    ensures FirstBelow(jobs, f, d, n) <==> FirstBelow(jobs[1..], f + d, d, n - 1)
  {
    var behind, g := jobs[1..], f + d;
    assert Overtakes(jobs, f, d, 0);
    forall k | 0 <= k < |behind|
      ensures Overtakes(behind, g, d, k) <==> Overtakes(jobs, f, d, k + 1)
    {
      DecayedMore(f, k, -d);
    }
    DecayedMore(f, n - 1, -d);
    if FirstBelow(jobs, f, d, n) {
      forall k | 0 <= k < n - 1
        ensures Overtakes(behind, g, d, k)
      {
        assert Overtakes(jobs, f, d, k + 1);
      }
    }
    if FirstBelow(behind, f + d, d, n - 1) {
      forall k | 0 <= k < n
        ensures Overtakes(jobs, f, d, k)
      {
        assert k > 0 ==> Overtakes(behind, g, d, k - 1);
      }
    }
  }

  /** The job goes only in the direction of the change, to the first place that the dwindling or
      growing priority allows, and its new working priority is what is then left. */
  lemma GoesWithTheChange(jobs: seq<Job>, k: nat, pri: Byte, d: real)
    requires k < |jobs| && pri != jobs[k].pri
    ensures var f := (pri as int - jobs[k].pri as int + jobs[k].wpri) as real;
            var (m, g) := NewPlace(jobs, k, pri, d);
            if pri > jobs[k].pri then m <= k && FirstStop(jobs[..k], f, d, m) && g == Decayed(f, k - m, d)
            else m >= k && FirstBelow(jobs[k + 1..], f, d, m - k) && g == Decayed(f, m - k, -d)
  {
    var f := (pri as int - jobs[k].pri as int + jobs[k].wpri) as real;
    if pri > jobs[k].pri {
      PlacedAt(jobs[..k], f, 0, d, PlaceUp(jobs[..k], f, false, 0, d).0);
    } else {
      MovedDownTo(jobs[k + 1..], f, d, PlaceDown(jobs[k + 1..], f, d).0);
    }
  }

  /** The others stay in their order: taking the job out again leaves the queue without it. */
  lemma OthersStay(q: seq<int>, k: nat, m: nat)
    requires k < |q| && m < |q|
    ensures multiset(Moved(q, k, m)) == multiset(q)
    ensures Without(Moved(q, k, m), m) == Without(q, k) && Moved(q, k, m)[m] == q[k]
  {
    MultisetInserted(Without(q, k), m, q[k]);
    MultisetInserted(Without(q, k), k, q[k]);
    assert Inserted(Without(q, k), k, q[k]) == q;
  }

  lemma MultisetInserted(w: seq<int>, m: nat, x: int)
    requires m <= |w|
    ensures multiset(Inserted(w, m, x)) == multiset(w) + multiset{x}
  {
    assert w == w[..m] + w[m..];
  }
}
