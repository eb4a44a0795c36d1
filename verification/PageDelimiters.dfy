/** What the page ends found by the matcher of PageSplit are, and when it finds all of them. */
module PageDelimiters {
  import opened Common
  import opened PageSplit

  // ----- Soundness, for every delimiter -----

  /** The text ends with the first r characters of the delimiter. */
  predicate EndsWith(d: Text, text: Text, r: nat) {
    r <= |d| && r <= |text| && text[|text| - r..] == d[..r]
  }

  lemma EndsWithStep(d: Text, text: Text, ch: Byte, r: nat)
    requires r < |d|
    ensures EndsWith(d, text + [ch], r + 1) <==> EndsWith(d, text, r) && ch == d[r]
  {
    var t := text + [ch];
    assert d[..r + 1] == d[..r] + [d[r]];
    if EndsWith(d, t, r + 1) {
      assert t[|t| - (r + 1)..] == text[|text| - r..] + [ch];
      assert text[|text| - r..] == t[|t| - (r + 1)..][..r];
      assert d[..r] == d[..r + 1][..r];
      assert t[|t| - (r + 1)..][r] == d[..r + 1][r];
    }
    if EndsWith(d, text, r) && ch == d[r] {
      assert t[|t| - (r + 1)..] == text[|text| - r..] + [ch];
    }
  }

  /** A broken match of length r ends with a shorter one of length k exactly when the
      delimiter's own characters say so. */
  lemma EndsWithShorter(d: Text, text: Text, r: nat, k: nat)
    requires k <= r <= |d| && EndsWith(d, text, r)
    ensures EndsWith(d, text, k) <==> d[..k] == d[r - k..r]
  {
    assert text[|text| - k..] == text[|text| - r..][r - k..];
    assert d[..r][r - k..] == d[r - k..r];
  }

  lemma {:induction false} FallbackFits(d: Text, r: nat, k: nat, ch: Byte)
    requires k < r < |d|
    ensures var n := Fallback(d, r, k, ch);
            && (n > 0 ==> 1 <= n - 1 <= k && Restarts(d, r, n - 1, ch))
            && forall m :: 1 <= m <= k && n < m + 1 ==> !Restarts(d, r, m, ch)
  {
    if k > 0 && !Restarts(d, r, k, ch) {
      FallbackFits(d, r, k - 1, ch);
    }
  }

  lemma OccurrencesExtend(d: Text, text: Text, ch: Byte, hits: seq<nat>)
    requires Occurrences(d, text, hits)
    ensures Occurrences(d, text + [ch], hits)
  {
    forall k | 0 <= k < |hits|
      ensures OccursAt(d, text + [ch], hits[k])
    {
      var e := hits[k];
      assert OccursAt(d, text, e);
      assert (text + [ch])[e - |d|..e] == text[e - |d|..e];
    }
  }

  lemma NextOccurrence(d: Text, text: Text, hits: seq<nat>)
    requires Occurrences(d, text, hits) && OccursAt(d, text, |text|) && LastEnd(hits) + |d| <= |text|
    ensures Occurrences(d, text, hits + [|text|])
  {
  }

  /** The matcher never claims characters that are not there. */
  predicate Fits(d: Text, text: Text, st: Scan) {
    && Occurrences(d, text, st.hits)
    && EndsWith(d, text, st.r)
    && LastEnd(st.hits) + st.r <= |text|
  }

  lemma WholeMatch(d: Text, text: Text)
    ensures EndsWith(d, text, |d|) <==> OccursAt(d, text, |text|)
  {
    assert d[..|d|] == d;
    if |d| <= |text| {
      assert text[|text| - |d|..|text|] == text[|text| - |d|..];
    }
  }

  lemma RestartEndsWith(d: Text, text: Text, r: nat, k: nat, ch: Byte)
    requires k < r < |d| && EndsWith(d, text, r) && Restarts(d, r, k, ch)
    ensures EndsWith(d, text + [ch], k + 1)
  {
    hide EndsWith;
    EndsWithShorter(d, text, r, k);
    EndsWithStep(d, text, ch, k);
  }

  lemma EndsWithNothing(d: Text, text: Text)
    ensures EndsWith(d, text, 0)
  {
  }

  lemma FallbackEndsWith(d: Text, text: Text, r: nat, ch: Byte)
    requires 0 < r < |d| && EndsWith(d, text, r)
    ensures EndsWith(d, text + [ch], Fallback(d, r, r - 1, ch))
  {
    hide EndsWith, Restarts, Fallback;
    FallbackFits(d, r, r - 1, ch);
    EndsWithNothing(d, text + [ch]);
    var n := Fallback(d, r, r - 1, ch);
    if n > 0 {
      RestartEndsWith(d, text, r, n - 1, ch);
    }
  }

  lemma FeedFits(d: Text, text: Text, st: Scan, ch: Byte)
    requires st.r < |d| && Fits(d, text, st)
    ensures Fits(d, text + [ch], Feed(d, st, |text| + 1, ch))
  {
    OccurrencesExtend(d, text, ch, st.hits);
    EndsWithStep(d, text, ch, st.r);
    if ch == d[st.r] {
      if st.r + 1 == |d| {
        WholeMatch(d, text + [ch]);
        NextOccurrence(d, text + [ch], st.hits);
      }
    } else if st.r > 0 {
      hide Occurrences, Fallback;
      FallbackEndsWith(d, text, st.r, ch);
    }
  }

  /** Whatever the delimiter, the occurrences found are real and do not overlap, and the
      partial match lies behind them. */
  lemma {:induction false} MatchedFits(d: Text, text: Text)
    requires |d| > 0
    ensures Fits(d, text, Matched(d, text))
  {
    if text != [] {
      var before, ch := text[..|text| - 1], text[|text| - 1];
      assert text == before + [ch];
      MatchedFits(d, before);
      FeedFits(d, before, Matched(d, before), ch);
    }
  }

  lemma RecsBelow(hits: seq<nat>, num: nat)
    requires num > 0
    ensures Pages(hits, num).recs < num
  {
  }

  /** e is the last of the delimiters of page k. */
  ghost predicate EndAt(hits: seq<nat>, num: nat, k: int, e: nat) {
    0 <= (k + 1) * num - 1 < |hits| && e == hits[(k + 1) * num - 1]
  }

  /** A page takes num delimiters: its end is the num-th since the page end before. */
  lemma {:induction false} PagesCount(hits: seq<nat>, num: nat)
    requires num > 0
    ensures var c := Pages(hits, num);
            && c.recs < num && |hits| == |c.ends| * num + c.recs
            && forall k :: 0 <= k < |c.ends| ==> EndAt(hits, num, k, c.ends[k])
  {
    if hits != [] {
      var before := hits[..|hits| - 1];
      PagesCount(before, num);
      var b, c := Pages(before, num), Pages(hits, num);
      if b.recs + 1 >= num {
        assert (|b.ends| + 1) * num == |b.ends| * num + num;
      }
      forall k | 0 <= k < |c.ends|
        ensures EndAt(hits, num, k, c.ends[k])
      {
        if k < |b.ends| {
          assert EndAt(before, num, k, b.ends[k]);
        }
      }
    }
  }

  /** The delimiters on the last page and those that it lacks make up a page; a job that ends with a
      page end lacks none. */
  lemma LastPageFills(d: Text, num: nat, text: Text)
    requires |d| > 0 && num > 0
    ensures LastEnd(PageEnds(d, num, text)) < |text| ==>
              && |Matched(d, text).hits| + LastPage(d, num, text) == num * (|PageEnds(d, num, text)| + 1)
              && 0 < LastPage(d, num, text) <= num
    ensures LastEnd(PageEnds(d, num, text)) >= |text| ==> LastPage(d, num, text) == 0
  {
    PagesCount(Matched(d, text).hits, num);
    var n := |PageEnds(d, num, text)|;
    assert num * (n + 1) == n * num + num;
  }

  /** All elements positive, and each greater than the one before */
  predicate Increasing(ends: seq<nat>) {
    && (forall k :: 0 <= k < |ends| ==> 0 < ends[k])
    && (forall k :: 0 < k < |ends| ==> ends[k - 1] < ends[k])
  }

  lemma {:induction false} PagesIncrease(hits: seq<nat>, num: nat)
    requires Increasing(hits)
    ensures Increasing(Pages(hits, num).ends)
    ensures forall e :: e in Pages(hits, num).ends ==> e in hits
    ensures LastEnd(Pages(hits, num).ends) <= LastEnd(hits)
  {
    if hits != [] {
      PagesIncrease(hits[..|hits| - 1], num);
    }
  }

  /** The stored vector: every page end ends an occurrence of the delimiter, and the pages
      0 .. npages cut a non-empty job, without gap or empty page, from 0 to its size. */
  lemma OffsetsCutTheJob(d: Text, num: nat, text: Text)
    requires |d| > 0 && num > 0
    ensures forall e :: e in PageEnds(d, num, text) ==> OccursAt(d, text, e)
    ensures var (offs, n) := (Offsets(d, num, text), PageCount(d, num, text));
            && n < |offs| && offs[0] == 0 && offs[n] == |text|
            && (forall k :: 0 <= k < n ==> offs[k] < offs[k + 1])
            && (text != [] ==> n > 0)
    ensures LastPage(d, num, text) != 0 <==> LastEnd(PageEnds(d, num, text)) < |text|
    ensures 0 <= LastPage(d, num, text) <= num
  {
    hide PageEnds, OccursAt, Increasing, Recs;
    EndsFit(d, num, text);
    OffsetsIncrease(PageEnds(d, num, text), |text|);
  }

  /** The page ends are ends of delimiters, one behind the other. */
  lemma EndsFit(d: Text, num: nat, text: Text)
    requires |d| > 0 && num > 0
    ensures forall e :: e in PageEnds(d, num, text) ==> OccursAt(d, text, e)
    ensures Increasing(PageEnds(d, num, text)) && LastEnd(PageEnds(d, num, text)) <= |text|
    ensures 0 <= Recs(d, num, text) < num
  {
    hide Pages, Matched, OccursAt;
    var hits := Matched(d, text).hits;
    MatchedFits(d, text);
    HitsFit(d, text, hits);
    PagesIncrease(hits, num);
    RecsBelow(hits, num);
  }

  lemma HitsFit(d: Text, text: Text, hits: seq<nat>)
    requires |d| > 0 && Occurrences(d, text, hits)
    ensures forall e :: e in hits ==> OccursAt(d, text, e)
    ensures LastEnd(hits) <= |text| && Increasing(hits)
  {
  }

  lemma OffsetsIncrease(ends: seq<nat>, size: nat)
    requires Increasing(ends) && LastEnd(ends) <= size
    ensures var (offs, n) := ([0] + ends + [size], |ends| + if LastEnd(ends) < size then 1 else 0);
            && offs[0] == 0 && offs[n] == size && (size > 0 ==> n > 0)
            && forall k :: 0 <= k < n ==> offs[k] < offs[k + 1]
  {
    var offs := [0] + ends + [size];
    forall k | 0 <= k <= |ends|
      ensures offs[k] == (if k == 0 then 0 else ends[k - 1]) && offs[k + 1] == if k == |ends| then size else ends[k]
    {
    }
  }

  // ----- Completeness, for the delimiters that allow it -----

  /** Wherever a partial match can be broken by the delimiter's first character, the fallback
      finds some longer restart than that character alone, which it never tries. */
  predicate SafeAt(d: Text, r: nat)
    requires 0 < r < |d|
  {
    d[r] != d[0] ==> exists k | 1 <= k < r :: Restarts(d, r, k, d[0])
  }

  predicate Safe(d: Text) {
    forall r | 0 < r < |d| :: SafeAt(d, r)
  }

  /** The matcher is at its best: r is the longest partial match behind the last occurrence,
      and the occurrences are the greedy ones. */
  ghost predicate Best(d: Text, text: Text, st: Scan)
    requires |d| > 0
  {
    && st.hits == Greedy(d, text)
    && forall m :: st.r < m <= |d| && LastEnd(st.hits) + m <= |text| ==> !EndsWith(d, text, m)
  }

  lemma GreedyStep(d: Text, text: Text, ch: Byte)
    requires |d| > 0
    ensures var before := Greedy(d, text);
            Greedy(d, text + [ch]) ==
            if LastEnd(before) + |d| <= |text| + 1 && EndsWith(d, text + [ch], |d|) then before + [|text| + 1]
            else before
  {
    assert (text + [ch])[..|text|] == text;
    assert d[..|d|] == d;
  }

  /** A longer match behind the next character would come from one that the matcher has seen. */
  lemma NoLongerMatch(d: Text, text: Text, st: Scan, ch: Byte, m: nat)
    requires st.r < |d| && Fits(d, text, st) && Best(d, text, st)
    requires 1 <= m <= |d| && LastEnd(st.hits) + m <= |text| + 1 && EndsWith(d, text + [ch], m)
    ensures m - 1 <= st.r && ch == d[m - 1]
    ensures m <= st.r ==> Restarts(d, st.r, m - 1, ch)
  {
    EndsWithStep(d, text, ch, m - 1);
    if m <= st.r {
      EndsWithShorter(d, text, st.r, m - 1);
    }
  }

  lemma FeedBest(d: Text, text: Text, st: Scan, ch: Byte)
    requires st.r < |d| && Fits(d, text, st) && Best(d, text, st) && Safe(d)
    ensures Best(d, text + [ch], Feed(d, st, |text| + 1, ch))
  {
    hide EndsWith, Greedy, Safe, Occurrences;
    var t, st' := text + [ch], Feed(d, st, |text| + 1, ch);
    GreedyStep(d, text, ch);
    EndsWithStep(d, text, ch, st.r);
    if ch == d[st.r] && st.r + 1 == |d| {
      assert LastEnd(st.hits) + |d| <= |text| + 1 && EndsWith(d, t, |d|);
    } else {
      forall m | st'.r < m <= |d| && LastEnd(st'.hits) + m <= |t|
        ensures !EndsWith(d, t, m)
      {
        if EndsWith(d, t, m) {
          NoLongerMatch(d, text, st, ch, m);
          BrokenMatch(d, st.r, ch, m);
        }
      }
    }
  }

  /** The fallback misses no restart, because a first character alone is never all there is. */
  lemma BrokenMatch(d: Text, r: nat, ch: Byte, m: nat)
    requires r < |d| && Safe(d) && ch != d[r]
    requires 1 <= m <= r && Restarts(d, r, m - 1, ch)
    ensures m <= Fallback(d, r, r - 1, ch)
  {
    FallbackFits(d, r, r - 1, ch);
    if m == 1 {
      assert SafeAt(d, r);
      var k :| 1 <= k < r && Restarts(d, r, k, d[0]);
    }
  }

  lemma {:induction false} MatchedBest(d: Text, text: Text)
    requires |d| > 0 && Safe(d)
    ensures Best(d, text, Matched(d, text))
  {
    if text != [] {
      var before, ch := text[..|text| - 1], text[|text| - 1];
      assert text == before + [ch];
      MatchedBest(d, before);
      MatchedFits(d, before);
      FeedBest(d, before, Matched(d, before), ch);
    }
  }

  // ----- What an unsafe delimiter misses -----

  lemma {:induction false} MatchedStraight(d: Text, text: Text, m: nat)
    requires |d| > 0 && Matched(d, text).r == 0 && m <= |d|
    ensures m < |d| ==> Matched(d, text + d[..m]) == Scan(m, Matched(d, text).hits)
    ensures m == |d| ==> Matched(d, text + d) == Scan(0, Matched(d, text).hits + [|text| + |d|])
  {
    hide Matched, Fallback;
    if m == 0 {
      assert text + d[..0] == text;
    } else {
      MatchedStraight(d, text, m - 1);
      DelimiterMore(d, text, m);
      MatchedStep(d, text + d[..m - 1], d[m - 1]);
    }
  }

  lemma DelimiterMore(d: Text, text: Text, m: nat)
    requires 0 < m <= |d|
    ensures text + d[..m] == text + d[..m - 1] + [d[m - 1]]
    ensures |text + d[..m - 1]| + 1 == |text| + m && d[..|d|] == d
  {
  }

  /** A partial match grows by at most one with each character. */
  lemma {:induction false} MatchedSlow(d: Text, text: Text, more: Text)
    requires |d| > 0 && Matched(d, text).r + |more| < |d|
    ensures Matched(d, text + more).hits == Matched(d, text).hits
    ensures Matched(d, text + more).r <= Matched(d, text).r + |more|
  {
    if more == [] {
      assert text + more == text;
    } else {
      var n := |more| - 1;
      MatchedSlow(d, text, more[..n]);
      assert text + more == text + more[..n] + [more[n]];
      MatchedStep(d, text + more[..n], more[n]);
    }
  }

  lemma {:induction false} GreedyPrefix(d: Text, text: Text, more: Text)
    requires |d| > 0
    ensures Greedy(d, text) <= Greedy(d, text + more)
  {
    if more == [] {
      assert text + more == text;
    } else {
      var n := |more| - 1;
      GreedyPrefix(d, text, more[..n]);
      assert text + more == text + more[..n] + [more[n]];
      GreedyStep(d, text + more[..n], more[n]);
    }
  }

  /** Behind an occurrence, the greedy reading finds another one no later than at the next
      place where the delimiter stands. */
  lemma GreedyFinds(d: Text, text: Text, more: Text)
    requires |d| > 0 && LastEnd(Greedy(d, text)) == |text|
    ensures |Greedy(d, text + more + d)| > |Greedy(d, text)|
  {
    var w := text + more + d;
    var b := text + (more + d)[..|more| + |d| - 1];
    GreedyPrefix(d, text, (more + d)[..|more| + |d| - 1]);
    assert w == b + [d[|d| - 1]];
    GreedyStep(d, b, d[|d| - 1]);
    assert w[|w| - |d|..] == d;
    assert d[..|d|] == d;
    if |Greedy(d, b)| == |Greedy(d, text)| {
      assert Greedy(d, b) == Greedy(d, text);
    }
  }

  function Repeated(d: Text, k: nat): Text {
    if k == 0 then [] else Repeated(d, k - 1) + d
  }

  /** Both readings have just seen a whole delimiter, the matcher's k-th. */
  ghost predicate Aligned(d: Text, text: Text, k: nat)
    requires |d| > 0
  {
    && Matched(d, text).r == 0 && |Matched(d, text).hits| == k
    && |Greedy(d, text)| >= k && LastEnd(Greedy(d, text)) == |text|
  }

  lemma OneMore(d: Text, text: Text, k: nat)
    requires |d| > 0 && Aligned(d, text, k)
    ensures Aligned(d, text + d, k + 1)
  {
    MatchedStraight(d, text, |d|);
    assert text + [] == text;
    GreedyFinds(d, text, []);
    GreedyLast(d, text);
  }

  lemma NothingYet(d: Text)
    requires |d| > 0
    ensures Aligned(d, [], 0)
  {
  }

  lemma {:induction false} RepeatedMatches(d: Text, k: nat)
    requires |d| > 0
    ensures Aligned(d, Repeated(d, k), k)
  {
    if k == 0 {
      NothingYet(d);
    } else {
      RepeatedMatches(d, k - 1);
      OneMore(d, Repeated(d, k - 1), k - 1);
    }
  }

  lemma Appended(d: Text, text: Text)
    requires |d| > 0
    ensures text + d == text + d[..|d| - 1] + [d[|d| - 1]] && EndsWith(d, text + d, |d|)
  {
    assert (text + d)[|text|..] == d[..|d|];
  }

  lemma GreedyLast(d: Text, text: Text)
    requires |d| > 0 && LastEnd(Greedy(d, text)) == |text|
    ensures LastEnd(Greedy(d, text + d)) == |text| + |d|
  {
    hide Greedy, EndsWith;
    Appended(d, text);
    GreedyShort(d, text, |d| - 1);
    GreedyStep(d, text + d[..|d| - 1], d[|d| - 1]);
  }

  lemma {:induction false} GreedyShort(d: Text, text: Text, m: nat)
    requires m < |d| && LastEnd(Greedy(d, text)) == |text|
    ensures Greedy(d, text + d[..m]) == Greedy(d, text)
  {
    if m == 0 {
      assert text + d[..0] == text;
    } else {
      GreedyShort(d, text, m - 1);
      assert text + d[..m] == text + d[..m - 1] + [d[m - 1]];
      GreedyStep(d, text + d[..m - 1], d[m - 1]);
    }
  }

  /** A text on which the page end is missed: enough whole delimiters for all but the last of
      a page, a partial match that its first character breaks, and one more delimiter. */
  function Missed(d: Text, num: nat, r: nat): Text
    requires 0 < r < |d| && num > 0
  {
    Repeated(d, num - 1) + d[..r] + d
  }

  lemma BreaksToNothing(d: Text, text: Text, r: nat)
    requires 0 < r < |d| && !SafeAt(d, r) && Matched(d, text).r == r
    ensures Matched(d, text + [d[0]]) == Scan(0, Matched(d, text).hits)
  {
    MatchedStep(d, text, d[0]);
    FallbackFits(d, r, r - 1, d[0]);
  }

  lemma MissesOne(d: Text, text: Text, r: nat)
    requires 0 < r < |d| && !SafeAt(d, r) && Matched(d, text).r == 0
    ensures Matched(d, text + d[..r] + d).hits == Matched(d, text).hits
  {
    var broken := text + d[..r];
    MatchedStraight(d, text, r);
    BreaksToNothing(d, broken, r);
    assert broken + d == (broken + [d[0]]) + d[1..];
    MatchedSlow(d, broken + [d[0]], d[1..]);
  }

  lemma MatcherMisses(d: Text, num: nat, r: nat)
    requires 0 < r < |d| && num > 0 && !SafeAt(d, r)
    ensures |Matched(d, Missed(d, num, r)).hits| == num - 1
  {
    RepeatedMatches(d, num - 1);
    MissesOne(d, Repeated(d, num - 1), r);
  }

  lemma GreedyDoesNot(d: Text, num: nat, r: nat)
    requires 0 < r < |d| && num > 0
    ensures |Greedy(d, Missed(d, num, r))| >= num
  {
    RepeatedMatches(d, num - 1);
    GreedyFinds(d, Repeated(d, num - 1), d[..r]);
  }

  lemma FirstPage(hits: seq<nat>, num: nat)
    requires num > 0
    ensures Pages(hits, num).ends == [] <==> |hits| < num
  {
    PagesCount(hits, num);
    var c := Pages(hits, num);
    if c.ends != [] {
      assert |c.ends| * num >= num;
    }
  }

  /** The page ends are those of the greedy reading on every job exactly when the delimiter is
      safe, however many delimiters make a page. */
  lemma CompleteIffSafe(d: Text, num: nat)
    requires |d| > 0 && num > 0
    ensures (forall text: Text :: PageEnds(d, num, text) == Pages(Greedy(d, text), num).ends) <==> Safe(d)
  {
    if Safe(d) {
      forall text: Text
        ensures PageEnds(d, num, text) == Pages(Greedy(d, text), num).ends
      {
        MatchedBest(d, text);
      }
    } else {
      var r :| 0 < r < |d| && !SafeAt(d, r);
      var text := Missed(d, num, r);
      MatcherMisses(d, num, r);
      GreedyDoesNot(d, num, r);
      FirstPage(Matched(d, text).hits, num);
      FirstPage(Greedy(d, text), num);
      assert PageEnds(d, num, text) != Pages(Greedy(d, text), num).ends;
    }
  }

  /** One character repeated is safe; so is "aab"; but a delimiter such as CR LF is not, nor is
      any other whose second character differs from the first. */
  lemma SafeDelimiters(d: Text)
    requires |d| > 0
    ensures (forall k :: 0 <= k < |d| ==> d[k] == d[0]) ==> Safe(d)
    ensures |d| > 1 && d[1] != d[0] ==> !Safe(d)
    ensures |d| == 3 && d[0] == d[1] ==> Safe(d)
  {
    if |d| > 1 && d[1] != d[0] {
      assert !SafeAt(d, 1);
    }
    if |d| == 3 && d[0] == d[1] {
      assert d[..1] == d[1..2];
      assert Restarts(d, 2, 1, d[0]);
      assert SafeAt(d, 1) && SafeAt(d, 2);
    }
  }

  // ----- The retry loop as it could be -----

  /** The fallback loop if it also tried the first character of the delimiter */
  function FallbackAll(d: Text, r: nat, k: nat, ch: Byte): (n: nat)
    requires k < r < |d|
    ensures n <= k + 1
  {
    if Restarts(d, r, k, ch) then k + 1
    else if k == 0 then 0
    else FallbackAll(d, r, k - 1, ch)
  }

  function FeedAll(d: Text, st: Scan, n: nat, ch: Byte): (st': Scan)
    requires st.r < |d|
    ensures st'.r < |d|
  {
    if ch == d[st.r] || st.r == 0 then Feed(d, st, n, ch)
    else Scan(FallbackAll(d, st.r, st.r - 1, ch), st.hits)
  }

  function MatchedAll(d: Text, text: Text): (st: Scan)
    requires |d| > 0
    ensures st.r < |d|
  {
    if text == [] then Scan(0, [])
    else FeedAll(d, MatchedAll(d, text[..|text| - 1]), |text|, text[|text| - 1])
  }

  lemma {:induction false} FallbackAllFits(d: Text, r: nat, k: nat, ch: Byte)
    requires k < r < |d|
    ensures var n := FallbackAll(d, r, k, ch);
            && (n > 0 ==> Restarts(d, r, n - 1, ch))
            && forall m :: 0 <= m <= k && n < m + 1 ==> !Restarts(d, r, m, ch)
  {
    if k > 0 && !Restarts(d, r, k, ch) {
      FallbackAllFits(d, r, k - 1, ch);
    }
  }

  lemma FallbackAllEndsWith(d: Text, text: Text, r: nat, ch: Byte)
    requires 0 < r < |d| && EndsWith(d, text, r)
    ensures EndsWith(d, text + [ch], FallbackAll(d, r, r - 1, ch))
  {
    hide EndsWith, Restarts, FallbackAll;
    FallbackAllFits(d, r, r - 1, ch);
    EndsWithNothing(d, text + [ch]);
    var n := FallbackAll(d, r, r - 1, ch);
    if n > 0 {
      RestartEndsWith(d, text, r, n - 1, ch);
    }
  }

  lemma FeedAllFits(d: Text, text: Text, st: Scan, ch: Byte)
    requires st.r < |d| && Fits(d, text, st)
    ensures Fits(d, text + [ch], FeedAll(d, st, |text| + 1, ch))
  {
    hide EndsWith, Occurrences, Feed, FallbackAll;
    if ch == d[st.r] || st.r == 0 {
      FeedFits(d, text, st, ch);
    } else {
      OccurrencesExtend(d, text, ch, st.hits);
      FallbackAllEndsWith(d, text, st.r, ch);
    }
  }

  lemma FeedAllBest(d: Text, text: Text, st: Scan, ch: Byte)
    requires st.r < |d| && Fits(d, text, st) && Best(d, text, st)
    ensures Best(d, text + [ch], FeedAll(d, st, |text| + 1, ch))
  {
    hide EndsWith, Greedy, Occurrences, FallbackAll;
    var t, st' := text + [ch], FeedAll(d, st, |text| + 1, ch);
    GreedyStep(d, text, ch);
    EndsWithStep(d, text, ch, st.r);
    if ch == d[st.r] && st.r + 1 == |d| {
      assert LastEnd(st.hits) + |d| <= |text| + 1 && EndsWith(d, t, |d|);
    } else {
      forall m | st'.r < m <= |d| && LastEnd(st'.hits) + m <= |t|
        ensures !EndsWith(d, t, m)
      {
        if EndsWith(d, t, m) {
          NoLongerMatch(d, text, st, ch, m);
          if m <= st.r {
            FallbackAllFits(d, st.r, st.r - 1, ch);
          }
        }
      }
    }
  }

  lemma {:induction false} MatchedAllBest(d: Text, text: Text)
    requires |d| > 0
    ensures Fits(d, text, MatchedAll(d, text)) && Best(d, text, MatchedAll(d, text))
  {
    if text != [] {
      var before, ch := text[..|text| - 1], text[|text| - 1];
      assert text == before + [ch];
      MatchedAllBest(d, before);
      FeedAllFits(d, before, MatchedAll(d, before), ch);
      FeedAllBest(d, before, MatchedAll(d, before), ch);
    }
  }

  /** With that one test more the page ends are those of the greedy reading, whatever the delimiter. */
  lemma CompleteIfAllTried(d: Text, num: nat, text: Text)
    requires |d| > 0 && num > 0
    ensures Pages(MatchedAll(d, text).hits, num).ends == Pages(Greedy(d, text), num).ends
  {
    MatchedAllBest(d, text);
  }
}
