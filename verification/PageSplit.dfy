/**
 Splitting a job into pages at a delimiter (copyout in src/spr.c when the job is submitted,
 scanpages in src/spd.c when the printer's form type has a delimiter of its own).

 A page ends with the `num`-th occurrence of the delimiter since the page before it.  Both
 programs match one character at a time and, when a partial match breaks, fall back to the
 longest part of it that is still a partial match.
 */
module PageSplit {
  import opened Common

  type Text = seq<Byte>

  // ----- The matcher of the two programs -----

  /** Can a partial match of length k + 1 replace a broken one of length r? */
  predicate Restarts(d: Text, r: nat, k: nat, ch: Byte)
    requires k < r < |d|
  {
    d[k] == ch && d[..k] == d[r - k..r]
  }

  /** The fallback loop: the longest candidate from k down, but never the first character alone */
  function Fallback(d: Text, r: nat, k: nat, ch: Byte): (n: nat)
    requires k < r < |d|
    ensures n <= k + 1
  {
    if k == 0 then 0
    else if Restarts(d, r, k, ch) then k + 1
    else Fallback(d, r, k - 1, ch)
  }

  /** How much of the delimiter is matched (rcp), and the ends of the occurrences found so far */
  datatype Scan = Scan(r: nat, hits: seq<nat>)

  function Feed(d: Text, st: Scan, n: nat, ch: Byte): (st': Scan)
    requires st.r < |d|
    ensures st'.r < |d|
  {
    if ch == d[st.r] then
      if st.r + 1 >= |d| then Scan(0, st.hits + [n]) else Scan(st.r + 1, st.hits)
    else if st.r > 0 then Scan(Fallback(d, st.r, st.r - 1, ch), st.hits)
    else st
  }

  function Matched(d: Text, text: Text): (st: Scan)
    requires |d| > 0
    ensures st.r < |d|
  {
    if text == [] then Scan(0, [])
    else Feed(d, Matched(d, text[..|text| - 1]), |text|, text[|text| - 1])
  }

  /** Counting occurrences into pages: how many since the last page end (rec_cnt), and the page ends */
  datatype Count = Count(recs: nat, ends: seq<nat>)

  function CountOne(c: Count, e: nat, num: nat): Count {
    if c.recs + 1 >= num then Count(0, c.ends + [e]) else Count(c.recs + 1, c.ends)
  }

  function Pages(hits: seq<nat>, num: nat): Count {
    if hits == [] then Count(0, []) else CountOne(Pages(hits[..|hits| - 1], num), hits[|hits| - 1], num)
  }

  /** The recorded page ends, and the delimiters seen since the last of them */
  function PageEnds(d: Text, num: nat, text: Text): seq<nat>
    requires |d| > 0
  {
    Pages(Matched(d, text).hits, num).ends
  }

  function Recs(d: Text, num: nat, text: Text): nat
    requires |d| > 0
  {
    Pages(Matched(d, text).hits, num).recs
  }

  function LastEnd(ends: seq<nat>): nat {
    if ends == [] then 0 else ends[|ends| - 1]
  }

  // ----- What both programs store -----

  /** The page vector from offset 0 on; a job that ends with a page end stores its size twice. */
  function Offsets(d: Text, num: nat, text: Text): seq<nat>
    requires |d| > 0 && num > 0
  {
    [0] + PageEnds(d, num, text) + [|text|]
  }

  function PageCount(d: Text, num: nat, text: Text): nat
    requires |d| > 0 && num > 0
  {
    var ends := PageEnds(d, num, text);
    |ends| + if LastEnd(ends) < |text| then 1 else 0
  }

  /** The delimiters missing on the last page */
  function LastPage(d: Text, num: nat, text: Text): int
    requires |d| > 0 && num > 0
  {
    if LastEnd(PageEnds(d, num, text)) < |text| then num - Recs(d, num, text) else 0
  }

  // ----- An independent reading: greedy occurrences -----

  /** Ends of the delimiters when each is taken as early as possible behind the one before */
  function Greedy(d: Text, text: Text): seq<nat>
    requires |d| > 0
  {
    if text == [] then []
    else
      var before := Greedy(d, text[..|text| - 1]);
      if LastEnd(before) + |d| <= |text| && text[|text| - |d|..] == d then before + [|text|] else before
  }

  predicate OccursAt(d: Text, text: Text, e: nat) {
    |d| <= e <= |text| && text[e - |d|..e] == d
  }

  /** A sequence of non-overlapping occurrences, in order */
  predicate Occurrences(d: Text, text: Text, hits: seq<nat>) {
    && (forall k :: 0 <= k < |hits| ==> OccursAt(d, text, hits[k]))
    && (forall k :: 0 < k < |hits| ==> hits[k - 1] + |d| <= hits[k])
  }

  // ----- The programs -----

  /** The two nested loops that back up along the delimiter */
  method FallBack(d: Text, r: nat, ch: Byte) returns (rcp: nat)
    requires 0 < r < |d|
    ensures rcp == Fallback(d, r, r - 1, ch)
  {
    var prevpl := r - 1;
    rcp := prevpl;
    while rcp > 0
      invariant rcp <= prevpl
      invariant Fallback(d, r, r - 1, ch) == Fallback(d, r, rcp, ch)
    {
      if d[rcp] == ch {
        var pp, prcp := prevpl, rcp - 1;
        while prcp >= 0 && d[pp] == d[prcp]
          invariant -1 <= prcp < rcp && pp - prcp == r - rcp
          invariant forall k :: prcp < k < rcp ==> d[k] == d[k + r - rcp]
          decreases prcp
        {
          pp, prcp := pp - 1, prcp - 1;
        }
        if prcp < 0 {
          assert d[..rcp] == d[r - rcp..r];
          rcp := rcp + 1;
          return;
        }
        assert d[..rcp][prcp] != d[r - rcp..r][prcp];
      }
      rcp := rcp - 1;
    }
  }

  datatype Copied =
    | TooBig
    | Stored(file: Text, offsets: seq<nat>, npages: nat, size: nat, lastPage: int)

  /** How much of the data the limits let through */
  predicate WithinLimits(d: Text, num: nat, data: Text, klim: nat, plim: nat)
    requires |d| > 0 && num > 0
  {
    |data| <= klim && |PageEnds(d, num, data)| <= plim
  }

  /** What copyout has stored is right for the part of the data it has taken. */
  predicate StoredFits(d: Text, num: nat, data: Text, c: Copied)
    requires |d| > 0 && num > 0 && c.Stored?
  {
    && c.size <= |data|
    && [0] + c.offsets == Offsets(d, num, data[..c.size])
    && c.npages == PageCount(d, num, data[..c.size])
    && c.lastPage == LastPage(d, num, data[..c.size])
  }

  lemma MatchedStep(d: Text, text: Text, ch: Byte)
    requires |d| > 0
    ensures Matched(d, text + [ch]) == Feed(d, Matched(d, text), |text| + 1, ch)
  {
    assert (text + [ch])[..|text|] == text;
  }

  lemma PagesStep(hits: seq<nat>, e: nat, num: nat)
    ensures Pages(hits + [e], num) == CountOne(Pages(hits, num), e, num)
  {
    assert (hits + [e])[..|hits|] == hits;
  }

  lemma FeedPages(d: Text, st: Scan, n: nat, ch: Byte, num: nat)
    requires st.r < |d|
    ensures Pages(Feed(d, st, n, ch).hits, num) ==
            if ch == d[st.r] && st.r + 1 >= |d| then CountOne(Pages(st.hits, num), n, num) else Pages(st.hits, num)
  {
    PagesStep(st.hits, n, num);
  }

  /** One character more */
  lemma CountsStep(d: Text, num: nat, text: Text, ch: Byte)
    requires |d| > 0
    ensures Matched(d, text + [ch]).r == Feed(d, Matched(d, text), |text| + 1, ch).r
    ensures Count(Recs(d, num, text + [ch]), PageEnds(d, num, text + [ch])) ==
            var c := Count(Recs(d, num, text), PageEnds(d, num, text));
            if ch == d[Matched(d, text).r] && Matched(d, text).r + 1 >= |d| then CountOne(c, |text| + 1, num) else c
  {
    MatchedStep(d, text, ch);
    FeedPages(d, Matched(d, text), |text| + 1, ch, num);
  }

  /** How far copyout gets: to the end, or just past the first limit that is exceeded. */
  ghost predicate StopsAt(d: Text, num: nat, data: Text, klim: nat, plim: nat, size: nat)
    requires |d| > 0 && num > 0
  {
    && size <= |data|
    && (size < |data| ==> size == klim || |PageEnds(d, num, data[..size])| == plim + 1)
    && (size > 0 ==> WithinLimits(d, num, data[..size - 1], klim, plim))
    && size <= klim
  }

  /** What both programs do with a character: advance the matcher or back up, and count the
      delimiters; ended says that a page ends here. */
  method MatchOne(d: Text, num: nat, ghost text: Text, r: nat, recs: nat, ch: Byte)
    returns (rcp: nat, recCnt: nat, ended: bool)
    requires |d| > 0 && num > 0 && r == Matched(d, text).r && recs == Recs(d, num, text)
    ensures rcp == Matched(d, text + [ch]).r && recCnt == Recs(d, num, text + [ch])
    ensures PageEnds(d, num, text + [ch]) == PageEnds(d, num, text) + if ended then [|text| + 1] else []
  {
    hide Matched, PageEnds, Recs;
    CountsStep(d, num, text, ch);
    rcp, recCnt, ended := r, recs, false;
    if ch == d[rcp] {
      rcp := rcp + 1;
      if rcp >= |d| {
        recCnt := recCnt + 1;
        if recCnt >= num {
          ended := true;
          recCnt := 0;
        }
        rcp := 0;
      }
    } else if rcp > 0 {
      rcp := FallBack(d, rcp, ch);
    }
  }

  lemma NoText(d: Text, num: nat)
    requires |d| > 0
    ensures Matched(d, []).r == 0 && Recs(d, num, []) == 0 && PageEnds(d, num, []) == []
  {
  }

  /** The loop of copyout that writes a page file; ok is false on `goto toobig`. */
  method CopyLoop(data: Text, d: Text, num: nat, klim: nat, plim: nat, errLimit: bool)
    returns (ok: bool, file: Text, offsets: seq<nat>, npages: nat, size: nat, recCnt: nat, onpage: nat)
    requires |d| > 0 && num > 0
    ensures !ok ==> errLimit && !WithinLimits(d, num, data, klim, plim)
    ensures ok ==> StopsAt(d, num, data, klim, plim, size)
    ensures ok && (size < |data| || npages > plim) ==> !errLimit
    ensures ok ==> recCnt == Recs(d, num, data[..size]) && offsets == PageEnds(d, num, data[..size])
    ensures ok ==> npages == |offsets| && onpage == size - LastEnd(offsets)
    ensures ok ==> file == if npages <= plim then data[..size] else data[..size - 1]
  {
    hide Matched, PageEnds, Recs;
    var rcp: nat := 0;
    recCnt, onpage, size, npages := 0, 0, 0, 0;
    file, offsets := [], [];
    NoText(d, num);
    assert data[..0] == [];
    while size < |data|
      invariant size <= |data| && size <= klim && file == data[..size] && npages <= plim
      invariant rcp == Matched(d, data[..size]).r
      invariant recCnt == Recs(d, num, data[..size]) && offsets == PageEnds(d, num, data[..size])
      invariant npages == |offsets| && onpage == size - LastEnd(offsets)
      invariant size > 0 ==> WithinLimits(d, num, data[..size - 1], klim, plim)
    {
      var ch := data[size];
      size := size + 1;
      if size > klim {
        size := size - 1;
        return !errLimit, file, offsets, npages, size, recCnt, onpage;
      }
      onpage := onpage + 1;
      var ended;
      rcp, recCnt, ended := MatchOne(d, num, data[..size - 1], rcp, recCnt, ch);
      assert data[..size] == data[..size - 1] + [ch];
      if ended {
        offsets := offsets + [size];
        onpage := 0;
        npages := npages + 1;
        if npages > plim {
          PageEndsGrow(d, num, data, size);
          return !errLimit, file, offsets, npages, size, recCnt, onpage;
        }
      }
      file := file + [ch];
    }
    ok := true;
  }

  /** As much of the job as the size limit lets through has more page ends than the page limit. */
  predicate CutShort(d: Text, num: nat, data: Text, klim: nat, plim: nat)
    requires |d| > 0 && num > 0
  {
    |PageEnds(d, num, data[..if |data| < klim then |data| else klim])| > plim
  }

  /** Where copyout has stopped there are too many page ends exactly if there were going to be. */
  lemma StopsShort(d: Text, num: nat, data: Text, klim: nat, plim: nat, size: nat)
    requires |d| > 0 && num > 0 && StopsAt(d, num, data, klim, plim, size)
    ensures CutShort(d, num, data, klim, plim) <==> |PageEnds(d, num, data[..size])| > plim
  {
    hide PageEnds;
    var upto := if |data| < klim then |data| else klim;
    PageEndsGrow(d, num, data[..upto], size);
    assert data[..upto][..size] == data[..size];
  }

  /** Two line feeds with a limit of one page: the size is 2, and the file has one character. */
  method CutShortExample() returns (c: Copied)
    ensures c.Stored? && c.size == 2 && c.file == [10]
  {
    hide Matched, PageEnds, Recs, Offsets, PageCount, LastPage, CutShort;
    TwoLines();
    c := CopyOut([10, 10], [10], 1, 5, 1, false);
  }

  lemma TwoLines()
    ensures CutShort([10], 1, [10, 10], 5, 1) && !WithinLimits([10], 1, [10, 10], 5, 1)
    ensures forall size :: StopsAt([10], 1, [10, 10], 5, 1, size) ==> size == 2
  {
    hide Matched, PageEnds, Recs;
    var data: Text := [10, 10];
    NoText([10], 1);
    CountsStep([10], 1, [], 10);
    CountsStep([10], 1, [10], 10);
    assert [] + [10] == [10] && [10] + [10] == data && data[..2] == data && data[..0] == [] && data[..1] == [10];
    assert PageEnds([10], 1, [10]) == [1] && PageEnds([10], 1, data) == [1, 2];
  }

  /** The part of copyout that writes a page file.  `offsets` is the vector in the page file:
      the page ends and the size of the job. */
  method CopyOut(data: Text, d: Text, num: nat, klim: nat, plim: nat, errLimit: bool) returns (c: Copied)
    requires |d| > 0 && num > 0
    ensures c.TooBig? <==> errLimit && !WithinLimits(d, num, data, klim, plim)
    ensures c.Stored? ==> StoredFits(d, num, data, c)
    ensures WithinLimits(d, num, data, klim, plim) ==> c.Stored? && c.size == |data|
    ensures c.Stored? ==> StopsAt(d, num, data, klim, plim, c.size)
    // a job cut at the page limit lacks the last character that its size counts
    ensures c.Stored? ==> c.file == if CutShort(d, num, data, klim, plim) then data[..c.size - 1] else data[..c.size]
    ensures c.Stored? ==> (|c.file| < c.size <==> CutShort(d, num, data, klim, plim))
  {
    var ok, file, offsets, npages, size, recCnt, onpage := CopyLoop(data, d, num, klim, plim, errLimit);
    if !ok {
      return TooBig;
    }
    PageEndsGrow(d, num, data, size);
    StopsShort(d, num, data, klim, plim, size);
    assert data[..|data|] == data;
    offsets := offsets + [size];
    var lastPage := 0;
    if onpage > 0 {
      npages := npages + 1;
      lastPage := num - recCnt;
    }
    c := Stored(file, offsets, npages, size, lastPage);
  }

  lemma {:induction false} PageEndsGrow(d: Text, num: nat, text: Text, n: nat)
    requires |d| > 0 && num > 0 && n <= |text|
    ensures |PageEnds(d, num, text[..n])| <= |PageEnds(d, num, text)|
    decreases |text|
  {
    if n == |text| {
      assert text[..n] == text;
    } else {
      var prefix := text[..|text| - 1];
      PageEndsGrow(d, num, prefix, n);
      assert prefix[..n] == text[..n];
      var hits := Matched(d, text).hits;
      var before := Matched(d, prefix).hits;
      assert hits == before || hits[..|hits| - 1] == before;
    }
  }

  const INCPAGES: nat := 10

  /** The page ends recorded in a page vector, from its element 1 on */
  ghost predicate Records(vec: array<nat>, ends: seq<nat>)
    reads vec
  {
    |ends| + 1 < vec.Length && forall k :: 0 <= k < |ends| ==> vec[k + 1] == ends[k]
  }

  /** Recording one page end: make sure that there is room for it and one more, then store it. */
  method RecordPage(vec: array<nat>, pageCnt: nat, offset: nat, ghost ends: seq<nat>) returns (pageoffsets: array<nat>)
    requires Records(vec, ends) && pageCnt == |ends| + 1
    modifies vec
    ensures pageoffsets == vec || fresh(pageoffsets)
    ensures Records(pageoffsets, ends + [offset])
  {
    pageoffsets := vec;
    if pageCnt + 1 >= vec.Length {
      pageoffsets := new nat[vec.Length + INCPAGES];
      forall k | 0 <= k < vec.Length {
        pageoffsets[k] := vec[k];
      }
    }
    pageoffsets[pageCnt] := offset;
  }

  /** The loop of scanpages, which builds the vector in memory and lets it grow; `vec` is the
      vector that rdpgfile has left behind. */
  method ScanPages(text: Text, d: Text, num: nat, vec: array<nat>)
    returns (pageoffsets: array<nat>, npages: nat, lastPage: int)
    requires |d| > 0 && num > 0 && vec.Length >= 2
    modifies vec
    ensures pageoffsets == vec || fresh(pageoffsets)
    ensures Offsets(d, num, text) <= pageoffsets[..]
    ensures npages == PageCount(d, num, text)
    ensures lastPage == LastPage(d, num, text)
  {
    hide Matched, PageEnds, Recs;
    NoText(d, num);
    pageoffsets := vec;
    var rcp: nat, recCnt: nat, pageCnt := 0, 0, 0;
    var charCnt := 0;
    ghost var ends: seq<nat> := [];
    assert text[..0] == [];
    while charCnt < |text|
      invariant charCnt <= |text|
      invariant pageoffsets == vec || fresh(pageoffsets)
      invariant rcp == Matched(d, text[..charCnt]).r
      invariant recCnt == Recs(d, num, text[..charCnt]) && ends == PageEnds(d, num, text[..charCnt])
      invariant pageCnt == |ends| && Records(pageoffsets, ends)
    {
      var ch := text[charCnt];
      charCnt := charCnt + 1;
      var ended;
      rcp, recCnt, ended := MatchOne(d, num, text[..charCnt - 1], rcp, recCnt, ch);
      assert text[..charCnt] == text[..charCnt - 1] + [ch];
      if ended {
        pageCnt := pageCnt + 1;
        pageoffsets := RecordPage(pageoffsets, pageCnt, charCnt, ends);
        ends := ends + [charCnt];
      }
    }
    assert text[..|text|] == text;
    pageoffsets[0] := 0;
    pageoffsets[pageCnt + 1] := |text|;
    assert pageoffsets[pageCnt] == LastEnd(ends);
    npages, lastPage := pageCnt, 0;
    if pageoffsets[pageCnt] < |text| {
      npages := pageCnt + 1;
      lastPage := num - recCnt;
    }
  }
}
