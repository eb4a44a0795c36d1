/**
 Whole prints: the form-feed page vector of a job, the agreement of the two printing loops,
 and what repeated requests for the same job achieve (proc_req in src/spd.c, scan_ffs in
 src/sh_netfeed.c).
 */
module PageRuns {
  import opened Common
  import opened PageSplit
  import opened PageDelimiters
  import opened PagePrint

  // ----- The form-feed vector -----

  lemma FormFeedStep(text: Text, ch: Byte)
    ensures PageEnds([FF], 1, text + [ch]) == PageEnds([FF], 1, text) + (if ch == FF then [|text| + 1] else [])
  {
    CountsStep([FF], 1, text, ch);
  }

  /** The reading loop of copyout for single form feeds; ok is false on `goto toobig`. */
  method CopyLoopFF(data: Text, klim: nat, plim: nat, errLimit: bool)
    returns (ok: bool, file: Text, npages: nat, size: nat, onpage: nat)
    ensures !ok ==> errLimit && !WithinLimits([FF], 1, data, klim, plim)
    ensures ok ==> StopsAt([FF], 1, data, klim, plim, size) && file == data[..size]
    ensures ok && (size < |data| || npages > plim) ==> !errLimit
    ensures ok ==>
              npages == |PageEnds([FF], 1, data[..size])| && onpage == size - LastEnd(PageEnds([FF], 1, data[..size]))
  {
    hide PageEnds;
    NoText([FF], 1);
    size, npages, onpage, file := 0, 0, 0, [];
    ghost var ends: seq<nat> := [];
    assert data[..0] == [];
    while size < |data|
      invariant size <= |data| && size <= klim && file == data[..size]
      invariant ends == PageEnds([FF], 1, data[..size]) && npages == |ends| <= plim
      invariant onpage == size - LastEnd(ends)
      invariant size > 0 ==> WithinLimits([FF], 1, data[..size - 1], klim, plim)
    {
      var ch := data[size];
      if size + 1 > klim {
        return !errLimit, file, npages, size, onpage;
      }
      FormFeedStep(data[..size], ch);
      size := size + 1;
      assert data[..size] == data[..size - 1] + [ch];
      onpage := onpage + 1;
      file := file + [ch];
      if ch == FF {
        ends := ends + [size];
        onpage := 0;
        npages := npages + 1;
        if npages > plim {
          PageEndsGrow([FF], 1, data, size);
          return !errLimit, file, npages, size, onpage;
        }
      }
    }
    ok := true;
  }

  datatype FFCopied = FFTooBig | FFStored(file: Text, npages: nat, size: nat)

  /** The part of copyout for single form feeds, which counts pages but writes no page file.
      Unlike the other part it stores every character that it counts, cut short or not. */
  method CopyOutFF(data: Text, klim: nat, plim: nat, errLimit: bool) returns (c: FFCopied)
    ensures c.FFTooBig? <==> errLimit && !WithinLimits([FF], 1, data, klim, plim)
    ensures c.FFStored? ==> StopsAt([FF], 1, data, klim, plim, c.size)
    ensures c.FFStored? ==> c.file == data[..c.size] && c.npages == PageCount([FF], 1, data[..c.size])
    ensures WithinLimits([FF], 1, data, klim, plim) ==> c.FFStored? && c.size == |data|
  {
    hide PageEnds;
    var ok, file, npages, size, onpage := CopyLoopFF(data, klim, plim, errLimit);
    if !ok {
      return FFTooBig;
    }
    PageEndsGrow([FF], 1, data, size);
    assert data[..|data|] == data;
    if onpage > 0 {
      npages := npages + 1;
    }
    c := FFStored(file, npages, size);
  }

  const INITPAGES: nat := 20

  /** scan_ffs */
  method ScanFFs(text: Text) returns (pageoffsets: array<nat>, npages: nat)
    ensures Offsets([FF], 1, text) <= pageoffsets[..]
    ensures npages == PageCount([FF], 1, text)
  {
    pageoffsets := new nat[INITPAGES];
    var pageCnt, pos := 0, 0;
    ghost var ends: seq<nat> := [];
    while pos < |text|
      invariant pos <= |text| && fresh(pageoffsets)
      invariant ends == PageEnds([FF], 1, text[..pos])
      invariant pageCnt == |ends| && Records(pageoffsets, ends)
    {
      var ch := text[pos];
      FormFeedStep(text[..pos], ch);
      pos := pos + 1;
      assert text[..pos] == text[..pos - 1] + [ch];
      if ch == FF {
        pageCnt := pageCnt + 1;
        pageoffsets := RecordPage(pageoffsets, pageCnt, pos, ends);
        ends := ends + [pos];
      }
    }
    assert text[..|text|] == text;
    pageoffsets[0] := 0;
    pageoffsets[pageCnt + 1] := |text|;
    assert pageoffsets[pageCnt] == LastEnd(ends);
    npages := pageCnt;
    if pageoffsets[pageCnt] < |text| {
      npages := npages + 1;
    }
  }

  lemma {:induction false} FormFeedEnds(text: Text, i: nat)
    requires i < |text|
    ensures text[i] == 12 <==> i + 1 in PageEnds([FF], 1, text)
    ensures forall e :: e in PageEnds([FF], 1, text) ==> 0 < e <= |text| && text[e - 1] == 12
    decreases |text|
  {
    var n := |text| - 1;
    assert text == text[..n] + [text[n]];
    FormFeedStep(text[..n], text[n]);
    if i < n {
      FormFeedEnds(text[..n], i);
    } else if n > 0 {
      FormFeedEnds(text[..n], 0);
    }
  }

  lemma OffsetsStrict(offs: seq<nat>, n: nat, k: nat, m: nat)
    requires n < |offs| && (forall i :: 0 <= i < n ==> offs[i] < offs[i + 1])
    requires k < m <= n
    ensures offs[k] < offs[m]
  {
    if k < m - 1 {
      OffsetsStrict(offs, n, k, m - 1);
    }
    assert offs[m - 1] < offs[m - 1 + 1];
  }

  function DocOf(d: Text, num: nat, text: Text): Doc
    requires |d| > 0 && num > 0
  {
    Doc(text, |text|, Offsets(d, num, text), PageCount(d, num, text))
  }

  /** The vectors of copyout, scanpages and scan_ffs are what the printing loops need. */
  lemma VectorsCut(d: Text, num: nat, text: Text)
    requires |d| > 0 && num > 0
    ensures DocOf(d, num, text).Cut()
  {
    OffsetsCutTheJob(d, num, text);
    var doc := DocOf(d, num, text);
    forall k, m | 0 <= k < m <= doc.npages
      ensures doc.offs[k] < doc.offs[m]
    {
      OffsetsStrict(doc.offs, doc.npages, k, m);
    }
  }

  /** What copyout stores is what they need as well, even if the last character of the last page
      is missing: then contj ends with the file. */
  lemma StoredCut(d: Text, num: nat, data: Text, plim: nat, c: Copied)
    requires |d| > 0 && num > 0 && c.Stored? && StoredFits(d, num, data, c)
    requires c.file == data[..c.size] || (c.size > 0 && c.file == data[..c.size - 1])
    ensures Doc(c.file, c.size, [0] + c.offsets, c.npages).Cut()
  {
    VectorsCut(d, num, data[..c.size]);
  }

  lemma InsidePage(text: Text, k: nat, i: nat)
    requires var doc := DocOf([FF], 1, text); doc.Cut() && k < doc.npages && doc.offs[k] <= i && i + 1 < doc.offs[k + 1]
    ensures i < |text| && text[i] != FF
  {
    hide PageEnds;
    var doc := DocOf([FF], 1, text);
    var ends := PageEnds([FF], 1, text);
    VectorsCut([FF], 1, text);
    EndOfDoc(doc, k + 1);
    FormFeedEnds(text, i);
    forall m | 0 <= m < |ends|
      ensures ends[m] != i + 1
    {
      assert doc.offs[m + 1] == ends[m];
      FormFeedBetween(doc, k, m + 1);
    }
  }

  lemma FormFeedVector(text: Text)
    ensures FormFed(DocOf([FF], 1, text))
  {
    hide PageEnds;
    var doc := DocOf([FF], 1, text);
    var ends := PageEnds([FF], 1, text);
    VectorsCut([FF], 1, text);
    forall k, i | 0 <= k < doc.npages && doc.offs[k] <= i < doc.offs[k + 1] - 1
      ensures doc.text[i] != FF
    {
      InsidePage(text, k, i);
    }
    forall k | 0 < k < doc.npages
      ensures doc.text[doc.offs[k] - 1] == FF
    {
      EndOfDoc(doc, k);
      FormFeedEnds(text, 0);
      assert doc.offs[k] == ends[k - 1] && ends[k - 1] in ends;
    }
  }

  /** No page offset lies strictly inside a page. */
  lemma FormFeedBetween(doc: Doc, k: nat, m: nat)
    requires doc.Cut() && k < doc.npages && m < |doc.offs|
    requires m <= doc.npages || doc.offs[m] == doc.size
    ensures !(doc.offs[k] < doc.offs[m] < doc.offs[k + 1])
  {
    EndOfDoc(doc, k + 1);
    if m <= doc.npages {
      if m <= k {
        assert m == k || doc.offs[m] < doc.offs[k];
      } else {
        assert m == k + 1 || doc.offs[k + 1] < doc.offs[m];
      }
    }
  }

  // ----- What the padding is for -----

  /** Of n more delimiters, fewer than the last page lacks, none ends a page; the last of as many as
      it lacks does. */
  lemma {:induction false} Padded(d: Text, num: nat, text: Text, n: nat)
    requires |d| > 0 && num > 0 && Matched(d, text).r == 0 && Recs(d, num, text) + n <= num
    ensures Matched(d, text + Times(n, d)).r == 0 && |Times(n, d)| == n * |d|
    ensures Recs(d, num, text) + n < num ==>
              PageEnds(d, num, text + Times(n, d)) == PageEnds(d, num, text) &&
                Recs(d, num, text + Times(n, d)) == Recs(d, num, text) + n
    ensures n > 0 && Recs(d, num, text) + n == num ==>
              PageEnds(d, num, text + Times(n, d)) == PageEnds(d, num, text) + [|text| + n * |d|]
  {
    hide Matched, Pages;
    if n == 0 {
      assert text + Times(0, d) == text;
      PagesCount(Matched(d, text).hits, num);
    } else {
      Padded(d, num, text, n - 1);
      var before := text + Times(n - 1, d);
      assert text + Times(n, d) == before + d;
      MatchedStraight(d, before, |d|);
      PagesStep(Matched(d, before).hits, |before| + |d|, num);
      assert n * |d| == (n - 1) * |d| + |d|;
    }
  }

  /** With the delimiters that contj adds, the last page ends like the others: there is just one
      more page end, and it is the end of what was sent. */
  lemma PaddingEndsPage(d: Text, num: nat, text: Text)
    requires |d| > 0 && num > 0 && Matched(d, text).r == 0 && LastEnd(PageEnds(d, num, text)) < |text|
    ensures LastPage(d, num, text) > 0
    ensures var padded := text + Times(LastPage(d, num, text), d);
            PageEnds(d, num, padded) == PageEnds(d, num, text) + [|padded|]
  {
    LastPageFills(d, num, text);
    Padded(d, num, text, LastPage(d, num, text));
  }

  // ----- contj_ff and contj -----

  /** On the form-feed vector, contj_ff sends exactly what contj sends, unless page 1 is forced
      on a job that does not reach the first page to print: then only contj_ff sends it. */
  lemma FormFeedsAgree(g: Setting, init: nat, range: Range)
    requires g.Valid()
    ensures WantedFF(g, init, range) == g.Wanted(init, range) <==> (init <= g.doc.npages || !g.form.inclPage1)
  {
  }

  /** When page 1 is forced and initpage is past the job, contj sends nothing and contj_ff one sheet. */
  lemma ForcedPastTheJob(g: Setting, init: nat, range: Range)
    requires g.Valid() && init > g.doc.npages && g.form.inclPage1
    ensures g.Wanted(init, range) == [] && |WantedFF(g, init, range)| == 1
  {
  }

  /** Will contj_ff send any page? */
  predicate AnySent(g: Setting, init: nat, range: Range) {
    || (init > 0 && g.form.inclPage1)
    || exists k :: init <= k < g.Limit(range) && !Skipped(k, range.skips)
  }

  /** When the two loops add the same behind the job, if missing delimiters are added at all.  They
      do not if contj_ff meets the end of the file on a forced first page that contj does not
      print; nor on the page behind the last complete one, where contj stops before the job ends
      without a form feed; nor if the job ends and contj_ff has sent nothing. */
  predicate PaddedAlike(g: Setting, init: nat, range: Range) {
    var last := if init < g.Limit(range) then g.Limit(range) else init;
    if init > 0 && g.form.inclPage1 && FirstIsLast(g.doc) then g.doc.npages == 1 && init == 1
    else init > g.doc.npages || (init <= Complete(g.doc) && (last < g.doc.npages || AnySent(g, init, range)))
  }

  /** The setting of a form-feed vector: one form feed is missing if the job does not end with one. */
  ghost predicate FormFeedSetting(g: Setting) {
    FormFed(g.doc) && g.delim == [FF] && g.lastPage == if Partial(g.doc) then 1 else 0
  }

  /** A page ends with a form feed, but for the last one of a job that does not. */
  lemma EndsWithFF(doc: Doc, k: nat)
    requires FormFed(doc) && k < doc.npages
    ensures LastByte([doc.Full(k)]).Some?
    ensures LastByte([doc.Full(k)]) == Some(FF) <==> !(k + 1 == doc.npages && Partial(doc))
  {
    LastOfPage(doc, k);
    PageWithin(doc, k);
  }

  lemma {:induction false} PrintedLast(doc: Doc, from: nat, to: nat, skips: Skips)
    requires FormFed(doc) && to <= doc.npages
    ensures var printed := Printed(doc, from, to, skips);
            && (printed == [] <==> forall k :: from <= k < to ==> Skipped(k, skips))
            && (printed != [] ==>
                (LastByte(printed) == Some(FF) <==> !(to == doc.npages && Partial(doc) && !Skipped(to - 1, skips))))
  {
    hide FormFed, Partial, Doc.Full, Doc.Cut, Doc.Short, Skipped, LastByte;
    FormFedCut(doc);
    if from < to {
      PrintedLast(doc, from, to - 1, skips);
      EndsWithFF(doc, to - 1);
      var before := Printed(doc, from, to - 1, skips);
      LastOfBoth(before, doc.Full(to - 1));
      assert Printed(doc, from, to, skips) == before + if Skipped(to - 1, skips) then [] else [doc.Full(to - 1)];
      assert before + [] == before;
    }
  }

  lemma LastOfBoth(a: seq<Sheet>, x: Sheet)
    ensures LastByte(a + [x]) == LastByte([x])
  {
  }

  /** The last character that contj_ff sends, when initpage is not past the job */
  lemma LastSent(g: Setting, init: nat, range: Range)
    requires FormFed(g.doc) && init <= g.doc.npages && !(init > 0 && g.form.inclPage1 && FirstIsLast(g.doc))
    ensures var (sent, to) := (WantedFF(g, init, range), g.Limit(range));
            && (sent == [] <==> !AnySent(g, init, range))
            && (LastByte(sent) == Some(FF) <==>
                  AnySent(g, init, range) &&
                    !(init < to == g.doc.npages && Partial(g.doc) && !Skipped(to - 1, range.skips)))
  {
    hide FormFed, Partial, Printed, Skipped, Doc.Full, Doc.Cut;
    FormFedCut(g.doc);
    PrintedLast(g.doc, init, g.Limit(range), range.skips);
    WantedFFParts(g, init, range);
    if g.doc.npages > 0 {
      EndsWithFF(g.doc, 0);
    }
  }

  lemma PaddingsAgree(g: Setting, init: nat, range: Range)
    requires FormFeedSetting(g)
    ensures g.Padding(init, range) == PaddingFF(g, init, range) <==> !g.form.pads || PaddedAlike(g, init, range)
  {
    hide AnySent, Printed, Skipped, FormFed, Doc.Cut;
    assert Times(0, [FF]) == [] && Times(1, [FF]) == Times(0, [FF]) + [FF] == [FF];
    EmptyIfNoPages(g.doc);
    if init > 0 && g.form.inclPage1 && FirstIsLast(g.doc) {
      if g.doc.npages > 0 {
        EndsWithFF(g.doc, 0);
      }
      WantedFFParts(g, init, range);
    } else if init <= g.doc.npages {
      LastSent(g, init, range);
      SentAny(g, init, range);
    }
  }

  lemma SentAny(g: Setting, init: nat, range: Range)
    ensures init > 0 && g.form.inclPage1 ==> AnySent(g, init, range)
    ensures init < g.Limit(range) && !Skipped(g.Limit(range) - 1, range.skips) ==> AnySent(g, init, range)
    ensures init >= g.Limit(range) ==> (AnySent(g, init, range) <==> init > 0 && g.form.inclPage1)
  {
  }

  lemma EmptyIfNoPages(doc: Doc)
    requires FormFed(doc)
    ensures doc.npages == 0 <==> doc.text == []
    ensures doc.Cut() && !doc.Short()
  {
    EndOfDoc(doc, 0);
  }

  /** The vector of scan_ffs, and that of copyout for form feeds, comes with such a setting. */
  lemma FormFeedLast(text: Text)
    ensures LastPage([FF], 1, text) == if Partial(DocOf([FF], 1, text)) then 1 else 0
  {
    hide PageEnds;
    var ends := PageEnds([FF], 1, text);
    VectorsCut([FF], 1, text);
    if text != [] {
      FormFeedEnds(text, |text| - 1);
      assert ends != [] ==> ends[|ends| - 1] in ends;
      if |text| in ends {
        var k :| 0 <= k < |ends| && ends[k] == |text|;
        assert DocOf([FF], 1, text).offs[k + 1] == |text|;
      }
    }
  }

  // ----- Which pages a print sends -----

  lemma {:induction false} PrintedHas(doc: Doc, from: nat, to: nat, skips: Skips, k: nat)
    requires doc.Cut() && to <= doc.npages && k < doc.npages
    ensures doc.Full(k) in Printed(doc, from, to, skips) <==> from <= k < to && !Skipped(k, skips)
  {
    if from < to {
      PrintedHas(doc, from, to - 1, skips, k);
    }
  }

  /** Pages from `from` up to but not including `to` that are not skipped, in full and in order */
  ghost predicate InOrder(doc: Doc, from: nat, to: nat, skips: Skips, sheets: seq<Sheet>)
    requires doc.Cut() && to <= doc.npages
  {
    && (forall i :: 0 <= i < |sheets| ==>
          from < sheets[i].n <= to && !Skipped(sheets[i].n - 1, skips) && sheets[i] == doc.Full(sheets[i].n - 1))
    && (forall i, j :: 0 <= i < j < |sheets| ==> sheets[i].n < sheets[j].n)
  }

  /** Nothing else is sent. */
  lemma {:induction false} PrintedInOrder(doc: Doc, from: nat, to: nat, skips: Skips)
    requires doc.Cut() && to <= doc.npages
    ensures InOrder(doc, from, to, skips, Printed(doc, from, to, skips))
  {
    hide InOrder, Doc.Cut, Skipped;
    if from < to {
      PrintedInOrder(doc, from, to - 1, skips);
      InOrderMore(doc, from, to, skips, Printed(doc, from, to - 1, skips));
    } else {
      NoneInOrder(doc, from, to, skips);
    }
  }

  lemma NoneInOrder(doc: Doc, from: nat, to: nat, skips: Skips)
    requires doc.Cut() && to <= doc.npages
    ensures InOrder(doc, from, to, skips, [])
  {
  }

  lemma InOrderMore(doc: Doc, from: nat, to: nat, skips: Skips, sheets: seq<Sheet>)
    requires doc.Cut() && from < to <= doc.npages && InOrder(doc, from, to - 1, skips, sheets)
    ensures InOrder(doc, from, to, skips, sheets + Turn(doc, to - 1, skips))
  {
    hide Doc.Cut, Skipped;
    assert doc.Full(to - 1).n == to;
  }

  /** What a finished print makes of the flags when SPQ_REVOE is set */
  function Flip(skips: Skips): Skips {
    if skips.odd then skips.(odd := false, even := true) else skips.(even := false, odd := true)
  }

  /** Counted with their multiplicity, the sheets of two copies with SPQ_REVOE, when just one of the
      two flags was set to begin with, are those of the whole range. */
  lemma {:induction false} SharedOnce(doc: Doc, from: nat, to: nat, skips: Skips)
    requires doc.Cut() && to <= doc.npages && skips.odd != skips.even
    ensures multiset(Printed(doc, from, to, skips)) + multiset(Printed(doc, from, to, Flip(skips))) ==
            multiset(Printed(doc, from, to, Skips(false, false)))
  {
    hide Turn, Flip;
    if from < to {
      var none := Skips(false, false);
      SharedOnce(doc, from, to - 1, skips);
      TurnShared(doc, to - 1, skips);
      SumsJoin(Printed(doc, from, to - 1, skips), Turn(doc, to - 1, skips), Printed(doc, from, to - 1, Flip(skips)),
               Turn(doc, to - 1, Flip(skips)), Printed(doc, from, to - 1, none), Turn(doc, to - 1, none));
    }
  }

  lemma SumsJoin(a: seq<Sheet>, a': seq<Sheet>, b: seq<Sheet>, b': seq<Sheet>, c: seq<Sheet>, c': seq<Sheet>)
    requires multiset(a) + multiset(b) == multiset(c) && multiset(a') + multiset(b') == multiset(c')
    ensures multiset(a + a') + multiset(b + b') == multiset(c + c')
  {
  }

  lemma TurnShared(doc: Doc, k: nat, skips: Skips)
    requires doc.Cut() && k < doc.npages && skips.odd != skips.even
    ensures multiset(Turn(doc, k, skips)) + multiset(Turn(doc, k, Flip(skips))) ==
            multiset(Turn(doc, k, Skips(false, false)))
  {
  }

  lemma WholeTurn(doc: Doc, k: nat, k': nat)
    requires doc.Cut() && k < doc.npages && k' < doc.npages
    ensures Turn(doc, k, Skips(false, false)) == [doc.Full(k)]
    ensures multiset([doc.Full(k)])[doc.Full(k')] == if k == k' then 1 else 0
  {
    assert doc.Full(k).n == k + 1 && doc.Full(k').n == k' + 1;
  }

  /** In the whole range each page is there once. */
  lemma {:induction false} RangeOnce(doc: Doc, from: nat, to: nat, k: nat)
    requires doc.Cut() && to <= doc.npages && k < doc.npages
    ensures multiset(Printed(doc, from, to, Skips(false, false)))[doc.Full(k)] == if from <= k < to then 1 else 0
    ensures |Printed(doc, from, to, Skips(false, false))| == if from <= to then to - from else 0
  {
    hide Turn, Doc.Full;
    if from < to {
      RangeOnce(doc, from, to - 1, k);
      WholeTurn(doc, to - 1, k);
    }
  }

  /** Two copies in a row with SPQ_REVOE send each page of the range exactly once between them,
      when just one of the two flags was set to begin with, and only then in general. */
  lemma TwoCopiesShare(doc: Doc, from: nat, to: nat, skips: Skips)
    requires doc.Cut() && to <= doc.npages
    ensures skips.odd != skips.even ==>
              forall k: nat :: from <= k < to ==>
                (doc.Full(k) in Printed(doc, from, to, skips)) != (doc.Full(k) in Printed(doc, from, to, Flip(skips)))
    ensures skips.odd == skips.even && from + 1 < to ==>
              exists k: nat :: from <= k < to &&
                (doc.Full(k) in Printed(doc, from, to, skips)) == (doc.Full(k) in Printed(doc, from, to, Flip(skips)))
  {
    forall k: nat | k < doc.npages
      ensures doc.Full(k) in Printed(doc, from, to, skips) <==> from <= k < to && !Skipped(k, skips)
      ensures doc.Full(k) in Printed(doc, from, to, Flip(skips)) <==> from <= k < to && !Skipped(k, Flip(skips))
    {
      PrintedHas(doc, from, to, skips, k);
      PrintedHas(doc, from, to, Flip(skips), k);
    }
    if skips.odd == skips.even && from + 1 < to {
      var k := if Skipped(from, skips) == Skipped(from, Flip(skips)) then from else from + 1;
      assert Skipped(k, skips) == Skipped(k, Flip(skips));
    }
  }

  lemma InPrefix(a: seq<Sheet>, b: seq<Sheet>, x: Sheet)
    requires a <= b && x in a
    ensures x in b
  {
    var i :| 0 <= i < |a| && a[i] == x;
    assert b[i] == x;
  }

  /** The pages from `from` to `to` that are not skipped are among the sheets, in full. */
  ghost predicate Has(doc: Doc, sheets: seq<Sheet>, from: nat, to: nat, skips: Skips)
    requires doc.Cut()
  {
    forall k: nat :: from <= k < to && k < doc.npages && !Skipped(k, skips) ==> doc.Full(k) in sheets
  }

  lemma HasLess(doc: Doc, was: seq<Sheet>, sheets: seq<Sheet>, from: nat, to: nat, skips: Skips)
    requires doc.Cut() && Has(doc, was, from, to, skips) && was <= sheets
    ensures Has(doc, sheets, from, to, skips)
  {
    forall k: nat | from <= k < to && k < doc.npages && !Skipped(k, skips)
      ensures doc.Full(k) in sheets
    {
      InPrefix(was, sheets, doc.Full(k));
    }
  }

  lemma HasFewer(doc: Doc, sheets: seq<Sheet>, from: nat, to: nat, to': nat, skips: Skips)
    requires doc.Cut() && Has(doc, sheets, from, to', skips) && to <= to'
    ensures Has(doc, sheets, from, to, skips)
  {
  }

  lemma NoneToHave(doc: Doc, sheets: seq<Sheet>, from: nat, skips: Skips)
    requires doc.Cut()
    ensures Has(doc, sheets, from, from, skips)
  {
  }

  lemma HasMore(doc: Doc, was: seq<Sheet>, pre: seq<Sheet>, sheets: seq<Sheet>, from: nat, init: nat, to: nat,
                skips: Skips)
    requires doc.Cut() && to <= doc.npages && Has(doc, was, from, init, skips) && was <= pre
    requires pre + Printed(doc, init, to, skips) <= sheets
    ensures Has(doc, sheets, from, to, skips)
  {
    HasLess(doc, was, sheets, from, init, skips);
    forall k: nat | from <= k < to && k < doc.npages && !Skipped(k, skips)
      ensures doc.Full(k) in sheets
    {
      if k >= init {
        PrintedHas(doc, init, to, skips, k);
        InPrefix(pre + Printed(doc, init, to, skips), sheets, doc.Full(k));
      }
    }
  }

  lemma StoppedHas(g: Setting, was: seq<Sheet>, sheets: seq<Sheet>, from: nat, init: nat, at: nat, skips: Skips)
    requires g.Valid() && Has(g.doc, was, from, init, skips) && Stopped(g, init, at, skips, was, sheets)
    ensures forall to: nat :: to <= at ==> Has(g.doc, sheets, from, to, skips)
  {
    hide Has, Printed;
    HasLess(g.doc, was, sheets, from, init, skips);
    if at > init {
      var pre :| was <= pre && pre + Printed(g.doc, init, at, skips) <= sheets;
      HasMore(g.doc, was, pre, sheets, from, init, at, skips);
    }
    forall to: nat | to <= at
      ensures Has(g.doc, sheets, from, to, skips)
    {
      HasFewer(g.doc, sheets, from, to, at, skips);
    }
  }

  // ----- Requests for one job -----

  /** A job as its printer process sees it through several requests. */
  class Request {
    const spd: Spd
    const onTheFly: bool      // PAGE_FF rather than PAGE_SETUP
    var start: nat            // spq_start
    var end: nat              // spq_end
    var skips: Skips
    var reverse: bool         // SPQ_REVOE

    constructor (spd: Spd, onTheFly: bool, start: nat, end: nat, skips: Skips, reverse: bool)
      ensures this.spd == spd && this.onTheFly == onTheFly
      ensures this.start == start && this.end == end && this.skips == skips && this.reverse == reverse
    {
      this.spd, this.onTheFly := spd, onTheFly;
      this.start, this.end, this.skips, this.reverse := start, end, skips, reverse;
    }

    ghost predicate Valid() {
      spd.g.Valid() && (onTheFly ==> FormFed(spd.g.doc))
    }

    /** The first page of the range */
    function First(): nat
      reads this`start
    {
      if spd.g.form.noRanges then 0 else start
    }

    /** Where the next request begins */
    function NextPage(): nat
      reads this, spd
    {
      if spd.g.form.noRanges then 0 else if spd.haltat != 0 then spd.haltat else start
    }

    /** What one undisturbed copy sends that begins on page initpage */
    function Copy(initpage: nat, skips: Skips): seq<Sheet>
      requires Valid()
      reads this`end
    {
      if onTheFly then WantedFF(spd.g, initpage, Range(end, skips)) else spd.g.Wanted(initpage, Range(end, skips))
    }

    /** Is page k asked for?  As people count it has the number k + 1; SPQ_ODDP is for leaving out the
        pages with odd numbers. */
    predicate Asked(k: nat, flags: Skips)
      reads this`start, this`end
    {
      && k < spd.g.doc.npages
      && (spd.g.form.noRanges || start <= k <= end)
      && !(if (k + 1) % 2 == 0 then flags.even else flags.odd)
    }

    lemma AskedIs(flags: Skips)
      ensures forall k: nat :: Asked(k, flags) <==> First() <= k < spd.g.Limit(Range(end, flags)) && !Skipped(k, flags)
    {
    }

    /** Every page of the range before page `to` that is not skipped has been sent in full. */
    ghost predicate Covered(to: nat)
      reads this, spd
      requires Valid()
    {
      Has(spd.g.doc, spd.sheets, First(), to, skips)
    }

    /** One call of contj or contj_ff, up to the moment that an abort or a restart strikes */
    method Run(initpage: nat, ticks: nat) returns (done: bool)
      requires Valid() && Covered(initpage) && Covered(NextPage())
      modifies spd
      ensures old(spd.sheets) <= spd.sheets
      ensures done ==> Covered(spd.g.Limit(Range(end, skips)))
      ensures done ==> spd.sheets == old(spd.sheets) + Copy(initpage, skips)
      ensures !done ==> Covered(NextPage())
    {
      hide Has, Printed, FormFed;
      spd.ticks := ticks;
      ghost var was, next := spd.sheets, NextPage();
      ghost var at: nat;
      if onTheFly {
        done, at := spd.ContJFF(initpage, Range(end, skips));
      } else {
        done, at := spd.ContJ(initpage, Range(end, skips));
      }
      if done {
        CopyHas(was, initpage);
      } else {
        StoppedHas(spd.g, was, spd.sheets, First(), initpage, at, skips);
        HasLess(spd.g.doc, was, spd.sheets, First(), next, skips);
        NoneToHave(spd.g.doc, spd.sheets, First(), skips);
      }
    }

    lemma CopyHas(was: seq<Sheet>, initpage: nat)
      requires Valid() && Has(spd.g.doc, was, First(), initpage, skips)
      ensures Has(spd.g.doc, was + Copy(initpage, skips), First(), spd.g.Limit(Range(end, skips)), skips)
    {
      hide Has, Printed, FormFed;
      var to := spd.g.Limit(Range(end, skips));
      var forced := if onTheFly then ForcedFF(spd.g, initpage) else spd.g.Forced(initpage);
      if initpage <= spd.g.doc.npages {
        assert was + Copy(initpage, skips) == was + forced + Printed(spd.g.doc, initpage, to, skips);
        HasMore(spd.g.doc, was, was + forced, was + Copy(initpage, skips), First(), initpage, to, skips);
      } else {
        HasLess(spd.g.doc, was, was + Copy(initpage, skips), First(), initpage, skips);
        HasFewer(spd.g.doc, was + Copy(initpage, skips), First(), to, initpage, skips);
      }
    }

    /** proc_req: a restart strikes after each of `restarts`, an abort after `abort`.  A copy that
        is done before any restart has struck sends what it should, and no more. */
    method ProcReq(restarts: seq<nat>, abort: nat) returns (done: bool, ghost struck: nat)
      requires Valid() && Covered(NextPage())
      modifies this, spd
      ensures start == old(start) && end == old(end) && reverse == old(reverse)
      ensures old(spd.sheets) <= spd.sheets
      ensures !done ==> skips == old(skips) && Covered(NextPage())
      ensures done ==>
                forall k: nat :: Asked(k, old(skips)) ==> spd.g.doc.Full(k) in spd.sheets
      ensures done ==> spd.haltat == 0 && skips == if reverse then Flip(old(skips)) else old(skips)
      ensures struck <= |restarts|
      ensures done && struck == 0 ==> spd.sheets == old(spd.sheets) + Copy(old(NextPage()), old(skips))
    {
      hide Printed, FormFed, Copy, Turn, Setting.Valid;
      var initpage := 0;
      struck := 0;
      if !spd.g.form.noRanges {
        initpage := start;
        if spd.haltat != 0 {
          initpage := spd.haltat;
          spd.haltat := 0;
        }
      }
      var i := 0;
      done := false;
      while i < |restarts| && !done
        invariant !done ==> Covered(initpage) && Covered(NextPage())
        invariant done ==> Covered(spd.g.Limit(Range(end, skips)))
        invariant old(spd.sheets) <= spd.sheets
        invariant start == old(start) && end == old(end) && reverse == old(reverse) && skips == old(skips)
        invariant !done ==> struck == i
        invariant struck <= i <= |restarts| && initpage == old(NextPage())
        invariant struck == 0 ==> spd.sheets == old(spd.sheets) + if done then Copy(initpage, skips) else []
        decreases |restarts| - i, !done
      {
        done := Run(initpage, restarts[i]);
        i := i + 1;
        struck := if done then struck else i;
      }
      if !done {
        done := Run(initpage, abort);
      }
      if !done {
        return;
      }
      AskedIs(skips);
      spd.haltat := 0;
      if reverse {
        if skips.odd {
          skips := skips.(odd := false, even := true);
        } else {
          skips := skips.(even := false, odd := true);
        }
      }
    }

    /** However often a print is aborted, once a request completes every page of the range that
        is not skipped has been sent in full. */
    method Requests(tries: seq<(seq<nat>, nat)>) returns (done: bool)
      requires Valid() && spd.haltat == 0 && spd.sheets == []
      modifies this, spd
      ensures start == old(start) && end == old(end)
      ensures done ==>
                forall k: nat :: Asked(k, old(skips)) ==> spd.g.doc.Full(k) in spd.sheets
    {
      done := false;
      var i := 0;
      while i < |tries| && !done
        invariant start == old(start) && end == old(end)
        invariant !done ==> skips == old(skips) && Covered(NextPage())
        invariant done ==>
                    forall k: nat :: Asked(k, old(skips)) ==> spd.g.doc.Full(k) in spd.sheets
        decreases |tries| - i
      {
        ghost var struck;
        done, struck := ProcReq(tries[i].0, tries[i].1);
        i := i + 1;
      }
    }

    /** Two copies, one after the other and undisturbed, of a job with SPQ_REVOE and just one of the
        two flags: between them they send each page of the range exactly once, and nothing else. */
    method TwoCopies(abort1: nat, abort2: nat) returns (done: bool)
      requires Valid() && spd.haltat == 0 && spd.sheets == [] && reverse && skips.odd != skips.even
      requires First() == 0 || !spd.g.form.inclPage1
      modifies this, spd
      ensures done ==>
                forall k: nat :: k < spd.g.doc.npages ==>
                  multiset(spd.sheets)[spd.g.doc.Full(k)] == if Asked(k, Skips(false, false)) then 1 else 0
      ensures done ==> forall x :: x in spd.sheets ==>
                x.n > 0 && Asked(x.n - 1, Skips(false, false)) && x == spd.g.doc.Full(x.n - 1)
    {
      hide Printed, Turn, Copy, FormFed, Skipped;
      ghost var from, to, was := First(), Past(), skips;
      ghost var struck;
      done, struck := ProcReq([], abort1);
      if !done {
        return;
      }
      NotForced(from, was);
      NotForced(from, skips);
      ghost var first := spd.sheets;
      done, struck := ProcReq([], abort2);
      if done {
        AllOnce(from, to, was);
        AskedIs(Skips(false, false));
        assert first == Printed(spd.g.doc, from, to, was);
        assert spd.sheets == first + Printed(spd.g.doc, from, to, Flip(was));
      }
    }

    /** The first page behind the range */
    function Past(): nat
      reads this`end
    {
      spd.g.Limit(Range(end, Skips(false, false)))
    }

    /** How many sheets a copy sends for the forced first page */
    function ForcedSheets(initpage: nat): nat {
      if initpage > 0 && spd.g.form.inclPage1 && (onTheFly || initpage <= spd.g.doc.npages) then 1 else 0
    }

    /** These are the pages asked for from page initpage on, each once, in order and in full. */
    ghost predicate AreAsked(pages: seq<Sheet>, initpage: nat, flags: Skips)
      requires spd.g.doc.Cut()
      reads this`start, this`end
    {
      && (forall k: nat :: initpage <= k && Asked(k, flags) ==> spd.g.doc.Full(k) in pages)
      && (forall i :: 0 <= i < |pages| ==>
            initpage < pages[i].n && Asked(pages[i].n - 1, flags) && pages[i] == spd.g.doc.Full(pages[i].n - 1))
      && (forall i, j :: 0 <= i < j < |pages| ==> pages[i].n < pages[j].n)
    }

    /** An undisturbed copy sends page 1 if it is forced, and then just the pages asked for from page
        initpage on, each once, in order and in full. */
    lemma CopySends(initpage: nat, flags: Skips)
      requires Valid() && First() <= initpage
      ensures ForcedSheets(initpage) <= |Copy(initpage, flags)|
      ensures ForcedSheets(initpage) == 1 && spd.g.doc.npages > 0 ==> Copy(initpage, flags)[0] == spd.g.doc.Full(0)
      ensures AreAsked(Copy(initpage, flags)[ForcedSheets(initpage)..], initpage, flags)
    {
      hide *;
      CopyParts(initpage, flags);
      PagesAsked(initpage, flags);
    }

    /** What a copy sends behind the forced page */
    function PagesOf(initpage: nat, flags: Skips): seq<Sheet>
      requires Valid()
      reads this`end
    {
      if initpage <= spd.g.doc.npages then Printed(spd.g.doc, initpage, spd.g.Limit(Range(end, flags)), flags) else []
    }

    lemma CopyParts(initpage: nat, flags: Skips)
      requires Valid()
      ensures ForcedSheets(initpage) <= |Copy(initpage, flags)|
      ensures ForcedSheets(initpage) == 1 && spd.g.doc.npages > 0 ==> Copy(initpage, flags)[0] == spd.g.doc.Full(0)
      ensures Copy(initpage, flags)[ForcedSheets(initpage)..] == PagesOf(initpage, flags)
    {
      hide Printed, FormFed, Doc.Cut, Doc.Full;
      var forced := if onTheFly then ForcedFF(spd.g, initpage) else spd.g.Forced(initpage);
      assert Copy(initpage, flags) == forced + PagesOf(initpage, flags) && |forced| == ForcedSheets(initpage);
    }

    lemma PagesAsked(initpage: nat, flags: Skips)
      requires Valid() && First() <= initpage
      ensures AreAsked(PagesOf(initpage, flags), initpage, flags)
    {
      hide Printed, FormFed, Doc.Cut, Doc.Full, Skipped, Asked, AreAsked, InOrder;
      assert spd.g.doc.Cut();
      if initpage <= spd.g.doc.npages {
        var to := spd.g.Limit(Range(end, flags));
        PrintedInOrder(spd.g.doc, initpage, to, flags);
        forall k: nat | k < spd.g.doc.npages
          ensures initpage <= k < to && !Skipped(k, flags) ==> spd.g.doc.Full(k) in PagesOf(initpage, flags)
        {
          PrintedHas(spd.g.doc, initpage, to, flags, k);
        }
        InOrderAsked(PagesOf(initpage, flags), initpage, flags);
      } else {
        NoneAsked(initpage, flags);
      }
    }

    lemma NoneAsked(initpage: nat, flags: Skips)
      requires spd.g.doc.Cut() && initpage > spd.g.doc.npages
      ensures AreAsked([], initpage, flags)
    {
    }

    lemma InOrderAsked(pages: seq<Sheet>, initpage: nat, flags: Skips)
      requires spd.g.doc.Cut() && First() <= initpage
      requires InOrder(spd.g.doc, initpage, spd.g.Limit(Range(end, flags)), flags, pages)
      requires forall k: nat | k < spd.g.doc.npages ::
                 initpage <= k < spd.g.Limit(Range(end, flags)) && !Skipped(k, flags) ==> spd.g.doc.Full(k) in pages
      ensures AreAsked(pages, initpage, flags)
    {
      hide Doc.Cut, Doc.Full, Skipped, Asked;
      AskedIs(flags);
    }

    lemma NotForced(from: nat, flags: Skips)
      requires Valid() && (from == 0 || !spd.g.form.inclPage1)
      ensures [] + Copy(from, flags) == Printed(spd.g.doc, from, Past(), flags)
    {
    }

    lemma AllOnce(from: nat, to: nat, flags: Skips)
      requires Valid() && to <= spd.g.doc.npages && flags.odd != flags.even
      ensures var sheets := Printed(spd.g.doc, from, to, flags) + Printed(spd.g.doc, from, to, Flip(flags));
              && (forall k: nat :: k < spd.g.doc.npages ==>
                  multiset(sheets)[spd.g.doc.Full(k)] == if from <= k < to then 1 else 0)
              && (forall x :: x in sheets ==> from < x.n <= to && x == spd.g.doc.Full(x.n - 1))
    {
      var doc := spd.g.doc;
      SharedOnce(doc, from, to, flags);
      forall k: nat | k < doc.npages
        ensures multiset(Printed(doc, from, to, Skips(false, false)))[doc.Full(k)] == if from <= k < to then 1 else 0
      {
        RangeOnce(doc, from, to, k);
      }
      PrintedInOrder(doc, from, to, Skips(false, false));
      var a, b, c := Printed(doc, from, to, flags), Printed(doc, from, to, Flip(flags)),
          Printed(doc, from, to, Skips(false, false));
      assert multiset(a + b) == multiset(c);
      forall x | x in a + b
        ensures x in c
      {
        assert x in multiset(c);
      }
    }
  }
}
