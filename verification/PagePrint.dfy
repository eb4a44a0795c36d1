/**
 Printing the pages of a local job (contj, contj_ff and the page-range, abort and odd/even parts
 of proc_req in src/spd.c, with scan_ffs of src/sh_netfeed.c).

 Pages are numbered from 0 inside the program, so that a page with an even number is one of the
 odd pages of the human reader.
 */
module PagePrint {
  import opened Common
  import opened PageSplit

  const FF: Byte := 12    // DEF_DELIM

  /** What a printer receives for a page: its number in the start of page string, the characters
      sent so far, and whether the end of page string has followed. */
  datatype Sheet = Sheet(n: nat, text: Text, ended: bool)

  /** The file of a job, its size (spq_size), and the vector that cuts it into npages pages, none
      of them empty.  A job that was cut at its page limit has a file that is shorter than its
      size: something is missing at the end of its last page. */
  datatype Doc = Doc(text: Text, size: nat, offs: seq<nat>, npages: nat) {
    predicate Cut() {
      && npages < |offs| && offs[0] == 0 && offs[npages] == size
      && (forall k, m :: 0 <= k < m <= npages ==> offs[k] < offs[m])
      && |text| <= size && (npages > 0 ==> offs[npages - 1] <= |text|)
    }

    predicate Short() {
      |text| < size
    }

    /** Where the file has the end of page k */
    function PageEnd(k: nat): nat
      requires Cut() && k < npages
    {
      if offs[k + 1] < |text| then offs[k + 1] else |text|
    }

    function PageText(k: nat): Text
      requires Cut() && k < npages
    {
      assert k + 1 == npages || offs[k + 1] <= offs[npages - 1];
      assert offs[k] <= offs[npages - 1] && offs[k] < offs[k + 1];
      text[offs[k]..PageEnd(k)]
    }

    /** Page k, sent in full */
    function Full(k: nat): Sheet
      requires Cut() && k < npages
    {
      Sheet(k + 1, PageText(k), true)
    }
  }

  lemma EndOfDoc(doc: Doc, k: nat)
    requires doc.Cut() && k <= doc.npages
    ensures doc.offs[k] <= doc.size
    ensures doc.offs[k] < doc.size <==> k < doc.npages
    ensures k < doc.npages ==>
              doc.offs[k] <= |doc.text| && (doc.offs[k + 1] > |doc.text| <==> k + 1 == doc.npages && doc.Short())
  {
    assert k < doc.npages ==> doc.offs[k] < doc.offs[doc.npages];
    assert k + 1 < doc.npages ==> doc.offs[k + 1] <= doc.offs[doc.npages - 1];
    assert k < doc.npages - 1 ==> doc.offs[k] < doc.offs[doc.npages - 1];
  }

  /** SPQ_ODDP and SPQ_EVENP */
  datatype Skips = Skips(odd: bool, even: bool)

  predicate Skipped(k: nat, skips: Skips) {
    if k % 2 == 1 then skips.even else skips.odd
  }

  /** What one turn of the main loop of contj is to send */
  function Turn(doc: Doc, k: nat, skips: Skips): seq<Sheet>
    requires doc.Cut() && k < doc.npages
  {
    if Skipped(k, skips) then [] else [doc.Full(k)]
  }

  /** The pages from `from` up to but not including `to` that are not skipped, each sent in full */
  function Printed(doc: Doc, from: nat, to: nat, skips: Skips): seq<Sheet>
    requires doc.Cut() && to <= doc.npages
  {
    if to <= from then []
    else Printed(doc, from, to - 1, skips) + Turn(doc, to - 1, skips)
  }

  /** Settings of the form type: PI_NORANGES, PI_INCLP1, pi_windback; `pads` says that there is
      neither a document end string nor a filter, so that missing delimiters are added. */
  datatype Form = Form(noRanges: bool, inclPage1: bool, windback: nat, pads: bool)

  /** What a print takes from the job: spq_end, SPQ_ODDP and SPQ_EVENP */
  datatype Range = Range(end: nat, skips: Skips)

  /** What is fixed while one job is printed: the form type, the job's file and page vector, and
      the delimiter that belongs to the vector with the number missing on the last page. */
  datatype Setting = Setting(form: Form, doc: Doc, delim: Text, lastPage: nat) {

    predicate Valid() {
      doc.Cut()
    }

    /** The first page that is not printed: behind spq_end, unless there are no ranges */
    function Limit(range: Range): (n: nat)
      ensures n <= doc.npages
    {
      if form.noRanges || doc.npages <= range.end + 1 then doc.npages else range.end + 1
    }

    /** Page k is there, and within the range. */
    predicate InRange(k: nat, range: Range) {
      k < doc.npages && (form.noRanges || k <= range.end)
    }

    lemma LimitIs(range: Range)
      ensures forall k: nat :: k < Limit(range) <==> InRange(k, range)
    {
    }

    function Forced(init: nat): seq<Sheet>
      requires Valid()
    {
      if init > 0 && form.inclPage1 && init <= doc.npages then [doc.Full(0)] else []
    }

    /** Every page that a print from page init on is to send */
    function Wanted(init: nat, range: Range): seq<Sheet>
      requires Valid()
    {
      if init > doc.npages then []
      else Forced(init) + Printed(doc, init, Limit(range), range.skips)
    }

    /** Where to resume after an abort on page p */
    function Back(p: nat): nat {
      if p > form.windback then p - form.windback else 0
    }

    /** spq_haltat when a print from page init on stops while at page `at` */
    predicate HaltFits(init: nat, at: nat, hadHalt: nat, haltat: nat) {
      (at == init && haltat == hadHalt) || haltat == Back(at) || (at > init && haltat == Back(at - 1))
    }

    /** Does the main loop of contj run to the end of the job (and not leave before it, because
        of spq_end, or because the last page is to be skipped or ends with the file)? */
    predicate EndReached(init: nat, range: Range) {
      var at := if init < Limit(range) then Limit(range) else init;
      at == doc.npages && (at == init || (!Skipped(at - 1, range.skips) && !doc.Short()))
    }

    /** The delimiters that contj adds behind the job: those that its last page lacks */
    function Padding(init: nat, range: Range): Text {
      if form.pads && init <= doc.npages && EndReached(init, range) then Times(lastPage, delim) else []
    }
  }

  function Times(n: nat, t: Text): Text {
    if n == 0 then [] else Times(n - 1, t) + t
  }

  // ----- Pages that end with a form feed -----

  /** The vector cuts the job behind each form feed. */
  ghost predicate FormFed(doc: Doc) {
    && doc.Cut() && !doc.Short()
    && (forall k, i :: 0 <= k < doc.npages && doc.offs[k] <= i < doc.offs[k + 1] - 1 ==> doc.text[i] != FF)
    && (forall k :: 0 < k < doc.npages ==> doc.text[doc.offs[k] - 1] == FF)
  }

  lemma LastOfPage(doc: Doc, k: nat)
    requires doc.Cut() && !doc.Short() && k < doc.npages
    ensures 0 < doc.offs[k + 1] <= |doc.text|
    ensures |doc.PageText(k)| > 0 && doc.PageText(k)[|doc.PageText(k)| - 1] == doc.text[doc.offs[k + 1] - 1]
  {
    EndOfDoc(doc, k + 1);
    assert doc.offs[k] < doc.offs[k + 1];
  }

  lemma PageWithin(doc: Doc, k: nat)
    requires doc.Cut() && !doc.Short() && k < doc.npages
    ensures doc.offs[k] < doc.offs[k + 1] <= |doc.text|
    ensures doc.offs[k + 1] == |doc.text| <==> k + 1 == doc.npages
    ensures doc.PageText(k) == doc.text[doc.offs[k]..doc.offs[k + 1]]
  {
    EndOfDoc(doc, k + 1);
    assert doc.offs[k] < doc.offs[k + 1];
  }

  /** Before the end of the page has been read no form feed has; the next character, if it is one,
      ends the page. */
  lemma FeedAhead(doc: Doc, k: nat, charCnt: nat, lastch: Option<Byte>)
    requires FormFed(doc) && k < doc.npages && doc.offs[k] <= charCnt <= doc.offs[k + 1] && charCnt < |doc.text|
    requires lastch != Some(FF) && lastch == if charCnt == doc.offs[k] then None else Some(doc.text[charCnt - 1])
    ensures charCnt < doc.offs[k + 1] && (doc.text[charCnt] == FF ==> charCnt + 1 == doc.offs[k + 1])
  {
    PageWithin(doc, k);
    assert k + 1 < doc.npages ==> doc.text[doc.offs[k + 1] - 1] == FF;
  }

  lemma FormFedCut(doc: Doc)
    requires FormFed(doc)
    ensures doc.Cut() && !doc.Short()
  {
  }

  lemma ReadWhole(doc: Doc, k: nat, eof: bool, charCnt: nat)
    requires FormFed(doc) && k < doc.npages && doc.offs[k] <= charCnt <= doc.offs[k + 1]
    requires eof ==> charCnt == |doc.text| && (charCnt > doc.offs[k] ==> doc.text[charCnt - 1] != FF)
    requires !eof ==> charCnt == doc.offs[k + 1] && doc.text[charCnt - 1] == FF
    ensures charCnt == doc.offs[k + 1] && (eof <==> k + 1 == doc.npages && Partial(doc))
  {
    PageWithin(doc, k);
  }

  /** The job does not end with a form feed. */
  predicate Partial(doc: Doc) {
    doc.text != [] && doc.text[|doc.text| - 1] != FF
  }

  function LastByte(sheets: seq<Sheet>): Option<Byte> {
    if sheets == [] || sheets[|sheets| - 1].text == [] then None
    else var t := sheets[|sheets| - 1].text; Some(t[|t| - 1])
  }

  /** The last character sent when these sheets follow one that ended with `had` */
  function Then(had: Option<Byte>, sheets: seq<Sheet>): Option<Byte> {
    if sheets == [] then had else LastByte(sheets)
  }

  lemma ThenStep(had: Option<Byte>, was: seq<Sheet>, a: seq<Sheet>, b: seq<Sheet>)
    ensures Then(Then(had, a), b) == Then(had, a + b)
    ensures (was + a) + b == was + (a + b)
  {
    assert b == [] ==> a + b == a;
  }

  /** Unlike contj, contj_ff starts on the forced first page without looking whether the job
      reaches as far as page init, and even if the job is empty. */
  function ForcedFF(g: Setting, init: nat): seq<Sheet>
    requires g.Valid()
  {
    if init > 0 && g.form.inclPage1 then FirstPage(g) else []
  }

  function FirstPage(g: Setting): seq<Sheet>
    requires g.Valid()
  {
    [if g.doc.npages > 0 then g.doc.Full(0) else Sheet(1, [], true)]
  }

  /** What contj_ff sends */
  function WantedFF(g: Setting, init: nat, range: Range): seq<Sheet>
    requires g.Valid()
  {
    ForcedFF(g, init) + (if init > g.doc.npages then [] else Printed(g.doc, init, g.Limit(range), range.skips))
  }

  /** Behind the last page that ends with a form feed there is nothing more to print. */
  lemma WantedFFParts(g: Setting, init: nat, range: Range)
    requires FormFed(g.doc)
    ensures init > Complete(g.doc) || (init > 0 && FirstIsLast(g.doc)) ==> WantedFF(g, init, range) == ForcedFF(g, init)
    ensures LastByte(WantedFF(g, init, range)) ==
            if init > g.doc.npages then LastByte(ForcedFF(g, init))
            else Then(LastByte(ForcedFF(g, init)), Printed(g.doc, init, g.Limit(range), range.skips))
  {
    if init <= g.doc.npages && (init > Complete(g.doc) || (init > 0 && FirstIsLast(g.doc))) {
      assert Printed(g.doc, init, g.Limit(range), range.skips) == [];
    }
  }

  /** Does contj_ff see the end of the file, on the first page or in its main loop? */
  predicate SeenFF(g: Setting, init: nat, range: Range) {
    if init > 0 && g.form.inclPage1 && FirstIsLast(g.doc) then true
    else init <= Complete(g.doc) && (if init < g.Limit(range) then g.Limit(range) else init) == g.doc.npages
  }

  /** contj_ff adds one form feed when it has seen the end of the job and the last character it
      sent, if any, was not one. */
  function PaddingFF(g: Setting, init: nat, range: Range): Text
    requires g.Valid()
  {
    if g.form.pads && SeenFF(g, init, range) && LastByte(WantedFF(g, init, range)) != Some(FF) then [FF] else []
  }

  /** Reading the first page runs into the end of the file. */
  predicate FirstIsLast(doc: Doc) {
    doc.npages == 0 || (doc.npages == 1 && Partial(doc))
  }

  /** The pages that end with a form feed */
  function Complete(doc: Doc): nat {
    if Partial(doc) && doc.npages > 0 then doc.npages - 1 else doc.npages
  }

  /** A print from page init on stopped while at page `at`: all that is wanted of the pages
      before it has been sent after what was sent before. */
  ghost predicate Stopped(g: Setting, init: nat, at: nat, skips: Skips, was: seq<Sheet>, sheets: seq<Sheet>)
    requires g.Valid()
  {
    && was <= sheets
    && (at == init || init < at <= g.doc.npages)
    && (at > init ==> exists pre {:trigger pre + Printed(g.doc, init, at, skips)} ::
          was <= pre && pre + Printed(g.doc, init, at, skips) <= sheets)
  }

  /** A printer process (spd): the setting, the spq_haltat of the job, and what has been sent. */
  class Spd {
    const g: Setting
    var haltat: nat
    var sheets: seq<Sheet>
    var tail: Text         // sent behind the last page
    /** The moment at which an abort message strikes, counted in things done until then */
    var ticks: nat

    constructor (g: Setting)
      ensures this.g == g && haltat == 0 && sheets == [] && tail == []
    {
      this.g := g;
      haltat, sheets, tail, ticks := 0, [], [], 0;
    }

    /** One more thing is done, unless the abort comes first. */
    method Tick() returns (alive: bool)
      modifies this`ticks
    {
      alive := ticks > 0;
      if alive {
        ticks := ticks - 1;
      }
    }

    /** The characters of a page from its offset up to that of the next page; eof when the file
        ends before that. */
    method SendChars(from: nat, endofpage: nat) returns (alive: bool, eof: bool)
      requires from <= endofpage && from <= |g.doc.text|
      requires |sheets| > 0 && sheets[|sheets| - 1].text == []
      modifies this`ticks, this`sheets
      ensures |sheets| == old(|sheets|) && sheets[..|sheets| - 1] == old(sheets[..|sheets| - 1])
      ensures alive ==> (eof <==> endofpage > |g.doc.text|)
      ensures alive ==>
                sheets[|sheets| - 1] ==
                old(sheets[|sheets| - 1]).(text := g.doc.text[from..if eof then |g.doc.text| else endofpage])
    {
      alive, eof := true, false;
      var charCnt := from;
      var last := |sheets| - 1;
      while charCnt < endofpage
        invariant alive && !eof && from <= charCnt <= endofpage && charCnt <= |g.doc.text|
        invariant |sheets| == last + 1 && sheets[..last] == old(sheets[..last])
        invariant sheets[last] == old(sheets[last]).(text := g.doc.text[from..charCnt])
      {
        if charCnt == |g.doc.text| {
          eof := true;
          return;
        }
        alive := Tick();
        if !alive { return; }
        var ch := g.doc.text[charCnt];
        sheets := sheets[last := sheets[last].(text := sheets[last].text + [ch])];
        charCnt := charCnt + 1;
        assert g.doc.text[from..charCnt] == g.doc.text[from..charCnt - 1] + [ch];
      }
    }

    /** PSTART, the characters of the page, PEND */
    method PrintPage(k: nat) returns (alive: bool, eof: bool)
      requires g.Valid() && k < g.doc.npages
      modifies this`ticks, this`sheets
      ensures alive ==> sheets == old(sheets) + [g.doc.Full(k)]
      ensures alive ==> (eof <==> k + 1 == g.doc.npages && g.doc.Short())
      ensures old(sheets) <= sheets
    {
      eof := false;
      alive := Tick();
      if !alive { return; }
      ghost var was := sheets;
      sheets := sheets + [Sheet(k + 1, [], false)];
      ghost var page := g.doc.PageText(k);
      EndOfDoc(g.doc, k);
      alive, eof := SendChars(g.doc.offs[k], g.doc.offs[k + 1]);
      assert was == sheets[..|sheets| - 1];
      if !alive { return; }
      alive := Tick();
      if !alive { return; }
      sheets := sheets[|sheets| - 1 := sheets[|sheets| - 1].(ended := true)];
    }

    /** The missing delimiters behind the last page */
    method PadOut()
      modifies this`tail
      ensures tail == old(tail) + Times(g.lastPage, g.delim)
    {
      var rc := 0;
      while rc < g.lastPage
        invariant rc <= g.lastPage && tail == old(tail) + Times(rc, g.delim)
      {
        var cc := 0;
        while cc < |g.delim|
          invariant cc <= |g.delim| && rc < g.lastPage && tail == old(tail) + Times(rc, g.delim) + g.delim[..cc]
        {
          tail := tail + [g.delim[cc]];
          cc := cc + 1;
        }
        rc := rc + 1;
      }
    }

    /** One turn of the main loop of contj: note where to wind back to, then skip or print the page. */
    method OnePage(pageCnt: nat, skips: Skips) returns (alive: bool, eof: bool)
      requires g.Valid() && pageCnt < g.doc.npages
      modifies this`sheets, this`ticks, this`haltat
      ensures alive ==> sheets == old(sheets) + Turn(g.doc, pageCnt, skips) && haltat == g.Back(pageCnt)
      ensures alive ==> (eof <==> pageCnt + 1 == g.doc.npages && g.doc.Short() && !Skipped(pageCnt, skips))
      ensures !alive ==> haltat == old(haltat) || haltat == g.Back(pageCnt)
      ensures old(sheets) <= sheets
    {
      eof := false;
      alive := Tick();
      if !alive {
        return;
      }
      haltat := if pageCnt > g.form.windback then pageCnt - g.form.windback else 0;
      if pageCnt % 2 == 1 {
        if skips.even {
          return;
        }
      } else if skips.odd {
        return;
      }
      alive, eof := PrintPage(pageCnt);
    }

    /** The main loop of contj: not alive when an abort has struck, then while at page `at`;
        atEnd when it has run to the end of the job rather than left before a skipped last page. */
    method PagesFrom(initpage: nat, range: Range) returns (alive: bool, atEnd: bool, ghost at: nat)
      requires g.Valid() && initpage <= g.doc.npages
      modifies this`sheets, this`ticks, this`haltat
      ensures alive ==> sheets == old(sheets) + Printed(g.doc, initpage, g.Limit(range), range.skips)
      ensures alive ==> atEnd == g.EndReached(initpage, range)
      ensures !alive ==> initpage <= at <= g.doc.npages && g.HaltFits(initpage, at, old(haltat), haltat)
      ensures !alive ==> old(sheets) + Printed(g.doc, initpage, at, range.skips) <= sheets
    {
      hide Turn;
      var pageCnt, charCnt, left := initpage, g.doc.offs[initpage], false;
      EndOfDoc(g.doc, pageCnt);
      ghost var sent := Printed(g.doc, initpage, initpage, range.skips);
      while !left && charCnt < g.doc.size && (pageCnt <= range.end || g.form.noRanges)
        invariant initpage <= pageCnt <= g.doc.npages
        invariant charCnt < g.doc.size <==> pageCnt < g.doc.npages
        invariant sheets == old(sheets) + sent && sent == Printed(g.doc, initpage, pageCnt, range.skips)
        invariant pageCnt == initpage || pageCnt <= g.Limit(range)
        invariant left <==>
                    pageCnt > initpage && pageCnt == g.doc.npages &&
                    (Skipped(pageCnt - 1, range.skips) || g.doc.Short())
        invariant haltat == if pageCnt == initpage then old(haltat) else g.Back(pageCnt - 1)
        decreases g.doc.npages - pageCnt
      {
        at := pageCnt;
        var eof;
        alive, eof := OnePage(pageCnt, range.skips);
        if !alive {
          atEnd := false;
          return;
        }
        ThenStep(None, old(sheets), sent, Turn(g.doc, pageCnt, range.skips));
        sent := sent + Turn(g.doc, pageCnt, range.skips);
        left := eof || (pageCnt + 1 >= g.doc.npages && Skipped(pageCnt, range.skips));
        pageCnt := pageCnt + 1;
        charCnt := g.doc.offs[pageCnt];
        EndOfDoc(g.doc, pageCnt);
      }
      alive, atEnd, at := true, !left && charCnt >= g.doc.size, pageCnt;
    }

    /** contj: true when done, false when an abort has struck */
    method ContJ(initpage: nat, range: Range) returns (done: bool, ghost at: nat)
      requires g.Valid()
      modifies this`sheets, this`tail, this`ticks, this`haltat
      ensures done ==>
                sheets == old(sheets) + g.Wanted(initpage, range) && tail == old(tail) + g.Padding(initpage, range)
      ensures !done ==>
                Stopped(g, initpage, at, range.skips, old(sheets), sheets) &&
                g.HaltFits(initpage, at, old(haltat), haltat)
    {
      at := initpage;
      if initpage > g.doc.npages {
        return true, at;
      }
      var alive, atEnd := true, false;
      if initpage > 0 && g.form.inclPage1 {
        var eof;
        alive, eof := PrintPage(0);
        if !alive {
          return false, at;
        }
      }
      ghost var sent := sheets;
      alive, atEnd, at := PagesFrom(initpage, range);
      if !alive {
        assert sent + Printed(g.doc, initpage, at, range.skips) <= sheets;
        return false, at;
      }
      if atEnd && g.form.pads {
        PadOut();
      }
      done := true;
    }

    /** Skipping one page: read up to a form feed or to the end of the file */
    method SkipPage(pos: nat, ghost k: nat) returns (charCnt: nat, eof: bool)
      requires FormFed(g.doc) && k <= g.doc.npages && pos == g.doc.offs[k]
      ensures k < g.doc.npages ==> charCnt == g.doc.offs[k + 1] && (eof <==> k + 1 == g.doc.npages && Partial(g.doc))
      ensures k == g.doc.npages ==> eof && charCnt == pos
    {
      charCnt, eof := pos, false;
      EndOfDoc(g.doc, k);
      if k < g.doc.npages {
        assert g.doc.offs[k] < g.doc.offs[k + 1];
        EndOfDoc(g.doc, k + 1);
      }
      while true
        invariant pos <= charCnt <= |g.doc.text| && !eof
        invariant k < g.doc.npages ==>
                    charCnt < g.doc.offs[k + 1] || (k + 1 == g.doc.npages && charCnt == |g.doc.text| && Partial(g.doc))
        decreases |g.doc.text| - charCnt
      {
        if charCnt == |g.doc.text| {
          eof := true;
          return;
        }
        var ch := g.doc.text[charCnt];
        charCnt := charCnt + 1;
        if ch == FF {
          return;
        }
      }
    }

    /** The characters up to a form feed or the end of the file */
    method ReadChars(pos: nat, k: nat) returns (alive: bool, charCnt: nat, eof: bool)
      requires FormFed(g.doc) && k < g.doc.npages && pos == g.doc.offs[k]
      requires |sheets| > 0 && sheets[|sheets| - 1].text == []
      modifies this`sheets, this`ticks
      ensures |sheets| == old(|sheets|) && sheets[..|sheets| - 1] == old(sheets[..|sheets| - 1])
      ensures alive ==> sheets[|sheets| - 1] == old(sheets[|sheets| - 1]).(text := g.doc.PageText(k))
      ensures alive ==> charCnt == g.doc.offs[k + 1] && (eof <==> k + 1 == g.doc.npages && Partial(g.doc))
    {
      hide FormFed, Partial, Doc.Cut, Doc.Short, Doc.PageText;
      alive, charCnt, eof := true, pos, false;
      var last := |sheets| - 1;
      FormFedCut(g.doc);
      PageWithin(g.doc, k);
      var lastch: Option<Byte> := None;
      assert g.doc.text[pos..pos] == [];
      while !eof && lastch != Some(FF)
        invariant alive && pos <= charCnt <= g.doc.offs[k + 1]
        invariant |sheets| == last + 1 && sheets[..last] == old(sheets[..last])
        invariant sheets[last] == old(sheets[last]).(text := g.doc.text[pos..charCnt])
        invariant lastch == if charCnt == pos then None else Some(g.doc.text[charCnt - 1])
        invariant eof ==> charCnt == |g.doc.text| && lastch != Some(FF)
        invariant lastch == Some(FF) ==> charCnt == g.doc.offs[k + 1]
        decreases |g.doc.text| - charCnt, !eof
      {
        if charCnt == |g.doc.text| {
          eof := true;
        } else {
          alive := Tick();
          if !alive { return; }
          var ch := g.doc.text[charCnt];
          FeedAhead(g.doc, k, charCnt, lastch);
          charCnt := charCnt + 1;
          assert g.doc.text[pos..charCnt] == g.doc.text[pos..charCnt - 1] + [ch];
          sheets := sheets[last := sheets[last].(text := sheets[last].text + [ch])];
          lastch := Some(ch);
        }
      }
      ReadWhole(g.doc, k, eof, charCnt);
    }

    /** PSTART, the characters up to a form feed or the end of the file, PEND */
    method ReadPage(pos: nat, k: nat) returns (alive: bool, charCnt: nat, eof: bool, lastch: Option<Byte>)
      requires FormFed(g.doc) && k < g.doc.npages && pos == g.doc.offs[k]
      modifies this`sheets, this`ticks
      ensures old(sheets) <= sheets
      ensures alive ==> sheets == old(sheets) + [g.doc.Full(k)]
      ensures alive ==> charCnt == g.doc.offs[k + 1] && (eof <==> k + 1 == g.doc.npages && Partial(g.doc))
      ensures alive ==> lastch == LastByte([g.doc.Full(k)])
    {
      charCnt, eof, lastch := pos, false, None;
      ghost var was := sheets;
      alive := Tick();
      if !alive { return; }
      sheets := sheets + [Sheet(k + 1, [], false)];
      alive, charCnt, eof := ReadChars(pos, k);
      assert was == sheets[..|sheets| - 1];
      if !alive { return; }
      LastOfPage(g.doc, k);
      lastch := Some(g.doc.text[charCnt - 1]);
      alive := Tick();
      if !alive { return; }
      sheets := sheets[|sheets| - 1 := sheets[|sheets| - 1].(ended := true)];
    }

    /** One turn of the main loop of contj_ff */
    method OnePageFF(pos: nat, pageCnt: nat, skips: Skips, had: Option<Byte>)
      returns (alive: bool, charCnt: nat, eof: bool, lastch: Option<Byte>)
      requires FormFed(g.doc) && pageCnt < g.doc.npages && pos == g.doc.offs[pageCnt]
      modifies this`sheets, this`ticks, this`haltat
      ensures alive ==> sheets == old(sheets) + Turn(g.doc, pageCnt, skips) && haltat == g.Back(pageCnt)
      ensures alive ==> charCnt == g.doc.offs[pageCnt + 1] && (eof ==> pageCnt + 1 == g.doc.npages)
      ensures alive ==> lastch == Then(had, Turn(g.doc, pageCnt, skips))
      ensures !alive ==> haltat == old(haltat) || haltat == g.Back(pageCnt)
      ensures old(sheets) <= sheets
    {
      charCnt, eof, lastch := pos, false, had;
      alive := Tick();
      if !alive {
        return;
      }
      haltat := if pageCnt > g.form.windback then pageCnt - g.form.windback else 0;
      if (skips.even && pageCnt % 2 == 1) || (skips.odd && pageCnt % 2 == 0) {
        charCnt, eof := SkipPage(pos, pageCnt);
      } else {
        alive, charCnt, eof, lastch := ReadPage(pos, pageCnt);
      }
    }

    /** The main loop of contj_ff; seen when it has reached the end of the file */
    method PagesFromFF(initpage: nat, pos: nat, range: Range, had: Option<Byte>)
      returns (alive: bool, seen: bool, lastch: Option<Byte>, ghost at: nat)
      requires FormFed(g.doc) && initpage <= g.doc.npages && pos == g.doc.offs[initpage]
      modifies this`sheets, this`ticks, this`haltat
      ensures alive ==> sheets == old(sheets) + Printed(g.doc, initpage, g.Limit(range), range.skips)
      ensures alive ==> seen == ((if initpage < g.Limit(range) then g.Limit(range) else initpage) == g.doc.npages)
      ensures alive ==> lastch == Then(had, Printed(g.doc, initpage, g.Limit(range), range.skips))
      ensures !alive ==> initpage <= at <= g.doc.npages && g.HaltFits(initpage, at, old(haltat), haltat)
      ensures !alive ==> old(sheets) + Printed(g.doc, initpage, at, range.skips) <= sheets
    {
      hide Turn;
      var pageCnt, charCnt, eof := initpage, pos, false;
      lastch := had;
      EndOfDoc(g.doc, pageCnt);
      ghost var sent := Printed(g.doc, initpage, initpage, range.skips);
      while !eof && charCnt < g.doc.size && (pageCnt <= range.end || g.form.noRanges)
        invariant initpage <= pageCnt <= g.doc.npages && charCnt == g.doc.offs[pageCnt]
        invariant charCnt < g.doc.size <==> pageCnt < g.doc.npages
        invariant sheets == old(sheets) + sent && lastch == Then(had, sent)
        invariant sent == Printed(g.doc, initpage, pageCnt, range.skips)
        invariant pageCnt == initpage || pageCnt <= g.Limit(range)
        invariant eof ==> pageCnt == g.doc.npages
        invariant haltat == if pageCnt == initpage then old(haltat) else g.Back(pageCnt - 1)
        decreases g.doc.npages - pageCnt
      {
        at := pageCnt;
        alive, charCnt, eof, lastch := OnePageFF(charCnt, pageCnt, range.skips, lastch);
        if !alive {
          seen := false;
          return;
        }
        ThenStep(had, old(sheets), sent, Turn(g.doc, pageCnt, range.skips));
        sent := sent + Turn(g.doc, pageCnt, range.skips);
        pageCnt := pageCnt + 1;
        EndOfDoc(g.doc, pageCnt);
      }
      alive, seen, at := true, charCnt >= g.doc.size, pageCnt;
    }

    /** The first page of an empty file: PSTART, PEND */
    method ReadNothing() returns (alive: bool)
      modifies this`sheets, this`ticks
      ensures old(sheets) <= sheets
      ensures alive ==> sheets == old(sheets) + [Sheet(1, [], true)]
    {
      alive := Tick();
      if !alive { return; }
      sheets := sheets + [Sheet(1, [], false)];
      alive := Tick();
      if !alive { return; }
      sheets := sheets[|sheets| - 1 := Sheet(1, [], true)];
    }

    /** The forced first page; eof when the end of the file was met on it. */
    method ForcedPage() returns (alive: bool, eof: bool, charCnt: nat, lastch: Option<Byte>)
      requires FormFed(g.doc)
      modifies this`sheets, this`ticks
      ensures old(sheets) <= sheets
      ensures alive ==> eof == FirstIsLast(g.doc)
      ensures alive ==> sheets == old(sheets) + FirstPage(g) && lastch == LastByte(FirstPage(g))
      ensures alive && !eof ==> g.doc.npages > 0 && charCnt == g.doc.offs[1] && Complete(g.doc) > 0
    {
      EndOfDoc(g.doc, 0);
      if |g.doc.text| == 0 {
        charCnt, lastch, eof := 0, None, true;
        alive := ReadNothing();
      } else {
        alive, charCnt, eof, lastch := ReadPage(0, 0);
      }
    }

    /** The pages before page initpage skipped, from page `from` on; go when they are all there */
    method SkipTo(from: nat, pos: nat, initpage: nat) returns (go: bool, charCnt: nat)
      requires FormFed(g.doc) && from <= initpage && from <= Complete(g.doc) && pos == g.doc.offs[from]
      ensures go <==> initpage <= Complete(g.doc)
      ensures go ==> initpage <= g.doc.npages && charCnt == g.doc.offs[initpage]
    {
      var pageCnt := from;
      go, charCnt := true, pos;
      while pageCnt < initpage
        invariant pageCnt <= initpage && pageCnt <= Complete(g.doc) && charCnt == g.doc.offs[pageCnt]
        decreases initpage - pageCnt
      {
        var skipped, end := SkipPage(charCnt, pageCnt);
        if end {
          return false, charCnt;
        }
        charCnt, pageCnt := skipped, pageCnt + 1;
      }
    }

    /** The part of contj_ff before its main loop: the forced first page, then the pages before
        page init skipped; go says that the main loop follows, eof that the end of the file was
        met on the first page. */
    method FindPage(initpage: nat) returns (alive: bool, go: bool, eof: bool, charCnt: nat, lastch: Option<Byte>)
      requires FormFed(g.doc)
      modifies this`sheets, this`ticks
      ensures old(sheets) <= sheets
      ensures alive ==> sheets == old(sheets) + ForcedFF(g, initpage) && lastch == LastByte(ForcedFF(g, initpage))
      ensures alive ==> eof == (initpage > 0 && g.form.inclPage1 && FirstIsLast(g.doc))
      ensures alive ==> go == (!eof && initpage <= Complete(g.doc))
      ensures alive && go ==> initpage <= g.doc.npages && charCnt == g.doc.offs[initpage]
    {
      hide FormFed, FirstPage, LastByte, FirstIsLast, Partial;
      ValidFF();
      alive, go, eof, charCnt, lastch := true, false, false, 0, None;
      var pageCnt := 0;
      if initpage > 0 && g.form.inclPage1 {
        alive, eof, charCnt, lastch := ForcedPage();
        if !alive || eof {
          return;
        }
        pageCnt := 1;
      }
      go, charCnt := SkipTo(pageCnt, charCnt, initpage);
    }

    lemma ValidFF()
      requires FormFed(g.doc)
      ensures g.Valid() && g.doc.offs[0] == 0 && LastByte([]) == None
    {
    }

    /** contj_ff up to its padding; seen when it has reached the end of the file */
    method SendPagesFF(initpage: nat, range: Range)
      returns (alive: bool, seen: bool, lastch: Option<Byte>, ghost at: nat)
      requires FormFed(g.doc)
      modifies this`sheets, this`ticks, this`haltat
      ensures alive ==> sheets == old(sheets) + WantedFF(g, initpage, range)
      ensures alive ==> lastch == LastByte(WantedFF(g, initpage, range)) && seen == SeenFF(g, initpage, range)
      ensures !alive ==> Stopped(g, initpage, at, range.skips, old(sheets), sheets)
      ensures !alive ==> g.HaltFits(initpage, at, old(haltat), haltat)
    {
      at := initpage;
      var go, charCnt;
      alive, go, seen, charCnt, lastch := FindPage(initpage);
      if !alive {
        return;
      }
      WantedFFParts(g, initpage, range);
      if go {
        ghost var sent, forced := sheets, ForcedFF(g, initpage);
        alive, seen, lastch, at := PagesFromFF(initpage, charCnt, range, lastch);
        if alive {
          ThenStep(None, old(sheets), forced, Printed(g.doc, initpage, g.Limit(range), range.skips));
        } else {
          assert sent + Printed(g.doc, initpage, at, range.skips) <= sheets;
        }
      }
    }

    /** contj_ff: true when done, false when an abort has struck */
    method ContJFF(initpage: nat, range: Range) returns (done: bool, ghost at: nat)
      requires FormFed(g.doc)
      modifies this`sheets, this`tail, this`ticks, this`haltat
      ensures done ==>
                sheets == old(sheets) + WantedFF(g, initpage, range) &&
                tail == old(tail) + PaddingFF(g, initpage, range)
      ensures !done ==>
                Stopped(g, initpage, at, range.skips, old(sheets), sheets) &&
                g.HaltFits(initpage, at, old(haltat), haltat)
    {
      var seen, lastch;
      done, seen, lastch, at := SendPagesFF(initpage, range);
      if done && seen && g.form.pads && lastch != Some(FF) {
        tail := tail + [FF];
      }
    }
  }
}
