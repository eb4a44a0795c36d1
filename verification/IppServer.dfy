/**
 How the server reads a request (cupspy/cups.py, process_post): an IPP message and the document
 behind it, from a connection, with the length of both known or in chunks.
 */
module IppServer {
  import opened Common
  import opened FileBuf
  import opened Ipp
  import opened IppRoundTrip

  // ----- The first further value of a message -----

  /** Each attribute has at most one value. */
  predicate Single(items: seq<Item>) {
    forall k :: 0 <= k < |items| ==> SingleAt(items[k])
  }

  predicate SingleAt(item: Item) {
    match item
    case Group(_, attrs) => forall j :: 0 <= j < |attrs| ==> |attrs[j].values| <= 1
    case Bare(attr) => |attr.values| <= 1
  }

  /** What reading makes of it */
  function ReadSecond(clock: Clock, v: Option<Tagged>): Option<Tagged> {
    if v.Some? then Some(Read(clock, v.value)) else None
  }

  lemma {:induction false} AttrsKeepSecond(clock: Clock, attrs: seq<Attr>)
    ensures SecondIn(ReadAttrs(clock, attrs)) == ReadSecond(clock, SecondIn(attrs))
  {
    if attrs != [] {
      AttrKeepsSecond(clock, attrs[0]);
      AttrsKeepSecond(clock, attrs[1..]);
      assert ReadAttrs(clock, attrs)[1..] == ReadAttrs(clock, attrs[1..]);
    }
  }

  lemma AttrKeepsSecond(clock: Clock, a: Attr)
    ensures Second(ReadAttr(clock, a)) == ReadSecond(clock, Second(a))
  {
    ValuesSame(clock, a.values);
    if |a.values| > 1 {
      assert ReadValues(clock, a.values)[1] == Read(clock, a.values[1..][0]);
    }
  }

  lemma {:induction false} ItemsKeepSecond(clock: Clock, items: seq<Item>)
    ensures SecondOf(ReadItems(clock, items)) == ReadSecond(clock, SecondOf(items))
  {
    if items != [] {
      hide ReadAttr, ReadAttrs, SecondIn, Second;
      match items[0] {
        case Group(_, attrs) => AttrsKeepSecond(clock, attrs);
        case Bare(attr) => AttrKeepsSecond(clock, attr);
      }
      ItemsKeepSecond(clock, items[1..]);
      assert ReadItems(clock, items)[1..] == ReadItems(clock, items[1..]);
    }
  }

  /** Parsing a generated message comes to a further value exactly if the message has one. */
  lemma RequestFirst(clock: Clock, m: Msg, data: Bytes)
    requires SoundItems(m.items) && Generate(clock, m).Some?
    ensures Finds(Further(clock, Generate(clock, m).value + data), SecondOf(m.items))
  {
    hide Generate, SoundItems, ParseItems, FurtherItems, SecondOf, ReadItems;
    GeneratedIsParsed(clock, m, data);
    var s := Generate(clock, m).value + data;
    ItemsFirst(clock, s[8..]);
    ItemsKeepSecond(clock, m.items);
  }

  lemma RequestSecond(clock: Clock, m: Msg)
    ensures SecondOf(ReadMsg(clock, m).items) == ReadSecond(clock, SecondOf(m.items))
  {
    ItemsKeepSecond(clock, m.items);
  }

  /** A second value is one that could be generated. */
  ghost predicate Generated(clock: Clock, v: Option<Tagged>) {
    v.Some? ==> Field(clock, v.value).Some? && UNSUPPORTED_VALUE <= v.value.tag < 256
  }

  lemma AttrSingle(clock: Clock, a: Attr)
    requires SoundAttr(a) && GenAttr(clock, a).Some?
    ensures Second(a).None? <==> |a.values| <= 1
    ensures Generated(clock, Second(a))
  {
    hide Field;
    if |a.values| > 1 {
      assert SoundValue(a.values[1]) && a.values[1..][0] == a.values[1];
    }
  }

  lemma {:induction false} AttrsSingle(clock: Clock, attrs: seq<Attr>)
    requires SoundAttrs(attrs) && GenAttrs(clock, attrs).Some?
    ensures SecondIn(attrs).None? <==> forall j :: 0 <= j < |attrs| ==> |attrs[j].values| <= 1
    ensures Generated(clock, SecondIn(attrs))
  {
    if attrs != [] {
      hide SoundAttr, Second, GenAttr, Generated;
      AttrSingle(clock, attrs[0]);
      AttrsSingle(clock, attrs[1..]);
      assert forall j :: 0 < j < |attrs| ==> attrs[j] == attrs[1..][j - 1];
    } else {
      hide Generated;
      NoneGenerated(clock);
    }
  }

  lemma NoneGenerated(clock: Clock)
    ensures Generated(clock, None)
  {
  }

  lemma {:induction false} ItemsSingle(clock: Clock, items: seq<Item>)
    requires (forall k :: 0 <= k < |items| ==> SoundItem(items[k])) && GenItems(clock, items).Some?
    ensures SecondOf(items).None? <==> Single(items)
    ensures Generated(clock, SecondOf(items))
  {
    if items != [] {
      hide SoundAttr, SoundAttrs, Second, SecondIn, Generated, GenAttr, GenAttrs;
      assert SoundItem(items[0]);
      match items[0] {
        case Group(_, attrs) => AttrsSingle(clock, attrs);
        case Bare(attr) => AttrSingle(clock, attr);
      }
      ItemsSingle(clock, items[1..]);
      assert forall k :: 0 < k < |items| ==> items[k] == items[1..][k - 1];
    }
  }

  lemma RequestSingle(clock: Clock, m: Msg)
    requires SoundItems(m.items) && Generate(clock, m).Some?
    ensures SecondOf(m.items).None? <==> Single(m.items)
    ensures Generated(clock, SecondOf(m.items))
  {
    ItemsSingle(clock, m.items);
  }

  // ----- Values that could come out of a misreading -----

  /** Some field of 256 times the tag bytes, of which the first is zero, is parsed to the same value. */
  predicate Mistakable(v: Tagged) {
    if FixedSize(v.tag) then false
    else
      match v.value
      case Str(s) => |s| == 256 * v.tag && s != [] && s[0] == 0
      case Lang(cs, t) => |cs| < 256 && 4 + |cs| + |t| <= 256 * v.tag
      case _ => false
  }

  /** A field for a string with its language, filled up to n bytes */
  function Filled(cs: Bytes, t: Bytes, n: nat): Bytes
    requires |cs| < 0x10000 && |t| < 0x10000 && 4 + |cs| + |t| <= n
  {
    U16(|cs|) + cs + (U16(|t|) + t) + seq(n - 4 - |cs| - |t|, _ => 0)
  }

  lemma FilledRead(cs: Bytes, t: Bytes, n: nat)
    requires |cs| < 0x10000 && |t| < 0x10000 && 4 + |cs| + |t| <= n
    ensures |Filled(cs, t, n)| == n && ParseLang(Filled(cs, t, n)) == Some(Lang(cs, t))
    ensures Filled(cs, t, n)[0] == |cs| / 256
  {
    var fill := seq(n - 4 - |cs| - |t|, _ => 0);
    var f, more := Filled(cs, t, n), U16(|t|) + t + fill;
    assert f[..2] == U16(|cs|) && f[2..] == cs + more;
    assert (cs + more)[..|cs|] == cs && (cs + more)[|cs|..] == more;
    assert more[..2] == U16(|t|) && more[2..] == t + fill && (t + fill)[..|t|] == t;
    Numbers16(|cs|, U16(|cs|));
    Numbers16(|t|, U16(|t|));
  }

  /** The condition says just that, for a value that can be generated. */
  lemma MistakableMeans(clock: Clock, v: Tagged)
    requires Field(clock, v).Some? && UNSUPPORTED_VALUE <= v.tag < 256
    ensures Mistakable(v) <==> exists field :: FieldOf(clock, Read(clock, v), field)
  {
    if field :| FieldOf(clock, Read(clock, v), field) {
      if FixedSize(v.tag) {
        FixedShort(clock, v.tag, field);
      }
    }
    if Mistakable(v) {
      match v.value
      case Str(s) => assert FieldOf(clock, Read(clock, v), s);
      case Lang(cs, t) =>
        FilledRead(cs, t, 256 * v.tag);
        assert FieldOf(clock, Read(clock, v), Filled(cs, t, 256 * v.tag));
      case _ =>
    }
  }

  /** When what was found first was misread: its tag is not of fixed size, and there was enough
      input; and if it is right all the same, it could be mistaken. */
  lemma RightByMistake(clock: Clock, second: Option<Tagged>, found: Option<Tagged>, total: nat)
    requires second.Some? ==> Generated(clock, second) && Misled(clock, found, second.value.tag, total)
    ensures second.Some? ==> !FixedSize(second.value.tag) && 256 * second.value.tag <= total
    ensures second.Some? && found == ReadSecond(clock, second) ==> Mistakable(second.value)
  {
    if second.Some? {
      var field :| FieldOf(clock, found.value, field);
      if FixedSize(second.value.tag) {
        FixedShort(clock, second.value.tag, field);
      }
      MistakableMeans(clock, second.value);
    }
  }

  // ----- The HTTP header -----

  /** What is behind the first line that is empty when it has been stripped */
  function AfterHeader(s: Bytes): Option<Bytes>
    decreases |s|
  {
    var k := LineEnd(s);
    if k == |s| then None
    else if RStrip(s[..k + 1]) == [] then Some(s[k + 1..])
    else AfterHeader(s[k + 1..])
  }

  /** The loop over the lines of the header */
  method ReadHeader(h: HttpFileBuf) returns (ok: bool)
    requires h.Valid() && h.Level() && !h.chunked
    modifies h
    ensures h.Valid() && h.Level() && !h.chunked && h.Decoded() == old(h.Decoded())
    ensures h.Sound() && h.Left() == h.Rest()
    ensures old(h.Kept()) ==> h.Kept()
    ensures if ok then AfterHeader(old(h.Rest())) == Some(h.Rest())
            else !h.Reliable() || AfterHeader(old(h.Rest())).None?
  {
    hide RStrip, LineEnd, NeverFails, HttpFileBuf.Kept;
    while true
      invariant h.Valid() && h.Level() && !h.chunked && h.Decoded() == old(h.Decoded()) && (old(h.Kept()) ==> h.Kept())
      invariant AfterHeader(h.Rest()) == AfterHeader(old(h.Rest()))
      decreases |h.Rest()|
    {
      var line := h.ReadNumLine();
      if line.None? {
        return false;
      }
      if line.value == [] {
        return true;
      }
    }
  }

  // ----- Requests -----

  /** The message of a request */
  method ReadMessage(clock: Clock, h: HttpFileBuf, ghost m: Msg, ghost data: Bytes) returns (r: Option<Msg>)
    requires SoundItems(m.items) && Generate(clock, m).Some?
    requires h.Valid() && h.Sound() && h.Left() == Generate(clock, m).value + data
    modifies h
    ensures h.Valid() && h.chunked == old(h.chunked) && h.Owed() == old(h.Owed()) && (old(h.Kept()) ==> h.Kept())
    ensures (h.chunked ==> SecondOf(m.items).None?) ==>
              if r.Some? then r == Some(ReadMsg(clock, m)) && h.Sound() && h.Left() == data else !h.Reliable()
    ensures h.chunked && SecondOf(m.items).Some? && r.Some? ==>
              Misled(clock, SecondOf(r.value.items), SecondOf(m.items).value.tag, old(h.Total()))
    ensures r.Some? && !h.chunked && h.Sound() ==> 0 < h.ptr <= |h.buffer| && h.Left() == h.Rest()
  {
    hide SoundItems, Generate, Parse, Further, SecondOf, NeverFails, ReadMsg, Misled, Encode, Payload, WholeInput;
    hide HttpFileBuf.Total, HttpFileBuf.Kept, HttpFileBuf.Rest, HttpFileBuf.Framed;
    GeneratedIsParsed(clock, m, data);
    RequestFirst(clock, m, data);
    var p := new Parser(clock, Stream(h));
    r := p.ParseIpp();
  }

  /** A request whose length is known, up to the end of its document.  It is read as it should be.
      But if any of the document was buffered when the message had been read (`ahead`), then what is
      in the buffer by then, from some place before that on, is left to be read as the next
      request (`again`). */
  method PlainRequest(clock: Clock, ghost m: Msg, ghost data: Bytes, input: Bytes, length: nat, frag: nat -> nat,
                      oddSize: Bytes -> Option<nat>)
    returns (r: Option<Msg>, doc: Option<Bytes>, clean: bool, ghost ahead: Bytes, ghost again: Bytes)
    requires SoundItems(m.items) && Generate(clock, m).Some?
    requires AfterHeader(input) == Some(Generate(clock, m).value + data) && length == |Generate(clock, m).value + data|
    ensures r == Some(ReadMsg(clock, m)) || r == None
    ensures NeverFails(frag) ==> r.Some? && doc.Some?
    ensures r.Some? && doc.Some? ==> doc == Some(data) && ahead <= data && (clean <==> ahead == [])
    ensures r.Some? && doc.Some? && ahead == [] ==> again == []
    ensures r.Some? && doc.Some? && ahead != [] ==>
              |again| > |ahead| && Ending(again, ahead) && Ending(input, again + data[|ahead|..])
  {
    hide *;
    ahead, again := [], [];
    var h := new HttpFileBuf(input, frag, oddSize, [], []);
    var ok := ReadHeader(h);
    if !ok {
      return None, None, false, ahead, again;
    }
    h.SetExpected(length);
    r := ReadMessage(clock, h, m, data);
    if r.None? {
      return None, None, false, ahead, again;
    }
    doc, clean, ahead, again := ReadDocument(h, data);
  }

  /** The document, when its message has been read */
  method ReadDocument(h: HttpFileBuf, ghost data: Bytes)
    returns (doc: Option<Bytes>, clean: bool, ghost ahead: Bytes, ghost again: Bytes)
    requires h.Valid() && !h.chunked && 0 < h.ptr <= |h.buffer| && h.Owed() == 0 && h.Kept() && h.Rest() == data
    modifies h
    ensures doc.None? ==> !h.Reliable()
    ensures doc.Some? ==> doc == Some(data) && ahead <= data && (clean <==> ahead == [])
    ensures doc.Some? && ahead == [] ==> again == []
    ensures doc.Some? && ahead != [] ==>
              |again| > |ahead| && Ending(again, ahead) && Ending(h.input, again + data[|ahead|..])
  {
    hide NeverFails, Ending, HttpFileBuf.Kept;
    ahead := h.Avail();
    ghost var buffer, incoming := h.buffer, h.incoming;
    assert ahead + incoming == data && incoming[..|incoming|] == incoming;
    StillThere(h, data);
    doc := ReadPlain(h);
    assert doc.Some? ==> h.incoming == [] && buffer + [] == buffer;
    clean := h.ptr >= |h.buffer|;
    again := h.Left();
  }

  /** What the buffer holds, when what is still to be read of it starts a document */
  lemma StillThere(h: HttpFileBuf, data: Bytes)
    requires h.Kept() && 0 < h.ptr <= |h.buffer| && h.Avail() + h.incoming == data
    ensures |h.buffer| > |h.Avail()| && Ending(h.buffer, h.Avail()) && Ending(h.input, h.buffer + data[|h.Avail()|..])
  {
    assert data[|h.Avail()|..] == h.incoming;
  }

  /** A request in chunks, up to the end of its document.  A message none of whose attributes has a
      second value is read, and the document too.  Otherwise, if there is a result at all, the first
      further value in it was taken from 256 times its tag bytes.  So it is the message that was
      sent if and only if that has no second values, unless the first of them could be mistaken
      for such bytes, and the input is long enough. */
  method ChunkedRequest(clock: Clock, ghost m: Msg, ghost data: Bytes, ghost cs: seq<Chunk>, input: Bytes,
                        ghost zeros: Bytes, ghost tail: Bytes, frag: nat -> nat, oddSize: Bytes -> Option<nat>)
    returns (r: Option<Msg>, doc: Option<Bytes>)
    requires SoundItems(m.items) && Generate(clock, m).Some? && Payload(cs) == Generate(clock, m).value + data
    requires WholeInput(cs, zeros) && AfterHeader(input) == Some(Encode(cs, zeros, tail))
    ensures Single(m.items) ==>
              (r == Some(ReadMsg(clock, m)) && (doc.Some? ==> doc == Some(data))) || (r == None && doc == None)
    ensures Single(m.items) && NeverFails(frag) ==> r.Some? && doc.Some?
    ensures r.None? ==> doc.None?
    ensures SecondOf(m.items).Some? && r.Some? ==>
              Misled(clock, SecondOf(r.value.items), SecondOf(m.items).value.tag, |Encode(cs, zeros, tail)|)
    ensures SecondOf(m.items).Some? && r.Some? ==>
              !FixedSize(SecondOf(m.items).value.tag) && 256 * SecondOf(m.items).value.tag <= |Encode(cs, zeros, tail)|
    ensures NeverFails(frag) && (SecondOf(m.items).Some? && Mistakable(SecondOf(m.items).value) ==>
                                   |Encode(cs, zeros, tail)| < 256 * SecondOf(m.items).value.tag) ==>
              (r == Some(ReadMsg(clock, m)) <==> Single(m.items))
  {
    hide *;
    RequestSingle(clock, m);
    ghost var second, body := SecondOf(m.items), Encode(cs, zeros, tail);
    var h := new HttpFileBuf(input, frag, oddSize, zeros, tail);
    doc := None;
    var ok := ReadHeader(h);
    if !ok {
      return None, None;
    }
    h.SetChunked(cs);
    r := ReadMessage(clock, h, m, data);
    if r.None? {
      return;
    }
    RightByMistake(clock, second, SecondOf(r.value.items), |body|);
    RequestSecond(clock, m);
    doc := ReadAll(h);
  }

  // ----- An attribute with two values -----

  const KEYWORD: nat := 0x44

  const A := Tagged(KEYWORD, Str([97]))
  const B := Tagged(KEYWORD, Str([98]))
  const BOTH := Attr(KEYWORD, [114], [A, B])

  /** A message with the two values "a" and "b" of the attribute "r" */
  const TWO_VALUES := Msg(1, 1, 11, 1, [Group(1, [BOTH])])
  const TWO_VALUES_SENT: Bytes := [1, 1, 0, 11, 0, 0, 0, 1, 1, 68, 0, 1, 114, 0, 1, 97, 68, 0, 0, 0, 1, 98, 3]

  lemma BothSent(clock: Clock)
    ensures GenAttr(clock, BOTH) == Some([68, 0, 1, 114, 0, 1, 97, 68, 0, 0, 0, 1, 98])
  {
    assert U16(0) == [0, 0] && U16(1) == [0, 1];
    assert BOTH.values[1..] == [B] && [B][1..] == [] && GenMore(clock, []) == Some([]);
    assert GenValue(clock, [114], A).value == [68, 0, 1, 114, 0, 1, 97];
    assert GenValue(clock, [], B).value == [68, 0, 0, 0, 1, 98];
    assert GenMore(clock, [B]).value == [68, 0, 0, 0, 1, 98];
    assert GenAttr(clock, BOTH).value == [68, 0, 1, 114, 0, 1, 97, 68, 0, 0, 0, 1, 98];
  }

  lemma GroupSent(clock: Clock)
    ensures GenItem(clock, Group(1, [BOTH])) == Some([1, 68, 0, 1, 114, 0, 1, 97, 68, 0, 0, 0, 1, 98])
  {
    hide GenAttr;
    BothSent(clock);
    assert [BOTH][1..] == [] && GenAttrs(clock, []) == Some([]);
    assert GenAttrs(clock, [BOTH]).value == [68, 0, 1, 114, 0, 1, 97, 68, 0, 0, 0, 1, 98];
    assert GenItem(clock, Group(1, [BOTH])).value == [1, 68, 0, 1, 114, 0, 1, 97, 68, 0, 0, 0, 1, 98];
  }

  lemma TwoValuesSent(clock: Clock)
    ensures Generate(clock, TWO_VALUES) == Some(TWO_VALUES_SENT)
  {
    hide GenItem;
    GroupSent(clock);
    assert U16(11) == [0, 11] && U32(1) == [0, 0, 0, 1];
    assert TWO_VALUES.items[1..] == [] && GenItems(clock, []) == Some([]);
    assert GenItems(clock, TWO_VALUES.items).value == [1, 68, 0, 1, 114, 0, 1, 97, 68, 0, 0, 0, 1, 98];
    assert Header(1, 1, 11, 1).value == [1, 1, 0, 11, 0, 0, 0, 1];
    assert Generate(clock, TWO_VALUES).value == TWO_VALUES_SENT;
  }

  lemma TwoValuesRead(clock: Clock)
    ensures SoundItems(TWO_VALUES.items) && SecondOf(TWO_VALUES.items) == Some(B) && !Single(TWO_VALUES.items)
    ensures !Mistakable(B)
    ensures ReadMsg(clock, TWO_VALUES) == TWO_VALUES
  {
    ItemsSame(clock, TWO_VALUES.items);
    assert !SingleAt(TWO_VALUES.items[0]);
  }

  lemma EmptyHeader(rest: Bytes)
    ensures AfterHeader(CRLF + rest) == Some(rest)
  {
    BlankLine(rest);
  }

  /** Sent in one piece it is read; sent as one chunk it is not. */
  method TwoValuesTwice(clock: Clock, oddSize: Bytes -> Option<nat>) returns (plain: Option<Msg>, chunked: Option<Msg>)
    ensures plain == Some(TWO_VALUES) && chunked == None
  {
    hide Generate, ReadMsg, SoundItems, Single, SecondOf, Mistakable, AfterHeader;
    TwoValuesSent(clock);
    TwoValuesRead(clock);
    var frag := (i: nat) => 1024;
    var c := Chunk([49, 55], TWO_VALUES_SENT);
    var body := Encode([c], [48], []);
    EmptyHeader(TWO_VALUES_SENT);
    assert TWO_VALUES_SENT + [] == TWO_VALUES_SENT;
    EmptyHeader(body);
    var doc, clean;
    ghost var ahead, again;
    plain, doc, clean, ahead, again :=
      PlainRequest(clock, TWO_VALUES, [], CRLF + TWO_VALUES_SENT, |TWO_VALUES_SENT|, frag, oddSize);
    chunked, doc := ChunkedRequest(clock, TWO_VALUES, [], [c], CRLF + body, [48], [], frag, oddSize);
  }
}
