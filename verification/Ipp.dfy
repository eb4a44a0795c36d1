/**
 The binary encoding of IPP messages, sections 3.1 to 3.5 of RFC 8010, as cupspy/ipp.py writes
 and reads it.  An operation that raises an exception has the result None.
 */
module Ipp {
  import opened Common
  import opened FileBuf

  const UNSUPPORTED_VALUE: nat := 0x10    // the first tag that is not a delimiter
  const END_TAG: nat := 3
  const INTEGER: nat := 0x21
  const BOOLEAN: nat := 0x22
  const ENUM: nat := 0x23
  const DATE: nat := 0x31
  const RESOLUTION: nat := 0x32
  const RANGE: nat := 0x33
  const BEGIN_COLLECTION: nat := 0x34
  const TEXTLANG: nat := 0x35
  const NAMELANG: nat := 0x36

  /** The unit of a resolution: generate wants a number, and parse leaves a character. */
  datatype Unit = Code(n: nat) | Char(b: Byte)

  datatype Value =
    | Num(n: nat)
    | Time(t: int)
    | Res(x: nat, y: nat, unit: Unit)
    | Range(lo: nat, hi: nat)
    | Lang(cs: Bytes, text: Bytes)
    | Str(s: Bytes)

  /** A value with its tag */
  datatype Tagged = Tagged(tag: nat, value: Value)

  datatype Attr = Attr(tag: nat, name: Bytes, values: seq<Tagged>)

  datatype Item = Group(tag: nat, attrs: seq<Attr>) | Bare(attr: Attr)

  datatype Msg = Msg(majv: nat, minv: nat, status: nat, id: nat, items: seq<Item>)

  /** Python's conversion of times, which depends on where and when it is called */
  datatype Clock = Clock(fromTime: int -> Bytes, toTime: Bytes -> int)

  // ----- Numbers -----

  function U16(n: nat): (s: Bytes)
    requires n < 0x10000
    ensures |s| == 2
  {
    [n / 256, n % 256]
  }

  function U32(n: nat): (s: Bytes)
    requires n < 0x100000000
  {
    U16(n / 0x10000) + U16(n % 0x10000)
  }

  function Of16(s: Bytes): (n: nat)
    requires |s| == 2
    ensures n < 0x10000
  {
    s[0] as int * 256 + s[1] as int
  }

  function Of32(s: Bytes): (n: nat)
    requires |s| == 4
    ensures n < 0x100000000
  {
    Of16(s[..2]) * 0x10000 + Of16(s[2..])
  }

  lemma Numbers16(n: nat, s: Bytes)
    requires n < 0x10000 && |s| == 2
    ensures Of16(U16(n)) == n && U16(Of16(s)) == s
  {
  }

  lemma Numbers32(n: nat, s: Bytes)
    requires n < 0x100000000 && |s| == 4
    ensures Of32(U32(n)) == n && U32(Of32(s)) == s
  {
    hide U16, Of16;
    var hi, lo := n / 0x10000, n % 0x10000;
    Numbers16(hi, s[..2]);
    Numbers16(lo, s[2..]);
    assert U32(n)[..2] == U16(hi) && U32(n)[2..] == U16(lo);
    assert s == s[..2] + s[2..];
  }

  // ----- Values -----

  /** The value field (the first half of generate_value) */
  function Field(clock: Clock, tv: Tagged): Option<Bytes> {
    if tv.tag == INTEGER || tv.tag == ENUM then
      if tv.value.Num? && tv.value.n < 0x100000000 then Some(U32(tv.value.n)) else None
    else if tv.tag == BOOLEAN then
      if tv.value.Num? && tv.value.n < 256 then Some([tv.value.n]) else None
    else if tv.tag == DATE then
      if tv.value.Time? && |clock.fromTime(tv.value.t)| == 11 then Some(clock.fromTime(tv.value.t)) else None
    else if tv.tag == RESOLUTION then
      match tv.value
      case Res(x, y, Code(n)) =>
        if x < 0x100000000 && y < 0x100000000 && n < 256 then Some(U32(x) + U32(y) + [n]) else None
      case _ => None
    else if tv.tag == RANGE then
      match tv.value
      case Range(x, y) => if x < 0x100000000 && y < 0x100000000 then Some(U32(x) + U32(y)) else None
      case _ => None
    else if tv.tag == TEXTLANG || tv.tag == NAMELANG then
      match tv.value
      case Lang(cs, t) => if |cs| < 0x10000 && |t| < 0x10000 then Some(U16(|cs|) + cs + (U16(|t|) + t)) else None
      case _ => None
    else if tv.tag == BEGIN_COLLECTION then None
    else if tv.value.Str? then Some(tv.value.s)
    else None
  }

  /** generate_value */
  function GenValue(clock: Clock, name: Bytes, tv: Tagged): Option<Bytes> {
    var f := Field(clock, tv);
    if f.None? || tv.tag >= 256 || |name| >= 0x10000 || |f.value| >= 0x10000 then None
    else Some([tv.tag] + U16(|name|) + name + (U16(|f.value|) + f.value))
  }

  function AtMost(n: nat, s: Bytes): nat {
    if n < |s| then n else |s|
  }

  /** A string with its language: the code does not check that the lengths fill the field. */
  function ParseLang(field: Bytes): Option<Value> {
    if |field| < 2 then None
    else
      var f2 := field[2..];
      var csleng := AtMost(Of16(field[..2]), f2);
      var f3 := f2[csleng..];
      if |f3| < 2 then None
      else var f4 := f3[2..]; Some(Lang(f2[..csleng], f4[..AtMost(Of16(f3[..2]), f4)]))
  }

  /** parsevalue */
  function ParseValue(clock: Clock, tag: nat, field: Bytes): Option<Value> {
    if tag == INTEGER || tag == ENUM then if |field| == 4 then Some(Num(Of32(field))) else None
    else if tag == BOOLEAN then if |field| == 1 then Some(Num(field[0])) else None
    else if tag == DATE then if |field| == 11 then Some(Time(clock.toTime(field))) else None
    else if tag == RESOLUTION then
      if |field| == 9 then Some(Res(Of32(field[..4]), Of32(field[4..8]), Char(field[8]))) else None
    else if tag == RANGE then if |field| == 8 then Some(Range(Of32(field[..4]), Of32(field[4..]))) else None
    else if tag == TEXTLANG || tag == NAMELANG then ParseLang(field)
    else if tag == BEGIN_COLLECTION then None
    else Some(Str(field))
  }

  /** What parse makes of a value that was generated: the same, but for the unit of a resolution,
      and for a time that the two conversions change */
  function Read(clock: Clock, tv: Tagged): Tagged {
    match tv.value
    case Time(t) => tv.(value := Time(clock.toTime(clock.fromTime(t))))
    case Res(x, y, Code(n)) => if n < 256 then tv.(value := Res(x, y, Char(n))) else tv
    case _ => tv
  }

  lemma LangRead(cs: Bytes, t: Bytes)
    requires |cs| < 0x10000 && |t| < 0x10000
    ensures ParseLang(U16(|cs|) + cs + (U16(|t|) + t)) == Some(Lang(cs, t))
  {
    var f, more := U16(|cs|) + cs + (U16(|t|) + t), U16(|t|) + t;
    assert f[..2] == U16(|cs|) && f[2..] == cs + more;
    assert (cs + more)[..|cs|] == cs && (cs + more)[|cs|..] == more;
    assert more[..2] == U16(|t|) && more[2..] == t && t[..|t|] == t;
    Numbers16(|cs|, U16(|cs|));
    Numbers16(|t|, U16(|t|));
  }

  lemma ValueRead(clock: Clock, tv: Tagged)
    requires Field(clock, tv).Some?
    ensures ParseValue(clock, tv.tag, Field(clock, tv).value) == Some(Read(clock, tv).value)
  {
    var f := Field(clock, tv).value;
    match tv.value
    case Num(n) =>
      if n < 0x100000000 { Numbers32(n, U32(n)); }
    case Res(x, y, u) =>
      assert f[..4] == U32(x) && f[4..8] == U32(y);
      Numbers32(x, U32(x));
      Numbers32(y, U32(y));
    case Range(x, y) =>
      assert f[..4] == U32(x) && f[4..] == U32(y);
      Numbers32(x, U32(x));
      Numbers32(y, U32(y));
    case Lang(cs, t) =>
      if tv.tag == TEXTLANG || tv.tag == NAMELANG {
        LangRead(cs, t);
      }
    case _ =>
  }

  /** A field that generate would write in the same way: the lengths of a string with its language
      fill the field, it is no date that the two conversions change, and it is not a resolution. */
  predicate Canonical(clock: Clock, tag: nat, field: Bytes) {
    && tag != RESOLUTION
    && (tag == DATE ==> clock.fromTime(clock.toTime(field)) == field)
    && (tag == TEXTLANG || tag == NAMELANG ==>
          |field| >= 2 && var c := Of16(field[..2]);
          |field| >= 4 + c && |field| == 4 + c + Of16(field[2 + c..4 + c]))
  }

  /** Exactly the canonical fields come out again as they were. */
  lemma FieldWritten(clock: Clock, tag: nat, field: Bytes)
    requires ParseValue(clock, tag, field).Some? && |field| < 0x10000
    ensures Field(clock, Tagged(tag, ParseValue(clock, tag, field).value)) == Some(field) <==>
              Canonical(clock, tag, field)
  {
    if tag == INTEGER || tag == ENUM {
      Numbers32(0, field);
    } else if tag == RANGE {
      Numbers32(0, field[..4]);
      Numbers32(0, field[4..]);
      assert field == field[..4] + field[4..];
    } else if tag == TEXTLANG || tag == NAMELANG {
      LangWritten(clock, tag, field);
    } else if tag == BOOLEAN {
      assert field == [field[0]];
    }
  }

  lemma LangWritten(clock: Clock, tag: nat, field: Bytes)
    requires (tag == TEXTLANG || tag == NAMELANG) && ParseLang(field).Some? && |field| < 0x10000
    ensures Field(clock, Tagged(tag, ParseLang(field).value)) == Some(field) <==> Canonical(clock, tag, field)
  {
    hide U16, Of16;
    var v := ParseLang(field).value;
    var c, f2 := Of16(field[..2]), field[2..];
    var f3 := f2[AtMost(c, f2)..];
    assert c == |v.cs| && f3 == field[2 + c..] && f3[..2] == field[2 + c..4 + c];
    Numbers16(c, field[..2]);
    Numbers16(|v.text|, f3[..2]);
    var g := U16(|v.cs|) + v.cs + (U16(|v.text|) + v.text);
    if Canonical(clock, tag, field) {
      assert field == field[..2] + v.cs + (f3[..2] + v.text);
    }
    if g == field {
      assert |field| == 4 + c + |v.text|;
      assert g[2 + c..4 + c] == U16(|v.text|);
    }
  }

  // ----- Attributes, groups, messages -----

  /** The values of an attribute but for the first one, whose name is empty */
  function GenMore(clock: Clock, vs: seq<Tagged>): Option<Bytes> {
    if vs == [] then Some([])
    else
      var a, b := GenValue(clock, [], vs[0]), GenMore(clock, vs[1..]);
      if a.None? || b.None? then None else Some(a.value + b.value)
  }

  /** ippvalue.generate */
  function GenAttr(clock: Clock, attr: Attr): Option<Bytes> {
    if attr.values == [] then Some([])
    else
      var a, b := GenValue(clock, attr.name, attr.values[0]), GenMore(clock, attr.values[1..]);
      if a.None? || b.None? then None else Some(a.value + b.value)
  }

  function GenAttrs(clock: Clock, attrs: seq<Attr>): Option<Bytes> {
    if attrs == [] then Some([])
    else
      var a, b := GenAttr(clock, attrs[0]), GenAttrs(clock, attrs[1..]);
      if a.None? || b.None? then None else Some(a.value + b.value)
  }

  /** ippgroup.generate, or that of an attribute outside a group */
  function GenItem(clock: Clock, item: Item): Option<Bytes> {
    match item
    case Group(tag, attrs) =>
      var a := GenAttrs(clock, attrs);
      if tag >= 256 || a.None? then None else Some([tag] + a.value)
    case Bare(attr) => GenAttr(clock, attr)
  }

  function GenItems(clock: Clock, items: seq<Item>): Option<Bytes> {
    if items == [] then Some([])
    else
      var a, b := GenItem(clock, items[0]), GenItems(clock, items[1..]);
      if a.None? || b.None? then None else Some(a.value + b.value)
  }

  function Header(majv: nat, minv: nat, status: nat, id: nat): Option<Bytes> {
    if majv < 256 && minv < 256 && status < 0x10000 && id < 0x100000000
    then Some([majv, minv] + U16(status) + U32(id)) else None
  }

  /** ipp.generate */
  function Generate(clock: Clock, m: Msg): Option<Bytes> {
    var h, b := Header(m.majv, m.minv, m.status, m.id), GenItems(clock, m.items);
    if h.None? || b.None? then None else Some(h.value + (b.value + [END_TAG]))
  }

  /** Bytes with a length in front of them */
  function Counted(s: Bytes): (r: Option<(Bytes, Bytes)>)
    ensures r.Some? ==>
              |r.value.1| + |r.value.0| + 2 == |s| && |r.value.0| < 0x10000 &&
              s == U16(|r.value.0|) + (r.value.0 + r.value.1)
  {
    if |s| < 2 || |s| < 2 + Of16(s[..2]) then None
    else
      var n := Of16(s[..2]);
      assert s == s[..2] + (s[2..2 + n] + s[2 + n..]);
      Some((s[2..2 + n], s[2 + n..]))
  }

  lemma CountedBytes(f: Bytes, rest: Bytes)
    requires |f| < 0x10000
    ensures Counted(U16(|f|) + f + rest) == Some((f, rest))
  {
    var s := U16(|f|) + f + rest;
    assert s[..2] == U16(|f|) && s[2..2 + |f|] == f && s[2 + |f|..] == rest;
    Numbers16(|f|, U16(|f|));
  }

  /** A value with its length */
  function ReadValue(clock: Clock, tag: nat, s: Bytes, strict: bool): (r: Option<(Tagged, Bytes)>)
    ensures r.Some? ==> |r.value.1| < |s|
  {
    match Counted(s)
    case None => None
    case Some((f, rest)) =>
      var v := ParseValue(clock, tag, f);
      if v.None? || (strict && !Canonical(clock, tag, f)) then None else Some((Tagged(tag, v.value), rest))
  }

  /** Is the input at a further value of the same attribute?  None if it ends here */
  function AnotherValue(s: Bytes): Option<bool> {
    if s == [] then None
    else if s[0] < UNSUPPORTED_VALUE then Some(false)
    else if |s| < 3 then None
    else Some(Of16(s[1..3]) == 0)
  }

  /** The loop of parseattr.  With strict, values that are not canonical are refused; the code
      is not strict. */
  function ParseMore(clock: Clock, s: Bytes, strict: bool): (r: Option<(seq<Tagged>, Bytes)>)
    ensures r.Some? ==> |r.value.1| <= |s|
    decreases |s|
  {
    match AnotherValue(s)
    case None => None
    case Some(false) => Some(([], s))
    case Some(true) =>
      var v := ReadValue(clock, s[0], s[3..], strict);
      if v.None? then None
      else
        var r := ParseMore(clock, v.value.1, strict);
        if r.None? then None else Some(([v.value.0] + r.value.0, r.value.1))
  }

  /** parseattr */
  function ParseAttr(clock: Clock, s: Bytes, strict: bool): (r: Option<(Attr, Bytes)>)
    ensures r.Some? ==> |r.value.1| < |s|
  {
    if s == [] then None
    else
      var name := Counted(s[1..]);
      if name.None? then None
      else
        var v := ReadValue(clock, s[0], name.value.1, strict);
        if v.None? then None
        else
          var r := ParseMore(clock, v.value.1, strict);
          if r.None? then None else Some((Attr(s[0], name.value.0, [v.value.0] + r.value.0), r.value.1))
  }

  /** The loop of parsegrp */
  function ParseAttrs(clock: Clock, s: Bytes, strict: bool): (r: Option<(seq<Attr>, Bytes)>)
    ensures r.Some? ==> |r.value.1| <= |s|
    decreases |s|
  {
    if s == [] then None
    else if s[0] < UNSUPPORTED_VALUE then Some(([], s))
    else
      var a := ParseAttr(clock, s, strict);
      if a.None? then None
      else
        var r := ParseAttrs(clock, a.value.1, strict);
        if r.None? then None else Some(([a.value.0] + r.value.0, r.value.1))
  }

  /** One turn of the loop of parseipp, when the input is not at the end tag */
  function ParseItem(clock: Clock, s: Bytes, strict: bool): (r: Option<(Item, Bytes)>)
    requires s != []
    ensures r.Some? ==> |r.value.1| < |s|
  {
    if s[0] < UNSUPPORTED_VALUE then
      var r := ParseAttrs(clock, s[1..], strict);
      if r.None? then None else Some((Group(s[0], r.value.0), r.value.1))
    else
      var r := ParseAttr(clock, s, strict);
      if r.None? then None else Some((Bare(r.value.0), r.value.1))
  }

  /** The loop of parseipp */
  function ParseItems(clock: Clock, s: Bytes, strict: bool): Option<(seq<Item>, Bytes)>
    decreases |s|
  {
    if s == [] then None
    else if s[0] == END_TAG then Some(([], s[1..]))
    else
      var a := ParseItem(clock, s, strict);
      if a.None? then None
      else
        var r := ParseItems(clock, a.value.1, strict);
        if r.None? then None else Some(([a.value.0] + r.value.0, r.value.1))
  }

  /** parseipp, and parse: the message, and what is left of the input */
  function Parse(clock: Clock, s: Bytes, strict: bool): Option<(Msg, Bytes)> {
    if |s| < 8 then None
    else
      var r := ParseItems(clock, s[8..], strict);
      if r.None? then None
      else Some((Msg(s[0], s[1], Of16(s[2..4]), Of32(s[4..8]), r.value.0), r.value.1))
  }

  lemma HeaderRead(s: Bytes)
    requires |s| >= 8
    ensures s[..8][2..4] == s[2..4] && s[..8][4..8] == s[4..8]
  {
  }

  // ----- The first further value -----

  /** The tag of the further value that the loop of parseattr starts with; 0 if it has no turns */
  function FurtherMore(s: Bytes): (tag: nat)
    ensures tag != 0 <==> AnotherValue(s) == Some(true)
  {
    if AnotherValue(s) == Some(true) then s[0] else 0
  }

  /** The tag of the first further value that parsing an attribute comes to; 0 if it comes to none */
  function FurtherAttr(clock: Clock, s: Bytes): nat {
    if s == [] then 0
    else
      var name := Counted(s[1..]);
      if name.None? then 0
      else
        var v := ReadValue(clock, s[0], name.value.1, false);
        if v.None? then 0 else FurtherMore(v.value.1)
  }

  /** The same for the attributes of a group */
  function FurtherAttrs(clock: Clock, s: Bytes): nat
    decreases |s|
  {
    if s == [] || s[0] < UNSUPPORTED_VALUE then 0
    else if FurtherAttr(clock, s) != 0 then FurtherAttr(clock, s)
    else
      var a := ParseAttr(clock, s, false);
      if a.None? then 0 else FurtherAttrs(clock, a.value.1)
  }

  function FurtherItem(clock: Clock, s: Bytes): nat
    requires s != []
  {
    if s[0] < UNSUPPORTED_VALUE then FurtherAttrs(clock, s[1..]) else FurtherAttr(clock, s)
  }

  /** For the groups and attributes of a message */
  function FurtherItems(clock: Clock, s: Bytes): nat
    decreases |s|
  {
    if s == [] || s[0] == END_TAG then 0
    else if FurtherItem(clock, s) != 0 then FurtherItem(clock, s)
    else
      var a := ParseItem(clock, s, false);
      if a.None? then 0 else FurtherItems(clock, a.value.1)
  }

  /** For a message */
  function Further(clock: Clock, s: Bytes): nat {
    if |s| < 8 then 0 else FurtherItems(clock, s[8..])
  }

  /** The second value of an attribute, if it has one */
  function Second(a: Attr): Option<Tagged> {
    if |a.values| > 1 then Some(a.values[1]) else None
  }

  /** The first value that is not the first one of its attribute */
  function SecondIn(attrs: seq<Attr>): Option<Tagged> {
    if attrs == [] then None else if Second(attrs[0]).Some? then Second(attrs[0]) else SecondIn(attrs[1..])
  }

  function SecondAt(item: Item): Option<Tagged> {
    match item
    case Group(_, attrs) => SecondIn(attrs)
    case Bare(attr) => Second(attr)
  }

  function SecondOf(items: seq<Item>): Option<Tagged> {
    if items == [] then None else if SecondAt(items[0]).Some? then SecondAt(items[0]) else SecondOf(items[1..])
  }

  /** Its tag; 0 if there is none */
  function TagOf(v: Option<Tagged>): nat {
    if v.Some? then v.value.tag else 0
  }

  /** What parsing comes to is what it finds. */
  ghost predicate Finds(further: nat, found: Option<Tagged>) {
    further == TagOf(found) && (found.Some? ==> further != 0)
  }

  lemma {:induction false} SecondInMore(attrs: seq<Attr>, a: Attr)
    ensures SecondIn(attrs + [a]) == if SecondIn(attrs).Some? then SecondIn(attrs) else Second(a)
  {
    if attrs == [] {
      assert [] + [a] == [a];
    } else {
      assert (attrs + [a])[1..] == attrs[1..] + [a];
      SecondInMore(attrs[1..], a);
    }
  }

  lemma {:induction false} SecondOfMore(items: seq<Item>, item: Item)
    ensures SecondOf(items + [item]) == if SecondOf(items).Some? then SecondOf(items) else SecondAt(item)
  {
    hide SecondAt;
    if items == [] {
      assert [] + [item] == [item];
    } else {
      assert (items + [item])[1..] == items[1..] + [item];
      SecondOfMore(items[1..], item);
    }
  }

  lemma ReadTag(clock: Clock, tag: nat, s: Bytes)
    requires ReadValue(clock, tag, s, false).Some?
    ensures ReadValue(clock, tag, s, false).value.0.tag == tag
  {
  }

  lemma AttrFirst(clock: Clock, s: Bytes)
    requires ParseAttr(clock, s, false).Some?
    ensures Finds(FurtherAttr(clock, s), Second(ParseAttr(clock, s, false).value.0))
  {
    hide ReadValue, Counted;
    var name, s1 := Counted(s[1..]).value.0, Counted(s[1..]).value.1;
    var s2 := ReadValue(clock, s[0], s1, false).value.1;
    if AnotherValue(s2) == Some(true) {
      ReadTag(clock, s2[0], s2[3..]);
    }
  }

  lemma {:induction false} AttrsFirst(clock: Clock, s: Bytes)
    requires ParseAttrs(clock, s, false).Some?
    ensures Finds(FurtherAttrs(clock, s), SecondIn(ParseAttrs(clock, s, false).value.0))
    decreases |s|
  {
    hide ParseAttr, FurtherAttr, Second;
    if s[0] >= UNSUPPORTED_VALUE {
      var s1 := ParseAttr(clock, s, false).value.1;
      AttrFirst(clock, s);
      AttrsFirst(clock, s1);
      assert ParseAttrs(clock, s, false).value.0[1..] == ParseAttrs(clock, s1, false).value.0;
    }
  }

  lemma ItemFirst(clock: Clock, s: Bytes)
    requires s != [] && ParseItem(clock, s, false).Some?
    ensures Finds(FurtherItem(clock, s), SecondAt(ParseItem(clock, s, false).value.0))
  {
    hide ParseAttr, FurtherAttr, ParseAttrs, FurtherAttrs, Second, SecondIn;
    if s[0] < UNSUPPORTED_VALUE {
      AttrsFirst(clock, s[1..]);
    } else {
      AttrFirst(clock, s);
    }
  }

  lemma {:induction false} ItemsFirst(clock: Clock, s: Bytes)
    requires ParseItems(clock, s, false).Some?
    ensures Finds(FurtherItems(clock, s), SecondOf(ParseItems(clock, s, false).value.0))
    decreases |s|
  {
    hide ParseItem, FurtherItem, SecondAt;
    if s[0] != END_TAG {
      var s1 := ParseItem(clock, s, false).value.1;
      ItemFirst(clock, s);
      ItemsFirst(clock, s1);
      assert ParseItems(clock, s, false).value.0[1..] == ParseItems(clock, s1, false).value.0;
    }
  }

  // ----- Misread values -----

  /** A value parsed from 256 times its tag bytes, no more than `total`, the first of them zero */
  ghost predicate Misread(clock: Clock, v: Tagged, total: nat) {
    && 256 * v.tag <= total
    && exists field: Bytes :: FieldOf(clock, v, field)
  }

  ghost predicate FieldOf(clock: Clock, v: Tagged, field: Bytes) {
    |field| == 256 * v.tag && field != [] && field[0] == 0 && ParseValue(clock, v.tag, field) == Some(v.value)
  }

  /** What was found first was misread, and has this tag. */
  ghost predicate Misled(clock: Clock, found: Option<Tagged>, tag: nat, total: nat) {
    found.Some? && found.value.tag == tag && Misread(clock, found.value, total)
  }

  lemma MisledMore(clock: Clock, found: Option<Tagged>, tag: nat, total: nat, total': nat)
    requires total <= total'
    ensures Misled(clock, found, tag, total) ==> Misled(clock, found, tag, total')
  {
  }

  /** No value with this tag is longer than 11 bytes. */
  predicate FixedSize(tag: nat) {
    tag == INTEGER || tag == ENUM || tag == BOOLEAN || tag == DATE || tag == RESOLUTION || tag == RANGE ||
      tag == BEGIN_COLLECTION
  }

  lemma FixedShort(clock: Clock, tag: nat, field: Bytes)
    requires ParseValue(clock, tag, field).Some? && FixedSize(tag)
    ensures |field| <= 11
  {
  }

  // ----- The programs -----

  function Prepend<T>(xs: seq<T>, r: Option<(seq<T>, Bytes)>): Option<(seq<T>, Bytes)> {
    match r
    case None => None
    case Some((ys, rest)) => Some((xs + ys, rest))
  }

  lemma PrependOne<T>(xs: seq<T>, x: T, r: Option<(seq<T>, Bytes)>)
    ensures Prepend(xs, Prepend([x], r)) == Prepend(xs + [x], r)
  {
    match r
    case None =>
    case Some((ys, _)) => assert xs + ([x] + ys) == xs + [x] + ys;
  }

  lemma PrependNone<T>(r: Option<(seq<T>, Bytes)>)
    ensures Prepend([], r) == r
  {
    match r
    case None =>
    case Some((ys, _)) => assert [] + ys == ys;
  }

  /** The result so far, and what the rest of a loop adds to it */
  function Joined(result: Bytes, more: Option<Bytes>): Option<Bytes> {
    if more.None? then None else Some(result + more.value)
  }

  lemma JoinedStep(result: Bytes, a: Bytes, more: Option<Bytes>)
    ensures Joined(result, Joined(a, more)) == Joined(result + a, more)
    ensures Joined([], more) == more
  {
    if more.Some? {
      assert result + (a + more.value) == (result + a) + more.value;
      assert [] + more.value == more.value;
    }
  }

  /** ippvalue.generate: only the first value carries the name. */
  method GenerateAttr(clock: Clock, attr: Attr) returns (r: Option<Bytes>)
    ensures r == GenAttr(clock, attr)
  {
    hide GenValue;
    var name, result, k := attr.name, [], 0;
    JoinedStep([], [], GenAttr(clock, attr));
    while k < |attr.values|
      invariant k <= |attr.values| && name == if k == 0 then attr.name else []
      invariant GenAttr(clock, attr) ==
                Joined(result, if k == 0 then GenAttr(clock, attr) else GenMore(clock, attr.values[k..]))
    {
      var v := GenValue(clock, name, attr.values[k]);
      assert attr.values[k..][1..] == attr.values[k + 1..];
      if v.None? {
        return None;
      }
      JoinedStep(result, v.value, GenMore(clock, attr.values[k + 1..]));
      result := result + v.value;
      name := [];
      k := k + 1;
    }
    assert result + [] == result;
    r := Some(result);
  }

  /** The loop of ippgroup.generate */
  method GenerateAttrs(clock: Clock, attrs: seq<Attr>) returns (r: Option<Bytes>)
    ensures r == GenAttrs(clock, attrs)
  {
    hide GenAttr;
    var result, k := [], 0;
    JoinedStep([], [], GenAttrs(clock, attrs));
    assert attrs[0..] == attrs;
    while k < |attrs|
      invariant k <= |attrs| && GenAttrs(clock, attrs) == Joined(result, GenAttrs(clock, attrs[k..]))
    {
      var a := GenerateAttr(clock, attrs[k]);
      assert attrs[k..][1..] == attrs[k + 1..];
      if a.None? {
        return None;
      }
      JoinedStep(result, a.value, GenAttrs(clock, attrs[k + 1..]));
      result := result + a.value;
      k := k + 1;
    }
    assert result + [] == result;
    r := Some(result);
  }

  method GenerateItem(clock: Clock, item: Item) returns (r: Option<Bytes>)
    ensures r == GenItem(clock, item)
  {
    match item
    case Group(tag, attrs) =>
      var a := GenerateAttrs(clock, attrs);
      r := if tag >= 256 || a.None? then None else Some([tag] + a.value);
    case Bare(attr) => r := GenerateAttr(clock, attr);
  }

  /** ipp.generate */
  method GenerateIpp(clock: Clock, m: Msg) returns (r: Option<Bytes>)
    ensures r == Generate(clock, m)
  {
    hide GenItem;
    var h := Header(m.majv, m.minv, m.status, m.id);
    if h.None? {
      return None;
    }
    var result, k := h.value, 0;
    assert m.items[0..] == m.items;
    while k < |m.items|
      invariant k <= |m.items| &&
                Joined(h.value, GenItems(clock, m.items)) == Joined(result, GenItems(clock, m.items[k..]))
    {
      var a := GenerateItem(clock, m.items[k]);
      assert m.items[k..][1..] == m.items[k + 1..];
      if a.None? {
        return None;
      }
      JoinedStep(result, a.value, GenItems(clock, m.items[k + 1..]));
      result := result + a.value;
      k := k + 1;
    }
    assert result + [] == result;
    ghost var b := GenItems(clock, m.items);
    assert b.Some? ==> h.value + (b.value + [END_TAG]) == (h.value + b.value) + [END_TAG];
    r := Some(result + [END_TAG]);
  }

  /** The parse methods of the class ipp */
  class Parser {
    const clock: Clock
    const filb: Buf

    constructor (clock: Clock, filb: Buf)
      ensures this.clock == clock && this.filb == filb
    {
      this.clock, this.filb := clock, filb;
    }

    /** The input is read as it should be: it is well formed, and if it is chunked there is no
        further value of an attribute on the way. */
    ghost predicate Straight(further: nat)
      reads filb.Objects()
    {
      filb.Sound() && (filb.Chunked() ==> further == 0)
    }

    /** On a chunked input there is a further value on the way. */
    ghost predicate Astray(further: nat)
      reads filb.Objects()
    {
      filb.Sound() && filb.Chunked() && further != 0
    }

    /** The result is what parsing should give, and what is left too; or the poll has failed, or
        parsing should fail as well. */
    ghost predicate Right<T>(parsed: Option<(T, Bytes)>, r: Option<T>)
      reads filb.Objects()
      requires filb.Valid()
    {
      if r.Some? then filb.Sound() && parsed == Some((r.value, filb.Left()))
      else !filb.Reliable() || parsed.None?
    }

    /** A length of two bytes, and that many bytes */
    method GetCounted() returns (r: Option<Bytes>)
      requires filb.Valid()
      modifies filb.Objects()
      ensures filb.Valid() && filb.OnTrack()
      ensures filb.Total() + (if r.Some? then 2 + |r.value| else 0) <= old(filb.Total())
      ensures old(filb.Sound()) ==> Right(Counted(old(filb.Left())), r)
      ensures r.Some? && old(filb.Buffered(2)) ==> |r.value| == Of16(old(filb.Ahead())[..2])
      ensures r.Some? && r.value != [] && old(filb.Buffered(3)) ==> r.value[0] == old(filb.Ahead())[2]
    {
      var n := filb.Do(Get(2));
      if n.None? {
        return None;
      }
      r := filb.Do(Get(Of16(n.value)));
    }

    /** The length of a value, and the value (parsevalue) */
    method GetValue(tag: nat) returns (r: Option<Tagged>, ghost field: Bytes)
      requires filb.Valid()
      modifies filb.Objects()
      ensures filb.Valid() && filb.OnTrack()
      ensures filb.Total() + (if r.Some? then 2 + |field| else 0) <= old(filb.Total())
      ensures old(filb.Sound()) ==> Right(ReadValue(clock, tag, old(filb.Left()), false), r)
      ensures r.Some? ==> r.value.tag == tag && ParseValue(clock, tag, field) == Some(r.value.value)
      ensures r.Some? && old(filb.Buffered(2)) ==> |field| == Of16(old(filb.Ahead())[..2])
      ensures r.Some? && field != [] && old(filb.Buffered(3)) ==> field[0] == old(filb.Ahead())[2]
    {
      var f := GetCounted();
      field := if f.Some? then f.value else [];
      if f.None? {
        return None, field;
      }
      var v := ParseValue(clock, tag, f.value);
      r := if v.None? then None else Some(Tagged(tag, v.value));
    }

    /** Is there a further value?  The condition, and the break, of the loop of parseattr */
    method AtAnother() returns (r: Option<bool>, newtag: Byte)
      requires filb.Valid()
      modifies filb.Objects()
      ensures filb.Valid() && filb.OnTrack() && filb.Total() <= old(filb.Total())
      ensures old(filb.Sound()) && r.Some? ==>
                filb.Sound() && filb.Left() == old(filb.Left()) && AnotherValue(filb.Left()) == r
      ensures old(filb.Sound()) && r == Some(true) ==> filb.Left()[0] == newtag
      ensures old(filb.Sound()) && r.None? ==> !filb.Reliable() || AnotherValue(old(filb.Left())).None?
      ensures r == Some(true) ==> filb.Buffered(3) && [newtag, 0, 0] <= filb.Ahead()
    {
      hide Buf.Valid, Buf.Chunked, Buf.Sound, Buf.Reliable, Buf.Left, Buf.Total, Buf.Ahead, Buf.Buffered, Buf.Owed,
           Buf.Moved, Buf.Kept;
      newtag := 0;
      var ch := filb.Do(Peek(1));
      if ch.None? {
        return None, newtag;
      }
      if ch.value[0] < UNSUPPORTED_VALUE {
        return Some(false), newtag;
      }
      var head := filb.Do(Peek(3));
      if head.None? {
        return None, newtag;
      }
      newtag := head.value[0];
      r := Some(Of16(head.value[1..]) == 0);
    }

    /** A further value, behind its tag and the length of its empty name.  On a chunked input, where
        skip does not move on, the tag and a zero are read as the length of the value. */
    method GetFurther(newtag: Byte) returns (r: Option<Tagged>, ghost field: Bytes)
      requires filb.Valid() && filb.Buffered(3) && [newtag, 0, 0] <= filb.Ahead()
      modifies filb.Objects()
      ensures filb.Valid() && filb.OnTrack()
      ensures filb.Total() + (if r.Some? then 2 + |field| else 0) <= old(filb.Total())
      ensures !filb.Chunked() && old(filb.Sound()) ==> Right(ReadValue(clock, newtag, old(filb.Left())[3..], false), r)
      ensures r.Some? ==> r.value.tag == newtag && ParseValue(clock, newtag, field) == Some(r.value.value)
      ensures r.Some? && filb.Chunked() ==> |field| == 256 * newtag && (field != [] ==> field[0] == 0)
    {
      filb.Skip(3);
      r, field := GetValue(newtag);
    }

    /** The loop of parseattr */
    method GetMore(first: Tagged) returns (values: Option<seq<Tagged>>)
      requires filb.Valid()
      modifies filb.Objects()
      ensures filb.Valid() && filb.OnTrack() && filb.Total() <= old(filb.Total())
      ensures old(Straight(FurtherMore(filb.Left()))) ==>
                Right(Prepend([first], ParseMore(clock, old(filb.Left()), false)), values)
      ensures old(Astray(FurtherMore(filb.Left()))) && values.Some? ==>
                |values.value| > 1 &&
                  Misled(clock, Some(values.value[1]), FurtherMore(old(filb.Left())), old(filb.Total()))
    {
      hide ReadValue, AnotherValue, ParseValue, Answer;
      hide Buf.Valid, Buf.Chunked, Buf.Sound, Buf.Reliable, Buf.Left, Buf.Total, Buf.Ahead, Buf.Buffered, Buf.Owed,
           Buf.Moved, Buf.Kept;
      var vs := [first];
      ghost var all := Prepend([first], ParseMore(clock, filb.Left(), false));
      ghost var further, total := FurtherMore(filb.Left()), filb.Total();
      ghost var straight, astray := Straight(further), Astray(further);
      while true
        invariant filb.Valid() && filb.OnTrack() && filb.Total() <= old(filb.Total())
        invariant straight ==>
                    Straight(FurtherMore(filb.Left())) && Prepend(vs, ParseMore(clock, filb.Left(), false)) == all
        invariant |vs| == 1 ==> vs == [first]
        invariant vs != [] && (astray && |vs| == 1 ==> Astray(further) && FurtherMore(filb.Left()) == further)
        invariant astray && |vs| > 1 ==> Misled(clock, Some(vs[1]), further, total)
        decreases filb.Total()
      {
        var another, newtag := AtAnother();
        if another.None? {
          return None;
        }
        if !another.value {
          assert vs + [] == vs;
          return Some(vs);
        }
        var v, field := GetFurther(newtag);
        if v.None? {
          return None;
        }
        if astray && |vs| == 1 {
          assert FieldOf(clock, v.value, field);
        }
        PrependOne(vs, v.value, ParseMore(clock, filb.Left(), false));
        vs := vs + [v.value];
      }
    }

    /** parseattr */
    method GetAttr() returns (r: Option<Attr>)
      requires filb.Valid()
      modifies filb.Objects()
      ensures filb.Valid() && filb.OnTrack()
      ensures filb.Total() + (if r.Some? then 1 else 0) <= old(filb.Total())
      ensures old(Straight(FurtherAttr(clock, filb.Left()))) ==> Right(ParseAttr(clock, old(filb.Left()), false), r)
      ensures old(Astray(FurtherAttr(clock, filb.Left()))) && r.Some? ==>
                Misled(clock, Second(r.value), FurtherAttr(clock, old(filb.Left())), old(filb.Total()))
    {
      hide ReadValue, Counted, ParseMore, FurtherMore, ParseValue, Misread;
      hide Buf.Valid, Buf.Chunked, Buf.Sound, Buf.Reliable, Buf.Left, Buf.Total, Buf.Ahead, Buf.Buffered, Buf.Owed,
           Buf.Moved, Buf.Kept;
      ghost var total := filb.Total();
      var tag := filb.Do(Get(1));
      if tag.None? {
        return None;
      }
      var name := GetCounted();
      if name.None? {
        return None;
      }
      var v, field := GetValue(tag.value[0]);
      if v.None? {
        return None;
      }
      ghost var more, left := FurtherMore(filb.Left()), filb.Total();
      var values := GetMore(v.value);
      if values.Some? && |values.value| > 1 {
        MisledMore(clock, Some(values.value[1]), more, left, total);
      }
      r := if values.None? then None else Some(Attr(tag.value[0], name.value, values.value));
    }

    /** parsegrp */
    method GetAttrs() returns (r: Option<seq<Attr>>)
      requires filb.Valid()
      modifies filb.Objects()
      ensures filb.Valid() && filb.OnTrack() && filb.Total() <= old(filb.Total())
      ensures old(Straight(FurtherAttrs(clock, filb.Left()))) ==> Right(ParseAttrs(clock, old(filb.Left()), false), r)
      ensures old(Astray(FurtherAttrs(clock, filb.Left()))) && r.Some? ==>
                Misled(clock, SecondIn(r.value), FurtherAttrs(clock, old(filb.Left())), old(filb.Total()))
    {
      hide ParseAttr, FurtherAttr, Second, Misread;
      hide Buf.Valid, Buf.Chunked, Buf.Sound, Buf.Reliable, Buf.Left, Buf.Total, Buf.Ahead, Buf.Buffered, Buf.Owed,
           Buf.Moved, Buf.Kept;
      var attrs: seq<Attr> := [];
      PrependNone(ParseAttrs(clock, filb.Left(), false));
      ghost var all := ParseAttrs(clock, filb.Left(), false);
      ghost var further, total := FurtherAttrs(clock, filb.Left()), filb.Total();
      ghost var straight, astray := Straight(further), Astray(further);
      while true
        invariant filb.Valid() && filb.OnTrack() && filb.Total() <= old(filb.Total())
        invariant straight ==>
                    Straight(FurtherAttrs(clock, filb.Left())) &&
                    Prepend(attrs, ParseAttrs(clock, filb.Left(), false)) == all
        invariant astray ==>
                    || Misled(clock, SecondIn(attrs), further, total)
                    || (SecondIn(attrs).None? && Astray(further) && FurtherAttrs(clock, filb.Left()) == further)
        decreases filb.Total()
      {
        var ch := filb.Do(Peek(1));
        if ch.None? {
          return None;
        }
        if ch.value[0] < UNSUPPORTED_VALUE {
          assert attrs + [] == attrs;
          return Some(attrs);
        }
        ghost var s, left := filb.Left(), filb.Total();
        var a := GetAttr();
        if a.None? {
          return None;
        }
        MisledMore(clock, Second(a.value), further, left, total);
        PrependOne(attrs, a.value, ParseAttrs(clock, filb.Left(), false));
        SecondInMore(attrs, a.value);
        if ParseAttr(clock, s, false).Some? {
          AttrFirst(clock, s);
        }
        attrs := attrs + [a.value];
      }
    }

    /** parseipp, and parse */
    method ParseIpp() returns (r: Option<Msg>)
      requires filb.Valid()
      modifies filb.Objects()
      ensures filb.Valid() && filb.OnTrack()
      ensures old(Straight(Further(clock, filb.Left()))) ==> Right(Parse(clock, old(filb.Left()), false), r)
      ensures old(Astray(Further(clock, filb.Left()))) && r.Some? ==>
                Misled(clock, SecondOf(r.value.items), Further(clock, old(filb.Left())), old(filb.Total()))
      ensures r.Some? ==> filb.Moved()
    {
      hide ParseItems, FurtherItems;
      hide Buf.Valid, Buf.Chunked, Buf.Sound, Buf.Reliable, Buf.Left, Buf.Total, Buf.Ahead, Buf.Buffered, Buf.Owed,
           Buf.Moved, Buf.Kept;
      ghost var s := filb.Left();
      var hdr := filb.Do(Get(8));
      if hdr.None? {
        return None;
      }
      if |s| >= 8 {
        HeaderRead(s);
      }
      var items := GetItems();
      r := if items.None? then None
           else Some(Msg(hdr.value[0], hdr.value[1], Of16(hdr.value[2..4]), Of32(hdr.value[4..8]), items.value));
    }

    /** One turn of the loop of parseipp: a group or an attribute, or nothing behind the end tag */
    method GetItem() returns (r: Option<Option<Item>>)
      requires filb.Valid()
      modifies filb.Objects()
      ensures filb.Valid() && filb.OnTrack()
      ensures filb.Total() + (if r.Some? then 1 else 0) <= old(filb.Total())
      ensures old(filb.Sound() && filb.Left() != [] && filb.Left()[0] == END_TAG) ==>
                if r.Some? then r == Some(None) && filb.Sound() && filb.Left() == old(filb.Left())[1..]
                else !filb.Reliable()
      ensures old(filb.Sound() && filb.Left() == []) ==> r.None?
      ensures old(filb.Left() != [] && filb.Left()[0] != END_TAG && Straight(FurtherItem(clock, filb.Left()))) ==>
                r != Some(None) && Right(ParseItem(clock, old(filb.Left()), false), if r.Some? then r.value else None)
      ensures old(filb.Left() != [] && filb.Left()[0] != END_TAG && Astray(FurtherItem(clock, filb.Left()))) ==>
                r != Some(None) &&
                (r.Some? ==>
                    Misled(clock, SecondAt(r.value.value), FurtherItem(clock, old(filb.Left())), old(filb.Total())))
      ensures r == Some(None) ==> filb.Moved()
    {
      hide ParseAttr, ParseAttrs, FurtherAttr, FurtherAttrs, Second, SecondIn, Misled;
      hide Buf.Valid, Buf.Chunked, Buf.Sound, Buf.Reliable, Buf.Left, Buf.Total, Buf.Ahead, Buf.Buffered, Buf.Owed,
           Buf.Moved, Buf.Kept;
      ghost var left := filb.Total();
      var ch := filb.Do(Peek(1));
      if ch.None? {
        return None;
      }
      if ch.value[0] < UNSUPPORTED_VALUE {
        var grptag := filb.Do(Get(1));
        if grptag.None? {
          return None;
        }
        if grptag.value[0] == END_TAG {
          return Some(None);
        }
        ghost var further, less := FurtherAttrs(clock, filb.Left()), filb.Total();
        var attrs := GetAttrs();
        if attrs.Some? {
          MisledMore(clock, SecondIn(attrs.value), further, less, left);
        }
        r := if attrs.None? then None else Some(Some(Group(grptag.value[0], attrs.value)));
      } else {
        ghost var further, less := FurtherAttr(clock, filb.Left()), filb.Total();
        var attr := GetAttr();
        if attr.Some? {
          MisledMore(clock, Second(attr.value), further, less, left);
        }
        r := if attr.None? then None else Some(Some(Bare(attr.value)));
      }
    }

    /** The loop of parseipp */
    method GetItems() returns (r: Option<seq<Item>>)
      requires filb.Valid()
      modifies filb.Objects()
      ensures filb.Valid() && filb.OnTrack() && filb.Total() <= old(filb.Total())
      ensures old(Straight(FurtherItems(clock, filb.Left()))) ==> Right(ParseItems(clock, old(filb.Left()), false), r)
      ensures old(Astray(FurtherItems(clock, filb.Left()))) && r.Some? ==>
                Misled(clock, SecondOf(r.value), FurtherItems(clock, old(filb.Left())), old(filb.Total()))
      ensures r.Some? ==> filb.Moved()
    {
      hide ParseItem, FurtherItem, SecondAt, Misread;
      hide Buf.Valid, Buf.Chunked, Buf.Sound, Buf.Reliable, Buf.Left, Buf.Total, Buf.Ahead, Buf.Buffered, Buf.Owed,
           Buf.Moved, Buf.Kept;
      var items: seq<Item> := [];
      PrependNone(ParseItems(clock, filb.Left(), false));
      ghost var all := ParseItems(clock, filb.Left(), false);
      ghost var further, total := FurtherItems(clock, filb.Left()), filb.Total();
      ghost var straight, astray := Straight(further), Astray(further);
      while true
        invariant filb.Valid() && filb.OnTrack() && filb.Total() <= old(filb.Total())
        invariant straight ==>
                    Straight(FurtherItems(clock, filb.Left())) &&
                    Prepend(items, ParseItems(clock, filb.Left(), false)) == all
        invariant astray ==>
                    || Misled(clock, SecondOf(items), further, total)
                    || (SecondOf(items).None? && Astray(further) && FurtherItems(clock, filb.Left()) == further)
        decreases filb.Total()
      {
        ghost var s, left := filb.Left(), filb.Total();
        var item := GetItem();
        if item.None? {
          return None;
        }
        if item.value.None? {
          assert items + [] == items;
          return Some(items);
        }
        MisledMore(clock, SecondAt(item.value.value), further, left, total);
        PrependOne(items, item.value.value, ParseItems(clock, filb.Left(), false));
        SecondOfMore(items, item.value.value);
        if s != [] && ParseItem(clock, s, false).Some? {
          ItemFirst(clock, s);
        }
        items := items + [item.value.value];
      }
    }
  }
}
