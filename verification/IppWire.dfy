/**
 Where each part of a message stands in its bytes: the layout of sections 3.1 to 3.9 of RFC 8010, with
 the tags by their numbers.
 */
module IppWire {
  import opened Common
  import opened FileBuf
  import opened Ipp

  /** The number that the bytes stand for, the most significant byte first */
  function BigEndian(s: Bytes): nat {
    if s == [] then 0 else BigEndian(s[..|s| - 1]) * 256 + s[|s| - 1]
  }

  lemma BigEndian2(s: Bytes)
    requires |s| == 2
    ensures BigEndian(s) == s[0] as int * 256 + s[1]
  {
    assert s[..1] == [s[0]] && BigEndian([s[0]]) == BigEndian([]) * 256 + s[0];
  }

  lemma BigEndian4(s: Bytes)
    requires |s| == 4
    ensures BigEndian(s) == ((s[0] as int * 256 + s[1]) * 256 + s[2]) * 256 + s[3]
  {
    assert s[..3][..2] == s[..2];
    BigEndian2(s[..2]);
    assert BigEndian(s[..3]) == BigEndian(s[..3][..2]) * 256 + s[2];
  }

  lemma Number16(n: nat)
    requires n < 0x10000
    ensures |U16(n)| == 2 && BigEndian(U16(n)) == n
  {
    BigEndian2(U16(n));
  }

  lemma Number32(n: nat)
    requires n < 0x100000000
    ensures |U32(n)| == 4 && BigEndian(U32(n)) == n
  {
    BigEndian4(U32(n));
    assert U32(n) == [n / 0x10000 / 256, n / 0x10000 % 256, n % 0x10000 / 256, n % 0x10000 % 256];
  }

  lemma Read16(s: Bytes)
    requires |s| == 2
    ensures Of16(s) == BigEndian(s)
  {
    BigEndian2(s);
  }

  lemma Read32(s: Bytes)
    requires |s| == 4
    ensures Of32(s) == BigEndian(s)
  {
    BigEndian4(s);
  }

  /** The field f is right for a value of this tag. */
  ghost predicate IsField(clock: Clock, tag: nat, v: Value, f: Bytes) {
    match tag
    case 0x21 | 0x23 => v.Num? && |f| == 4 && BigEndian(f) == v.n
    case 0x22 => v.Num? && |f| == 1 && f[0] == v.n
    case 0x31 => v.Time? && |f| == 11 && f == clock.fromTime(v.t)
    case 0x32 =>
      v.Res? && v.unit.Code? && |f| == 9 && BigEndian(f[..4]) == v.x && BigEndian(f[4..8]) == v.y && f[8] == v.unit.n
    case 0x33 => v.Range? && |f| == 8 && BigEndian(f[..4]) == v.lo && BigEndian(f[4..]) == v.hi
    case 0x34 => false
    case 0x35 | 0x36 =>
      v.Lang? && |f| == 4 + |v.cs| + |v.text| && BigEndian(f[..2]) == |v.cs| && f[2..2 + |v.cs|] == v.cs &&
      BigEndian(f[2 + |v.cs|..4 + |v.cs|]) == |v.text| && f[4 + |v.cs|..] == v.text
    case _ => v.Str? && f == v.s
  }

  /** generate_value writes that very field. */
  lemma FieldIs(clock: Clock, tv: Tagged)
    requires Field(clock, tv).Some?
    ensures IsField(clock, tv.tag, tv.value, Field(clock, tv).value)
  {
    hide U16, U32, BigEndian;
    var f := Field(clock, tv).value;
    match tv.value
    case Num(n) =>
      if n < 0x100000000 { Number32(n); }
    case Res(x, y, _) =>
      if tv.tag == RESOLUTION { TwoNumbers(x, y, f); }
    case Range(x, y) =>
      if tv.tag == RANGE { TwoNumbers(x, y, f); }
    case Lang(cs, t) =>
      if tv.tag == TEXTLANG || tv.tag == NAMELANG { TwoStrings(cs, t); }
    case _ =>
  }

  lemma TwoNumbers(x: nat, y: nat, f: Bytes)
    requires x < 0x100000000 && y < 0x100000000 && U32(x) + U32(y) <= f
    ensures |U32(x)| == |U32(y)| == 4 && |f| >= 8
    ensures BigEndian(f[..4]) == x && BigEndian(f[4..8]) == y && (|f| == 8 ==> f[4..] == f[4..8])
  {
    hide U32, BigEndian;
    Number32(x);
    Number32(y);
    assert f[..4] == U32(x) && f[4..8] == U32(y);
  }

  lemma TwoStrings(cs: Bytes, t: Bytes)
    requires |cs| < 0x10000 && |t| < 0x10000
    ensures var f := U16(|cs|) + cs + (U16(|t|) + t);
            && |f| == 4 + |cs| + |t| && BigEndian(f[..2]) == |cs| && f[2..2 + |cs|] == cs
            && BigEndian(f[2 + |cs|..4 + |cs|]) == |t| && f[4 + |cs|..] == t
  {
    hide U16, BigEndian;
    var f := U16(|cs|) + cs + (U16(|t|) + t);
    Number16(|cs|);
    Number16(|t|);
    assert f[..2] == U16(|cs|) && f[2 + |cs|..4 + |cs|] == U16(|t|);
  }

  /** No other field is right, and when there is a right one, that is written. */
  lemma FieldOnly(clock: Clock, tv: Tagged, f: Bytes)
    requires IsField(clock, tv.tag, tv.value, f)
    ensures Field(clock, tv) == Some(f)
  {
    hide U16, U32, BigEndian, Of16, Of32;
    match tv.value
    case Num(n) =>
      if |f| == 4 { OnlyNumber32(n, f); } else { assert f == [f[0]]; }
    case Res(x, y, _) =>
      OnlyNumber32(x, f[..4]);
      OnlyNumber32(y, f[4..8]);
      assert f == f[..4] + f[4..8] + [f[8]];
    case Range(x, y) =>
      OnlyNumber32(x, f[..4]);
      OnlyNumber32(y, f[4..]);
      assert f == f[..4] + f[4..];
    case Lang(cs, t) => OnlyStrings(cs, t, f);
    case _ =>
  }

  lemma OnlyNumber16(n: nat, s: Bytes)
    requires |s| == 2 && BigEndian(s) == n
    ensures n < 0x10000 && U16(n) == s
  {
    Read16(s);
    Numbers16(0, s);
  }

  lemma OnlyNumber32(n: nat, s: Bytes)
    requires |s| == 4 && BigEndian(s) == n
    ensures n < 0x100000000 && U32(n) == s
  {
    Read32(s);
    Numbers32(0, s);
  }

  lemma OnlyStrings(cs: Bytes, t: Bytes, f: Bytes)
    requires |f| == 4 + |cs| + |t| && BigEndian(f[..2]) == |cs| && f[2..2 + |cs|] == cs
    requires BigEndian(f[2 + |cs|..4 + |cs|]) == |t| && f[4 + |cs|..] == t
    ensures |cs| < 0x10000 && |t| < 0x10000 && f == U16(|cs|) + cs + (U16(|t|) + t)
  {
    hide U16, BigEndian;
    OnlyNumber16(|cs|, f[..2]);
    OnlyNumber16(|t|, f[2 + |cs|..4 + |cs|]);
    assert f == f[..2] + f[2..2 + |cs|] + (f[2 + |cs|..4 + |cs|] + f[4 + |cs|..]);
  }

  /** A value on the wire: its tag, its counted name, its counted field */
  ghost predicate IsValue(clock: Clock, name: Bytes, tv: Tagged, s: Bytes) {
    && |s| >= 5 + |name|
    && s[0] == tv.tag && BigEndian(s[1..3]) == |name| && s[3..3 + |name|] == name
    && BigEndian(s[3 + |name|..5 + |name|]) == |s| - 5 - |name|
    && IsField(clock, tv.tag, tv.value, s[5 + |name|..])
  }

  lemma ValueIs(clock: Clock, name: Bytes, tv: Tagged)
    requires GenValue(clock, name, tv).Some?
    ensures IsValue(clock, name, tv, GenValue(clock, name, tv).value)
  {
    hide U16, BigEndian, Field, IsField;
    var f := Field(clock, tv).value;
    FieldIs(clock, tv);
    Number16(|name|);
    Number16(|f|);
    var s := [tv.tag] + U16(|name|) + name + (U16(|f|) + f);
    assert s[1..3] == U16(|name|) && s[3..3 + |name|] == name;
    assert s[3 + |name|..5 + |name|] == U16(|f|) && s[5 + |name|..] == f;
  }

  lemma ValueOnly(clock: Clock, name: Bytes, tv: Tagged, s: Bytes)
    requires IsValue(clock, name, tv, s)
    ensures GenValue(clock, name, tv) == Some(s)
  {
    hide U16, BigEndian, Field, IsField;
    var n, f := |name|, s[5 + |name|..];
    FieldOnly(clock, tv, f);
    OnlyNumber16(n, s[1..3]);
    OnlyNumber16(|f|, s[3 + n..5 + n]);
    assert s == [s[0]] + s[1..3] + s[3..3 + n] + (s[3 + n..5 + n] + f);
  }

  /** The values vs one after the other, the first one with the name and the others with none */
  ghost predicate IsValues(clock: Clock, name: Bytes, vs: seq<Tagged>, s: Bytes)
    decreases vs
  {
    if vs == [] then s == []
    else exists k :: 0 <= k <= |s| && IsValue(clock, name, vs[0], s[..k]) && IsValues(clock, [], vs[1..], s[k..])
  }

  lemma {:induction false} MoreIs(clock: Clock, vs: seq<Tagged>)
    requires GenMore(clock, vs).Some?
    ensures IsValues(clock, [], vs, GenMore(clock, vs).value)
  {
    hide GenValue, IsValue;
    if vs != [] {
      var a, b := GenValue(clock, [], vs[0]).value, GenMore(clock, vs[1..]).value;
      ValueIs(clock, [], vs[0]);
      MoreIs(clock, vs[1..]);
      assert (a + b)[..|a|] == a && (a + b)[|a|..] == b;
    }
  }

  lemma {:induction false} MoreOnly(clock: Clock, vs: seq<Tagged>, s: Bytes)
    requires IsValues(clock, [], vs, s)
    ensures GenMore(clock, vs) == Some(s)
    decreases vs
  {
    hide GenValue, IsValue;
    if vs != [] {
      var k :| 0 <= k <= |s| && IsValue(clock, [], vs[0], s[..k]) && IsValues(clock, [], vs[1..], s[k..]);
      ValueOnly(clock, [], vs[0], s[..k]);
      MoreOnly(clock, vs[1..], s[k..]);
      assert s[..k] + s[k..] == s;
    }
  }

  lemma AttrOnly(clock: Clock, attr: Attr, s: Bytes)
    requires IsValues(clock, attr.name, attr.values, s)
    ensures GenAttr(clock, attr) == Some(s)
  {
    hide GenValue, IsValue;
    if attr.values != [] {
      var k :| 0 <= k <= |s| && IsValue(clock, attr.name, attr.values[0], s[..k]) &&
               IsValues(clock, [], attr.values[1..], s[k..]);
      ValueOnly(clock, attr.name, attr.values[0], s[..k]);
      MoreOnly(clock, attr.values[1..], s[k..]);
      assert s[..k] + s[k..] == s;
    }
  }

  lemma AttrIs(clock: Clock, attr: Attr)
    requires GenAttr(clock, attr).Some?
    ensures IsValues(clock, attr.name, attr.values, GenAttr(clock, attr).value)
  {
    hide GenValue, IsValue;
    if attr.values != [] {
      var a, b := GenValue(clock, attr.name, attr.values[0]).value, GenMore(clock, attr.values[1..]).value;
      ValueIs(clock, attr.name, attr.values[0]);
      MoreIs(clock, attr.values[1..]);
      assert (a + b)[..|a|] == a && (a + b)[|a|..] == b;
    }
  }

  ghost predicate IsAttrs(clock: Clock, attrs: seq<Attr>, s: Bytes) {
    if attrs == [] then s == []
    else
      var a := attrs[0];
      exists k :: 0 <= k <= |s| && IsValues(clock, a.name, a.values, s[..k]) && IsAttrs(clock, attrs[1..], s[k..])
  }

  lemma {:induction false} AttrsAre(clock: Clock, attrs: seq<Attr>)
    requires GenAttrs(clock, attrs).Some?
    ensures IsAttrs(clock, attrs, GenAttrs(clock, attrs).value)
  {
    hide GenAttr, IsValues;
    if attrs != [] {
      var a, b := GenAttr(clock, attrs[0]).value, GenAttrs(clock, attrs[1..]).value;
      AttrIs(clock, attrs[0]);
      AttrsAre(clock, attrs[1..]);
      assert (a + b)[..|a|] == a && (a + b)[|a|..] == b;
    }
  }

  lemma {:induction false} AttrsOnly(clock: Clock, attrs: seq<Attr>, s: Bytes)
    requires IsAttrs(clock, attrs, s)
    ensures GenAttrs(clock, attrs) == Some(s)
    decreases attrs
  {
    hide GenAttr, IsValues;
    if attrs != [] {
      var a := attrs[0];
      var k :| 0 <= k <= |s| && IsValues(clock, a.name, a.values, s[..k]) && IsAttrs(clock, attrs[1..], s[k..]);
      AttrOnly(clock, a, s[..k]);
      AttrsOnly(clock, attrs[1..], s[k..]);
      assert s[..k] + s[k..] == s;
    }
  }

  /** A group is its tag and its attributes. */
  ghost predicate IsItem(clock: Clock, item: Item, s: Bytes) {
    match item
    case Group(tag, attrs) => |s| > 0 && s[0] == tag && IsAttrs(clock, attrs, s[1..])
    case Bare(attr) => IsValues(clock, attr.name, attr.values, s)
  }

  ghost predicate IsItems(clock: Clock, items: seq<Item>, s: Bytes) {
    if items == [] then s == []
    else exists k :: 0 <= k <= |s| && IsItem(clock, items[0], s[..k]) && IsItems(clock, items[1..], s[k..])
  }

  lemma {:induction false} ItemsAre(clock: Clock, items: seq<Item>)
    requires GenItems(clock, items).Some?
    ensures IsItems(clock, items, GenItems(clock, items).value)
  {
    hide GenItem, IsItem;
    if items != [] {
      var a, b := GenItem(clock, items[0]).value, GenItems(clock, items[1..]).value;
      ItemIs(clock, items[0]);
      ItemsAre(clock, items[1..]);
      assert (a + b)[..|a|] == a && (a + b)[|a|..] == b;
    }
  }

  lemma ItemIs(clock: Clock, item: Item)
    requires GenItem(clock, item).Some?
    ensures IsItem(clock, item, GenItem(clock, item).value)
  {
    hide GenAttr, IsValues, IsAttrs;
    match item
    case Group(tag, attrs) => AttrsAre(clock, attrs);
    case Bare(attr) => AttrIs(clock, attr);
  }

  lemma ItemOnly(clock: Clock, item: Item, s: Bytes)
    requires IsItem(clock, item, s)
    ensures GenItem(clock, item) == Some(s)
  {
    hide GenAttr, IsValues, IsAttrs;
    match item
    case Group(tag, attrs) =>
      AttrsOnly(clock, attrs, s[1..]);
      assert s == [s[0]] + s[1..];
    case Bare(attr) => AttrOnly(clock, attr, s);
  }

  lemma {:induction false} ItemsOnly(clock: Clock, items: seq<Item>, s: Bytes)
    requires IsItems(clock, items, s)
    ensures GenItems(clock, items) == Some(s)
    decreases items
  {
    hide GenItem, IsItem;
    if items != [] {
      var k :| 0 <= k <= |s| && IsItem(clock, items[0], s[..k]) && IsItems(clock, items[1..], s[k..]);
      ItemOnly(clock, items[0], s[..k]);
      ItemsOnly(clock, items[1..], s[k..]);
      assert s[..k] + s[k..] == s;
    }
  }

  /** A message: the version, the operation or status, the number of the request, the groups, and the tag 3 */
  ghost predicate IsMessage(clock: Clock, m: Msg, s: Bytes) {
    && |s| >= 9
    && s[0] == m.majv && s[1] == m.minv && BigEndian(s[2..4]) == m.status && BigEndian(s[4..8]) == m.id
    && IsItems(clock, m.items, s[8..|s| - 1])
    && s[|s| - 1] == 3
  }

  /** What generate writes are exactly the bytes that are laid out as the standard says; it fails when
      there are none. */
  lemma MessageExactly(clock: Clock, m: Msg, s: Bytes)
    ensures Generate(clock, m) == Some(s) <==> IsMessage(clock, m, s)
  {
    hide Generate, IsMessage;
    if Generate(clock, m) == Some(s) {
      MessageIs(clock, m);
    }
    if IsMessage(clock, m, s) {
      MessageOnly(clock, m, s);
    }
  }

  lemma MessageOnly(clock: Clock, m: Msg, s: Bytes)
    requires IsMessage(clock, m, s)
    ensures Generate(clock, m) == Some(s)
  {
    hide U16, U32, BigEndian, GenItems, IsItems;
    OnlyNumber16(m.status, s[2..4]);
    OnlyNumber32(m.id, s[4..8]);
    ItemsOnly(clock, m.items, s[8..|s| - 1]);
    assert s == [s[0], s[1]] + s[2..4] + s[4..8] + (s[8..|s| - 1] + [s[|s| - 1]]);
  }

  lemma MessageIs(clock: Clock, m: Msg)
    requires Generate(clock, m).Some?
    ensures IsMessage(clock, m, Generate(clock, m).value)
  {
    hide U16, U32, BigEndian, GenItems, IsItems;
    var g, b := Generate(clock, m).value, GenItems(clock, m.items).value;
    Number16(m.status);
    Number32(m.id);
    ItemsAre(clock, m.items);
    assert g[2..4] == U16(m.status) && g[4..8] == U32(m.id) && g[8..|g| - 1] == b;
  }

  /** parse takes the header from there, and a byte below sixteen for the tag of a group. */
  lemma MessageRead(clock: Clock, s: Bytes)
    requires Parse(clock, s, false).Some?
    ensures var m := Parse(clock, s, false).value.0;
            && |s| >= 9
            && m.majv == s[0] && m.minv == s[1] && m.status == BigEndian(s[2..4]) && m.id == BigEndian(s[4..8])
            && (m.items == [] <==> s[8] == 3)
            && (m.items != [] ==> if s[8] <= 15 then m.items[0].Group? && m.items[0].tag == s[8] else m.items[0].Bare?)
  {
    hide BigEndian, Of16, Of32;
    Read16(s[2..4]);
    Read32(s[4..8]);
  }
}
