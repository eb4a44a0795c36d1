/** What parsing makes of a generated message, and generating of a parsed one. */
module IppRoundTrip {
  import opened Common
  import opened FileBuf
  import opened Ipp

  // ----- What was generated can be parsed -----

  function ReadValues(clock: Clock, vs: seq<Tagged>): seq<Tagged> {
    if vs == [] then [] else [Read(clock, vs[0])] + ReadValues(clock, vs[1..])
  }

  function ReadAttr(clock: Clock, a: Attr): Attr {
    Attr(if a.values == [] then a.tag else a.values[0].tag, a.name, ReadValues(clock, a.values))
  }

  function ReadAttrs(clock: Clock, attrs: seq<Attr>): seq<Attr> {
    if attrs == [] then [] else [ReadAttr(clock, attrs[0])] + ReadAttrs(clock, attrs[1..])
  }

  function ReadItem(clock: Clock, item: Item): Item {
    match item
    case Group(tag, attrs) => Group(tag, ReadAttrs(clock, attrs))
    case Bare(attr) => Bare(ReadAttr(clock, attr))
  }

  function ReadItems(clock: Clock, items: seq<Item>): seq<Item> {
    if items == [] then [] else [ReadItem(clock, items[0])] + ReadItems(clock, items[1..])
  }

  predicate SoundValue(v: Tagged) {
    v.tag >= UNSUPPORTED_VALUE
  }

  predicate SoundValues(vs: seq<Tagged>) {
    forall k :: 0 <= k < |vs| ==> SoundValue(vs[k])
  }

  /** An attribute has a name and a value, and its values have value tags. */
  predicate SoundAttr(a: Attr) {
    a.name != [] && a.values != [] && SoundValues(a.values)
  }

  predicate SoundAttrs(attrs: seq<Attr>) {
    forall k :: 0 <= k < |attrs| ==> SoundAttr(attrs[k])
  }

  predicate SoundItem(item: Item) {
    match item
    case Group(tag, attrs) => tag < UNSUPPORTED_VALUE && tag != END_TAG && SoundAttrs(attrs)
    case Bare(attr) => SoundAttr(attr)
  }

  /** Attributes outside a group stand before the first group: behind one they would be read as
      part of it. */
  predicate SoundItems(items: seq<Item>) {
    && (forall k :: 0 <= k < |items| ==> SoundItem(items[k]))
    && (forall k :: 0 < k < |items| && items[k].Bare? ==> items[k - 1].Bare?)
  }

  /** The input is behind the last value of an attribute. */
  predicate Ends(s: Bytes) {
    AnotherValue(s) == Some(false)
  }

  predicate AtDelimiter(s: Bytes) {
    s != [] && s[0] < UNSUPPORTED_VALUE
  }

  /** A generated value, with its tag and name in front */
  lemma ValueParsed(clock: Clock, name: Bytes, tv: Tagged, rest: Bytes)
    requires GenValue(clock, name, tv).Some?
    ensures var s := GenValue(clock, name, tv).value + rest;
            && s != [] && s[0] == tv.tag && |s| >= 3 && Of16(s[1..3]) == |name|
            && Counted(s[1..]).Some? && Counted(s[1..]).value.0 == name
            && ReadValue(clock, tv.tag, Counted(s[1..]).value.1, false) == Some((Read(clock, tv), rest))
  {
    var f := Field(clock, tv).value;
    var s, more := GenValue(clock, name, tv).value + rest, U16(|f|) + f + rest;
    assert s[1..] == U16(|name|) + name + more;
    assert s[1..3] == U16(|name|);
    Numbers16(|name|, U16(|name|));
    CountedBytes(name, more);
    CountedBytes(f, rest);
    ValueRead(clock, tv);
  }

  lemma {:induction false} MoreParsed(clock: Clock, vs: seq<Tagged>, rest: Bytes)
    requires SoundValues(vs) && GenMore(clock, vs).Some? && Ends(rest)
    ensures ParseMore(clock, GenMore(clock, vs).value + rest, false) == Some((ReadValues(clock, vs), rest))
    decreases |vs|
  {
    if vs == [] {
      assert [] + rest == rest;
    } else {
      MoreParsed(clock, vs[1..], rest);
      MoreStep(clock, vs, rest);
    }
  }

  lemma MoreStep(clock: Clock, vs: seq<Tagged>, rest: Bytes)
    requires vs != [] && SoundValues(vs) && GenMore(clock, vs).Some?
    requires ParseMore(clock, GenMore(clock, vs[1..]).value + rest, false) == Some((ReadValues(clock, vs[1..]), rest))
    ensures ParseMore(clock, GenMore(clock, vs).value + rest, false) == Some((ReadValues(clock, vs), rest))
  {
    hide GenValue, ReadValue, Counted, Read, ParseMore;
    var a, b := GenValue(clock, [], vs[0]).value, GenMore(clock, vs[1..]).value;
    var s := GenMore(clock, vs).value + rest;
    assert s == a + (b + rest);
    assert SoundValue(vs[0]);
    ValueParsed(clock, [], vs[0], b + rest);
    EmptyName(s);
    MoreTurn(clock, s, false);
  }

  /** One turn of the loop of parseattr */
  lemma MoreTurn(clock: Clock, s: Bytes, strict: bool)
    requires AnotherValue(s) == Some(true)
    ensures var v := ReadValue(clock, s[0], s[3..], strict);
            ParseMore(clock, s, strict) ==
            if v.None? then None else Prepend([v.value.0], ParseMore(clock, v.value.1, strict))
  {
  }

  lemma EmptyName(s: Bytes)
    requires |s| >= 3 && Counted(s[1..]).Some? && Counted(s[1..]).value.0 == []
    ensures Counted(s[1..]).value.1 == s[3..]
  {
  }

  lemma AttrParsed(clock: Clock, a: Attr, rest: Bytes)
    requires SoundAttr(a) && GenAttr(clock, a).Some? && Ends(rest)
    ensures ParseAttr(clock, GenAttr(clock, a).value + rest, false) == Some((ReadAttr(clock, a), rest))
  {
    hide GenValue, ReadValue, Counted, Of16, ParseMore, GenMore;
    var x, y := GenValue(clock, a.name, a.values[0]).value, GenMore(clock, a.values[1..]).value;
    assert SoundValue(a.values[0]);
    assert GenAttr(clock, a).value + rest == x + (y + rest);
    ValueParsed(clock, a.name, a.values[0], y + rest);
    assert SoundValues(a.values[1..]);
    MoreParsed(clock, a.values[1..], rest);
  }

  /** Behind an attribute there is a delimiter, or an attribute with a name. */
  lemma AttrEnds(clock: Clock, a: Attr, rest: Bytes)
    requires SoundAttr(a) && GenAttr(clock, a).Some?
    ensures var s := GenAttr(clock, a).value + rest; Ends(s) && s[0] >= UNSUPPORTED_VALUE
  {
    var x, y := GenValue(clock, a.name, a.values[0]).value, GenMore(clock, a.values[1..]).value;
    assert SoundValue(a.values[0]);
    assert GenAttr(clock, a).value + rest == x + (y + rest);
    ValueParsed(clock, a.name, a.values[0], y + rest);
  }

  lemma {:induction false} AttrsParsed(clock: Clock, attrs: seq<Attr>, rest: Bytes)
    requires SoundAttrs(attrs) && GenAttrs(clock, attrs).Some? && AtDelimiter(rest)
    ensures ParseAttrs(clock, GenAttrs(clock, attrs).value + rest, false) == Some((ReadAttrs(clock, attrs), rest))
    ensures Ends(GenAttrs(clock, attrs).value + rest)
    decreases |attrs|
  {
    if attrs == [] {
      assert [] + rest == rest;
    } else {
      AttrsParsed(clock, attrs[1..], rest);
      AttrsStep(clock, attrs, rest);
    }
  }

  lemma AttrsStep(clock: Clock, attrs: seq<Attr>, rest: Bytes)
    requires attrs != [] && SoundAttrs(attrs) && GenAttrs(clock, attrs).Some?
    requires ParseAttrs(clock, GenAttrs(clock, attrs[1..]).value + rest, false) ==
             Some((ReadAttrs(clock, attrs[1..]), rest))
    requires Ends(GenAttrs(clock, attrs[1..]).value + rest)
    ensures ParseAttrs(clock, GenAttrs(clock, attrs).value + rest, false) == Some((ReadAttrs(clock, attrs), rest))
    ensures Ends(GenAttrs(clock, attrs).value + rest)
  {
    hide GenAttr, ParseAttr, SoundAttr, AnotherValue;
    var a, b := GenAttr(clock, attrs[0]).value, GenAttrs(clock, attrs[1..]).value;
    assert GenAttrs(clock, attrs).value + rest == a + (b + rest);
    AttrEnds(clock, attrs[0], b + rest);
    AttrParsed(clock, attrs[0], b + rest);
  }

  lemma ItemParsed(clock: Clock, item: Item, rest: Bytes)
    requires SoundItem(item) && GenItem(clock, item).Some?
    requires Ends(rest) && (item.Group? ==> AtDelimiter(rest))
    ensures var s := GenItem(clock, item).value + rest;
            && Ends(s) && s[0] != END_TAG && (item.Group? ==> AtDelimiter(s))
            && ParseItem(clock, s, false) == Some((ReadItem(clock, item), rest))
  {
    hide GenAttrs, ParseAttrs, GenAttr, ParseAttr, SoundAttr;
    var s := GenItem(clock, item).value + rest;
    match item
    case Group(tag, attrs) =>
      assert s == [tag] + (GenAttrs(clock, attrs).value + rest);
      AttrsParsed(clock, attrs, rest);
    case Bare(attr) =>
      AttrEnds(clock, attr, rest);
      AttrParsed(clock, attr, rest);
  }

  lemma {:induction false} ItemsParsed(clock: Clock, items: seq<Item>, data: Bytes)
    requires SoundItems(items) && GenItems(clock, items).Some?
    ensures var s := GenItems(clock, items).value + ([END_TAG] + data);
            && Ends(s) && (items == [] || items[0].Group? ==> AtDelimiter(s))
            && ParseItems(clock, s, false) == Some((ReadItems(clock, items), data))
    decreases |items|
  {
    var end := [END_TAG] + data;
    if items == [] {
      assert [] + end == end && end[1..] == data;
    } else {
      SoundRest(items);
      ItemsParsed(clock, items[1..], data);
      ItemsStep(clock, items, data);
    }
  }

  lemma SoundRest(items: seq<Item>)
    requires SoundItems(items) && items != []
    ensures SoundItems(items[1..]) && SoundItem(items[0])
    ensures items[0].Group? ==> items[1..] == [] || items[1..][0].Group?
  {
    forall k | 0 <= k < |items[1..]|
      ensures SoundItem(items[1..][k])
    {
      assert SoundItem(items[k + 1]);
    }
  }

  lemma ItemsStep(clock: Clock, items: seq<Item>, data: Bytes)
    requires items != [] && SoundItems(items) && GenItems(clock, items).Some?
    requires var s := GenItems(clock, items[1..]).value + ([END_TAG] + data);
             && Ends(s) && (items[1..] == [] || items[1..][0].Group? ==> AtDelimiter(s))
             && ParseItems(clock, s, false) == Some((ReadItems(clock, items[1..]), data))
    ensures var s := GenItems(clock, items).value + ([END_TAG] + data);
            && Ends(s) && (items[0].Group? ==> AtDelimiter(s))
            && ParseItems(clock, s, false) == Some((ReadItems(clock, items), data))
  {
    hide GenItem, ParseItem, SoundItems, SoundItem, AnotherValue;
    var end := [END_TAG] + data;
    var a, b := GenItem(clock, items[0]).value, GenItems(clock, items[1..]).value;
    SoundRest(items);
    assert GenItems(clock, items).value + end == a + (b + end);
    ItemParsed(clock, items[0], b + end);
  }

  function ReadMsg(clock: Clock, m: Msg): Msg {
    m.(items := ReadItems(clock, m.items))
  }

  /** A generated message is read back, but for what Read changes, whatever follows it. */
  lemma GeneratedIsParsed(clock: Clock, m: Msg, data: Bytes)
    requires SoundItems(m.items) && Generate(clock, m).Some?
    ensures Parse(clock, Generate(clock, m).value + data, false) == Some((ReadMsg(clock, m), data))
  {
    var h, b := Header(m.majv, m.minv, m.status, m.id).value, GenItems(clock, m.items).value;
    var s := Generate(clock, m).value + data;
    assert s == h + (b + ([END_TAG] + data));
    assert s[8..] == b + ([END_TAG] + data);
    assert s[2..4] == U16(m.status) && s[4..8] == U32(m.id);
    Numbers16(m.status, U16(m.status));
    Numbers32(m.id, U32(m.id));
    ItemsParsed(clock, m.items, data);
  }

  // ----- When a message comes back as it was -----

  predicate PlainValue(clock: Clock, v: Tagged) {
    && !(v.value.Res? && v.value.unit.Code? && v.value.unit.n < 256)
    && (v.value.Time? ==> clock.toTime(clock.fromTime(v.value.t)) == v.value.t)
  }

  /** The tag of the attribute is that of its first value, and there is no resolution with a
      numeric unit, and no time that the two conversions change. */
  predicate PlainAttr(clock: Clock, a: Attr) {
    (a.values != [] ==> a.tag == a.values[0].tag) && forall k :: 0 <= k < |a.values| ==> PlainValue(clock, a.values[k])
  }

  predicate PlainItem(clock: Clock, item: Item) {
    match item
    case Group(_, attrs) => forall k :: 0 <= k < |attrs| ==> PlainAttr(clock, attrs[k])
    case Bare(attr) => PlainAttr(clock, attr)
  }

  lemma {:induction false} ValuesSame(clock: Clock, vs: seq<Tagged>)
    ensures ReadValues(clock, vs) == vs <==> forall k :: 0 <= k < |vs| ==> PlainValue(clock, vs[k])
    ensures |ReadValues(clock, vs)| == |vs|
  {
    if vs != [] {
      ValuesSame(clock, vs[1..]);
      assert vs == [vs[0]] + vs[1..];
      assert (forall k :: 0 <= k < |vs| ==> PlainValue(clock, vs[k])) <==>
             PlainValue(clock, vs[0]) && forall k :: 0 <= k < |vs[1..]| ==> PlainValue(clock, vs[1..][k]) by {
        assert forall k :: 0 < k < |vs| ==> vs[k] == vs[1..][k - 1];
      }
      SameCons(Read(clock, vs[0]), ReadValues(clock, vs[1..]), vs[0], vs[1..]);
    }
  }

  lemma SameCons<T>(x: T, xs: seq<T>, y: T, ys: seq<T>)
    ensures [x] + xs == [y] + ys <==> x == y && xs == ys
  {
    if [x] + xs == [y] + ys {
      assert ([x] + xs)[0] == x && ([x] + xs)[1..] == xs && ([y] + ys)[1..] == ys;
    }
  }

  lemma {:induction false} AttrsSame(clock: Clock, attrs: seq<Attr>)
    ensures ReadAttrs(clock, attrs) == attrs <==> forall k :: 0 <= k < |attrs| ==> PlainAttr(clock, attrs[k])
  {
    if attrs != [] {
      hide ReadAttr, PlainAttr;
      AttrsSame(clock, attrs[1..]);
      AttrSame(clock, attrs[0]);
      assert attrs == [attrs[0]] + attrs[1..];
      assert forall k :: 0 < k < |attrs| ==> attrs[k] == attrs[1..][k - 1];
      SameCons(ReadAttr(clock, attrs[0]), ReadAttrs(clock, attrs[1..]), attrs[0], attrs[1..]);
    }
  }

  lemma AttrSame(clock: Clock, a: Attr)
    ensures ReadAttr(clock, a) == a <==> PlainAttr(clock, a)
  {
    ValuesSame(clock, a.values);
  }

  /** Reading what was generated gives the same message exactly if it is plain. */
  lemma {:induction false} ItemsSame(clock: Clock, items: seq<Item>)
    ensures ReadItems(clock, items) == items <==> forall k :: 0 <= k < |items| ==> PlainItem(clock, items[k])
  {
    if items != [] {
      hide ReadAttrs, ReadAttr, PlainAttr;
      ItemsSame(clock, items[1..]);
      match items[0] {
        case Group(_, attrs) => AttrsSame(clock, attrs);
        case Bare(attr) => AttrSame(clock, attr);
      }
      assert items == [items[0]] + items[1..];
      assert forall k :: 0 < k < |items| ==> items[k] == items[1..][k - 1];
      SameCons(ReadItem(clock, items[0]), ReadItems(clock, items[1..]), items[0], items[1..]);
    }
  }

  /** So a generated message comes back the same exactly if it is plain. */
  lemma ComesBack(clock: Clock, m: Msg, data: Bytes)
    requires SoundItems(m.items) && Generate(clock, m).Some?
    ensures Parse(clock, Generate(clock, m).value + data, false) == Some((m, data)) <==>
              forall k :: 0 <= k < |m.items| ==> PlainItem(clock, m.items[k])
  {
    hide Generate, Parse, SoundItems, PlainItem;
    GeneratedIsParsed(clock, m, data);
    ItemsSame(clock, m.items);
  }

  // ----- What was parsed can be generated -----

  /** g is what was read before rest. */
  predicate Gives(g: Option<Bytes>, rest: Bytes, s: Bytes) {
    g.Some? && g.value + rest == s
  }

  lemma CountedOnce(f: Bytes, x: Bytes, g: Bytes, y: Bytes)
    requires |f| < 0x10000 && |g| < 0x10000
    ensures U16(|f|) + f + x == U16(|g|) + g + y <==> f == g && x == y
  {
    CountedBytes(f, x);
    CountedBytes(g, y);
  }

  /** A value is written as it was read, and with it what follows, exactly if it is canonical. */
  lemma ValueBack(clock: Clock, name: Bytes, tag: nat, s: Bytes, more: Bytes)
    requires ReadValue(clock, tag, s, false).Some? && tag < 256 && |name| < 0x10000
    ensures var (tv, rest) := ReadValue(clock, tag, s, false).value;
            && (Gives(GenValue(clock, name, tv), more, [tag] + U16(|name|) + name + s) <==>
                ReadValue(clock, tag, s, true).Some? && more == rest)
            && (ReadValue(clock, tag, s, true).Some? ==> ReadValue(clock, tag, s, true) == Some((tv, rest)))
            && tv.tag == tag
  {
    var (f, rest) := Counted(s).value;
    var (tv, _) := ReadValue(clock, tag, s, false).value;
    FieldWritten(clock, tag, f);
    var g := Field(clock, tv);
    assert s == U16(|f|) + f + rest;
    if g.Some? && |g.value| < 0x10000 {
      var pre := [tag] + U16(|name|) + name;
      assert GenValue(clock, name, tv).value + more == pre + (U16(|g.value|) + g.value + more);
      SamePrefix(pre, U16(|g.value|) + g.value + more, s);
      CountedOnce(g.value, more, f, rest);
    }
  }

  lemma SamePrefix(pre: Bytes, x: Bytes, y: Bytes)
    ensures pre + x == pre + y <==> x == y
  {
    assert (pre + x)[|pre|..] == x && (pre + y)[|pre|..] == y;
  }

  lemma {:induction false} MoreBack(clock: Clock, s: Bytes, more: Bytes)
    requires ParseMore(clock, s, false).Some?
    ensures var (vs, rest) := ParseMore(clock, s, false).value;
            Gives(GenMore(clock, vs), more, s) <==> ParseMore(clock, s, true).Some? && more == rest
    ensures ParseMore(clock, s, true).Some? ==> ParseMore(clock, s, true) == ParseMore(clock, s, false)
    decreases |s|
  {
    if AnotherValue(s) == Some(true) {
      var (vs, rest) := ParseMore(clock, s, false).value;
      MoreBack(clock, ReadValue(clock, s[0], s[3..], false).value.1, more);
      MoreBackStep(clock, s, more);
    } else {
      assert [] + more == more;
    }
  }

  lemma MoreBackStep(clock: Clock, s: Bytes, more: Bytes)
    requires AnotherValue(s) == Some(true) && ParseMore(clock, s, false).Some?
    requires var s1 := ReadValue(clock, s[0], s[3..], false).value.1;
             && (Gives(GenMore(clock, ParseMore(clock, s1, false).value.0), more, s1) <==>
                   ParseMore(clock, s1, true).Some? && more == ParseMore(clock, s1, false).value.1)
             && (ParseMore(clock, s1, true).Some? ==> ParseMore(clock, s1, true) == ParseMore(clock, s1, false))
    ensures var (vs, rest) := ParseMore(clock, s, false).value;
            Gives(GenMore(clock, vs), more, s) <==> ParseMore(clock, s, true).Some? && more == rest
    ensures ParseMore(clock, s, true).Some? ==> ParseMore(clock, s, true) == ParseMore(clock, s, false)
  {
    hide GenValue, ReadValue, ParseMore, Of16;
    MoreTurn(clock, s, false);
    MoreTurn(clock, s, true);
    var (vs, rest) := ParseMore(clock, s, false).value;
    var (tv, s1) := ReadValue(clock, s[0], s[3..], false).value;
    var b := GenMore(clock, vs[1..]);
    assert vs[1..] == ParseMore(clock, s1, false).value.0;
    TagAndName(s);
    if b.Some? {
      ValueBack(clock, [], s[0], s[3..], b.value + more);
      var a := GenValue(clock, [], tv);
      assert a.Some? ==> (a.value + b.value) + more == a.value + (b.value + more);
    } else {
      ValueBack(clock, [], s[0], s[3..], s1);
    }
  }

  lemma TagAndName(s: Bytes)
    requires AnotherValue(s) == Some(true)
    ensures |s| >= 3 && s == [s[0]] + U16(0) + [] + s[3..]
  {
    assert s[1..3] == U16(0);
  }

  lemma AttrBack(clock: Clock, s: Bytes, more: Bytes)
    requires ParseAttr(clock, s, false).Some?
    ensures var (a, rest) := ParseAttr(clock, s, false).value;
            Gives(GenAttr(clock, a), more, s) <==> ParseAttr(clock, s, true).Some? && more == rest
    ensures ParseAttr(clock, s, true).Some? ==> ParseAttr(clock, s, true) == ParseAttr(clock, s, false)
  {
    hide GenValue, ReadValue, ParseMore, GenMore;
    var (a, rest) := ParseAttr(clock, s, false).value;
    var (name, s1) := Counted(s[1..]).value;
    var (tv, s2) := ReadValue(clock, s[0], s1, false).value;
    assert tv == a.values[0] && a.values[1..] == ParseMore(clock, s2, false).value.0;
    assert tv.tag == s[0] by { ReadTag(clock, s[0], s1); }
    MoreBack(clock, s2, more);
    var b := GenMore(clock, a.values[1..]);
    assert s == [s[0]] + U16(|name|) + name + s1;
    if b.Some? {
      ValueBack(clock, name, s[0], s1, b.value + more);
      var g := GenValue(clock, name, tv);
      assert g.Some? ==> (g.value + b.value) + more == g.value + (b.value + more);
    } else {
      ValueBack(clock, name, s[0], s1, s2);
    }
  }

  lemma {:induction false} AttrsBack(clock: Clock, s: Bytes, more: Bytes)
    requires ParseAttrs(clock, s, false).Some?
    ensures var (attrs, rest) := ParseAttrs(clock, s, false).value;
            Gives(GenAttrs(clock, attrs), more, s) <==> ParseAttrs(clock, s, true).Some? && more == rest
    ensures ParseAttrs(clock, s, true).Some? ==> ParseAttrs(clock, s, true) == ParseAttrs(clock, s, false)
    decreases |s|
  {
    hide ParseAttr, GenAttr;
    if s[0] < UNSUPPORTED_VALUE {
      assert [] + more == more;
    } else {
      var (attrs, rest) := ParseAttrs(clock, s, false).value;
      var (a, s1) := ParseAttr(clock, s, false).value;
      assert attrs[0] == a && attrs[1..] == ParseAttrs(clock, s1, false).value.0;
      AttrsBack(clock, s1, more);
      var g, b := GenAttr(clock, a), GenAttrs(clock, attrs[1..]);
      if b.Some? {
        AttrBack(clock, s, b.value + more);
        assert g.Some? ==> (g.value + b.value) + more == g.value + (b.value + more);
      } else {
        AttrBack(clock, s, s1);
      }
    }
  }

  lemma ItemBack(clock: Clock, s: Bytes, more: Bytes)
    requires s != [] && ParseItem(clock, s, false).Some?
    ensures var (item, rest) := ParseItem(clock, s, false).value;
            Gives(GenItem(clock, item), more, s) <==> ParseItem(clock, s, true).Some? && more == rest
    ensures ParseItem(clock, s, true).Some? ==> ParseItem(clock, s, true) == ParseItem(clock, s, false)
  {
    hide ParseAttr, GenAttr, ParseAttrs, GenAttrs;
    if s[0] < UNSUPPORTED_VALUE {
      var attrs := ParseAttrs(clock, s[1..], false).value.0;
      AttrsBack(clock, s[1..], more);
      var g := GenAttrs(clock, attrs);
      assert s == [s[0]] + s[1..];
      if g.Some? {
        assert ([s[0]] + g.value) + more == [s[0]] + (g.value + more);
        SamePrefix([s[0]], g.value + more, s[1..]);
      }
    } else {
      AttrBack(clock, s, more);
    }
  }

  lemma {:induction false} ItemsBack(clock: Clock, s: Bytes)
    requires ParseItems(clock, s, false).Some?
    ensures var (items, rest) := ParseItems(clock, s, false).value;
            Gives(GenItems(clock, items), [END_TAG] + rest, s) <==> ParseItems(clock, s, true).Some?
    ensures ParseItems(clock, s, true).Some? ==> ParseItems(clock, s, true) == ParseItems(clock, s, false)
    decreases |s|
  {
    hide ParseItem, GenItem;
    var (items, rest) := ParseItems(clock, s, false).value;
    var end := [END_TAG] + rest;
    if s[0] == END_TAG {
      assert [] + end == end && end == s;
    } else {
      var (item, s1) := ParseItem(clock, s, false).value;
      assert items[0] == item && items[1..] == ParseItems(clock, s1, false).value.0;
      ItemsBack(clock, s1);
      var g, b := GenItem(clock, item), GenItems(clock, items[1..]);
      if b.Some? {
        ItemBack(clock, s, b.value + end);
        assert g.Some? ==> (g.value + b.value) + end == g.value + (b.value + end);
      } else {
        ItemBack(clock, s, s1);
      }
    }
  }

  /** An accepted message comes out byte by byte as it went in exactly if the
      strict reading, which wants canonical values, accepts it too. */
  lemma ParsedIsGenerated(clock: Clock, s: Bytes)
    requires Parse(clock, s, false).Some?
    ensures var (m, rest) := Parse(clock, s, false).value;
            Gives(Generate(clock, m), rest, s) <==> Parse(clock, s, true).Some?
  {
    hide GenItems, ParseItems, Header, Of16, Of32;
    var (m, rest) := Parse(clock, s, false).value;
    ItemsBack(clock, s[8..]);
    HeaderBack(s);
    var b := GenItems(clock, m.items);
    assert s == s[..8] + s[8..];
    if b.Some? {
      assert (s[..8] + (b.value + [END_TAG])) + rest == s[..8] + (b.value + ([END_TAG] + rest));
      SamePrefix(s[..8], b.value + ([END_TAG] + rest), s[8..]);
    }
  }

  lemma HeaderBack(s: Bytes)
    requires |s| >= 8
    ensures Header(s[0], s[1], Of16(s[2..4]), Of32(s[4..8])) == Some(s[..8])
  {
    Numbers16(0, s[2..4]);
    Numbers32(0, s[4..8]);
    assert s[..8] == [s[0], s[1]] + s[2..4] + s[4..8];
  }
}
