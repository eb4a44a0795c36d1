/**
 Buffered reading from a socket, plain or in the chunked coding of section 4.1 of RFC 7230
 (cupspy/filebuf.py).  The class holds the fields of both filebuf and httpfilebuf.
 */
module FileBuf {
  import opened Common

  type Bytes = seq<Byte>

  const CR: Byte := 13
  const LF: Byte := 10
  const CRLF := [CR, LF]

  // ----- Lines -----

  /** Place of the first line feed, or the length if there is none */
  function LineEnd(s: Bytes): (k: nat)
    ensures k <= |s| && LF !in s[..k] && (k < |s| ==> s[k] == LF)
  {
    if s == [] || s[0] == LF then 0
    else
      assert forall k :: 0 < k <= |s| ==> s[..k] == [s[0]] + s[1..][..k - 1];
      1 + LineEnd(s[1..])
  }

  predicate Blank(b: Byte) {
    9 <= b <= 13 || b == 32
  }

  function RStrip(s: Bytes): Bytes {
    if s != [] && Blank(s[|s| - 1]) then RStrip(s[..|s| - 1]) else s
  }

  predicate HexDigit(b: Byte) {
    48 <= b <= 57 || 65 <= b <= 70 || 97 <= b <= 102
  }

  predicate AllHex(s: Bytes) {
    s != [] && forall k :: 0 <= k < |s| ==> HexDigit(s[k])
  }

  function DigitValue(b: Byte): nat
    requires HexDigit(b)
  {
    if b <= 57 then b as nat - 48 else if b <= 70 then b as nat - 55 else b as nat - 87
  }

  function HexValue(s: Bytes): nat
    requires forall k :: 0 <= k < |s| ==> HexDigit(s[k])
  {
    if s == [] then 0 else HexValue(s[..|s| - 1]) * 16 + DigitValue(s[|s| - 1])
  }

  // ----- Sizes as they are written -----

  const LOWER: Bytes := [48, 49, 50, 51, 52, 53, 54, 55, 56, 57, 97, 98, 99, 100, 101, 102]
  const UPPER: Bytes := [48, 49, 50, 51, 52, 53, 54, 55, 56, 57, 65, 66, 67, 68, 69, 70]

  /** The digits of n, of which the k-th from the right and those to its left follow; caps says
      which of them are upper case. */
  function Hex(n: nat, k: nat, caps: nat -> bool): (s: Bytes)
    ensures s != []
  {
    (if n < 16 then [] else Hex(n / 16, k + 1, caps)) + [if caps(k) then UPPER[n % 16] else LOWER[n % 16]]
  }

  lemma DigitRead(n: nat)
    requires n < 16
    ensures HexDigit(LOWER[n]) && HexDigit(UPPER[n]) && DigitValue(LOWER[n]) == DigitValue(UPPER[n]) == n
  {
  }

  /** There are no other digits. */
  lemma DigitsAre(b: Byte)
    ensures HexDigit(b) <==> b in LOWER || b in UPPER
  {
    assert forall k :: 0 <= k < 16 ==> HexDigit(LOWER[k]) && HexDigit(UPPER[k]);
    if HexDigit(b) {
      var n := if b <= 57 then b as int - 48 else if b <= 70 then b as int - 55 else b as int - 87;
      assert LOWER[n] == b || UPPER[n] == b;
    }
  }

  lemma {:induction false} HexRead(n: nat, k: nat, caps: nat -> bool)
    ensures AllHex(Hex(n, k, caps)) && HexValue(Hex(n, k, caps)) == n
  {
    hide HexDigit, DigitValue, HexValue, AllHex;
    var front, last := if n < 16 then [] else Hex(n / 16, k + 1, caps), if caps(k) then UPPER[n % 16]
        else LOWER[n % 16];
    DigitRead(n % 16);
    if n >= 16 {
      HexRead(n / 16, k + 1, caps);
    }
    HexMore(front, last);
    assert Hex(n, k, caps) == front + [last];
  }

  /** One more digit */
  lemma HexMore(s: Bytes, b: Byte)
    requires (s == [] || AllHex(s)) && HexDigit(b)
    ensures AllHex(s + [b]) && (s == [] ==> HexValue(s + [b]) == DigitValue(b))
    ensures AllHex(s) ==> HexValue(s + [b]) == HexValue(s) * 16 + DigitValue(b)
  {
    assert (s + [b])[..|s|] == s;
  }

  function Zeros(n: nat): (s: Bytes)
    ensures |s| == n && forall k :: 0 <= k < n ==> s[k] == 48
  {
    seq(n, _ => 48)
  }

  lemma {:induction false} ZerosRead(n: nat)
    ensures HexValue(Zeros(n)) == 0
  {
    if n > 0 {
      assert Zeros(n)[..n - 1] == Zeros(n - 1);
      ZerosRead(n - 1);
    }
  }

  /** Zeros in front of a number do not matter. */
  lemma {:induction false} LeadingZeros(n: nat, s: Bytes)
    requires AllHex(s)
    ensures AllHex(Zeros(n) + s) && HexValue(Zeros(n) + s) == HexValue(s)
  {
    var z, last := Zeros(n) + s, s[..|s| - 1];
    assert z[..|z| - 1] == Zeros(n) + last;
    if last == [] {
      assert Zeros(n) + last == Zeros(n);
      ZerosRead(n);
      assert HexValue(last) == 0;
    } else {
      LeadingZeros(n, last);
    }
  }

  // ----- The chunked coding -----

  /** A chunk: the digits of its size, and the data */
  datatype Chunk = Chunk(digits: Bytes, data: Bytes)

  predicate WellFormed(c: Chunk) {
    AllHex(c.digits) && HexValue(c.digits) == |c.data| && c.data != []
  }

  function Body(c: Chunk): Bytes {
    c.digits + CRLF + (c.data + CRLF)
  }

  /** Chunks, then the last one, of size zero; tail is what comes behind it. */
  function Encode(chunks: seq<Chunk>, zeros: Bytes, tail: Bytes): Bytes {
    if chunks == [] then zeros + CRLF + tail else Body(chunks[0]) + Encode(chunks[1..], zeros, tail)
  }

  function Payload(chunks: seq<Chunk>): Bytes {
    if chunks == [] then [] else chunks[0].data + Payload(chunks[1..])
  }

  lemma {:induction false} LineOfDigits(digits: Bytes, rest: Bytes)
    requires forall k :: 0 <= k < |digits| ==> HexDigit(digits[k])
    ensures LineEnd(digits + CRLF + rest) == |digits| + 1
    decreases |digits|
  {
    var s := digits + CRLF + rest;
    if digits == [] {
      assert s[0] == CR && s[1..][0] == LF;
    } else {
      assert s[1..] == digits[1..] + CRLF + rest;
      LineOfDigits(digits[1..], rest);
    }
  }

  lemma StripLine(digits: Bytes)
    requires forall k :: 0 <= k < |digits| ==> HexDigit(digits[k])
    ensures RStrip(digits + CRLF) == digits
  {
    var s := digits + CRLF;
    assert s[..|s| - 1] == digits + [CR];
    assert (digits + [CR])[..|digits|] == digits;
    assert RStrip(digits) == digits;
    assert RStrip(digits + [CR]) == digits;
  }

  /** What a reader finds at the start of a size line: the digits, and behind the line the rest */
  lemma SizeLine(digits: Bytes, rest: Bytes)
    requires forall k :: 0 <= k < |digits| ==> HexDigit(digits[k])
    ensures var s := digits + CRLF + rest;
            var k := LineEnd(s);
            k < |s| && RStrip(s[..k + 1]) == digits && s[k + 1..] == rest
  {
    var s := digits + CRLF + rest;
    LineOfDigits(digits, rest);
    StripLine(digits);
    assert s[..|digits| + 2] == digits + CRLF;
  }

  /** Reading a size line from the input of a well-formed encoding */
  lemma NextSize(chunks: seq<Chunk>, zeros: Bytes, tail: Bytes)
    requires AllHex(zeros) && forall c :: c in chunks ==> WellFormed(c)
    ensures var s := Encode(chunks, zeros, tail);
            var k := LineEnd(s);
            && k < |s|
            && RStrip(s[..k + 1]) == (if chunks == [] then zeros else chunks[0].digits)
            && s[k + 1..] == if chunks == [] then tail else chunks[0].data + CRLF + Encode(chunks[1..], zeros, tail)
  {
    if chunks == [] {
      SizeLine(zeros, tail);
    } else {
      var c, rest := chunks[0], Encode(chunks[1..], zeros, tail);
      assert c in chunks;
      SizeLine(c.digits, c.data + CRLF + rest);
      assert Encode(chunks, zeros, tail) == c.digits + CRLF + (c.data + CRLF + rest);
    }
  }

  lemma BlankLine(rest: Bytes)
    ensures var s := CRLF + rest;
            var k := LineEnd(s);
            k < |s| && RStrip(s[..k + 1]) == [] && s[k + 1..] == rest
  {
    SizeLine([], rest);
    assert [] + CRLF + rest == CRLF + rest;
  }

  lemma DataFirst(data: Bytes, more: Bytes)
    ensures var s := data + CRLF + more; |data| <= |s| && s[..|data|] == data && s[|data|..] == CRLF + more
  {
  }

  // ----- What a reader of a string sees (stringbuf) -----

  datatype Op = Get(n: nat) | Peek(n: nat)

  /** The answer to an operation on a string of which s is left, and what is left then */
  function Answer(s: Bytes, op: Op): (r: Option<(Bytes, Bytes)>)
    ensures r.None? <==> op.n > |s|
    ensures r.Some? ==> |r.value.0| == op.n && |r.value.1| + (if op.Get? then op.n else 0) == |s|
  {
    if op.n > |s| then None else Some((s[..op.n], if op.Get? then s[op.n..] else s))
  }

  lemma AnswerHead(s: Bytes, op: Op)
    ensures Answer(s, op).Some? && op.n > 0 ==> s != [] && Answer(s, op).value.0[0] == s[0]
  {
  }

  lemma Split(s: Bytes, n: nat, more: Bytes)
    requires n <= |s|
    ensures Answer(s, Get(n)) == Some((s[..n], s[n..]))
    ensures s[n..] == CRLF + more ==> s[..n] + CRLF + more == s
  {
    assert s == s[..n] + s[n..];
  }

  /** The answer when the next bytes are at place p of a buffer */
  lemma FromBuffer(b: Bytes, p: nat, n: nat, more: Bytes)
    requires p + n <= |b|
    ensures Answer(b[p..] + more, Get(n)) == Some((b[p..p + n], b[p + n..] + more))
    ensures Answer(b[p..] + more, Peek(n)) == Some((b[p..p + n], b[p..] + more))
    ensures Answer(b[p..], Get(n)) == Some((b[p..p + n], b[p + n..]))
    ensures Answer(b[p..], Peek(n)) == Some((b[p..p + n], b[p..]))
  {
    var s := b[p..] + more;
    assert s[..n] == b[p..p + n] && s[n..] == b[p + n..] + more;
    assert b[p..][..n] == b[p..p + n] && b[p..][n..] == b[p + n..];
  }

  /** The answers to the operations, up to the first one that wants more than there is */
  function Answers(s: Bytes, ops: seq<Op>): seq<Bytes> {
    if ops == [] then []
    else
      match Answer(s, ops[0])
      case None => []
      case Some((answer, rest)) => [answer] + Answers(rest, ops[1..])
  }

  /** What is left then */
  function LeftOver(s: Bytes, ops: seq<Op>): Bytes {
    if ops == [] then s
    else
      match Answer(s, ops[0])
      case None => s
      case Some((_, rest)) => LeftOver(rest, ops[1..])
  }

  predicate InTime(s: Bytes, ops: seq<Op>) {
    if ops == [] then true
    else
      match Answer(s, ops[0])
      case None => false
      case Some((_, rest)) => InTime(rest, ops[1..])
  }

  /** What the answers that use up input come to, one after the other */
  function Consumed(s: Bytes, ops: seq<Op>): Bytes {
    if ops == [] then []
    else
      match Answer(s, ops[0])
      case None => []
      case Some((answer, rest)) => (if ops[0].Get? then answer else []) + Consumed(rest, ops[1..])
  }

  lemma AnswerSplits(s: Bytes, op: Op)
    requires Answer(s, op).Some?
    ensures var (answer, rest) := Answer(s, op).value;
            answer <= s && (if op.Get? then answer else []) + rest == s
  {
    assert s[..op.n] + s[op.n..] == s;
  }

  lemma JoinAll(a: Bytes, b: Bytes, c: Bytes)
    ensures (a + b) + c == a + (b + c)
  {
  }

  /** Every byte is got once, in order, or is still left. */
  lemma {:induction false} ConsumedAndLeft(s: Bytes, ops: seq<Op>)
    ensures Consumed(s, ops) + LeftOver(s, ops) == s
    decreases ops
  {
    hide Answer;
    if ops != [] && Answer(s, ops[0]).Some? {
      var (answer, rest) := Answer(s, ops[0]).value;
      ConsumedAndLeft(rest, ops[1..]);
      AnswerSplits(s, ops[0]);
      JoinAll(if ops[0].Get? then answer else [], Consumed(rest, ops[1..]), LeftOver(rest, ops[1..]));
    }
  }

  /** The answer is what would be got next; peeking leaves it to the operations that follow. */
  lemma FirstAnswer(s: Bytes, op: Op, ops: seq<Op>)
    ensures Answers(s, [op] + ops) ==
            if op.n > |s| then [] else [s[..op.n]] + Answers(if op.Peek? then s else s[op.n..], ops)
  {
    assert ([op] + ops)[1..] == ops;
  }

  /** rstrip: only white space goes, and all of it that stands at the end. */
  lemma {:induction false} Stripped(s: Bytes)
    ensures RStrip(s) <= s && forall k :: |RStrip(s)| <= k < |s| ==> s[k] in [9, 10, 11, 12, 13, 32]
    ensures RStrip(s) != [] ==> RStrip(s)[|RStrip(s)| - 1] !in [9, 10, 11, 12, 13, 32]
  {
    if s != [] && Blank(s[|s| - 1]) {
      Stripped(s[..|s| - 1]);
    }
  }

  /** A line ends with the first byte 10; chunks and sizes are written with 13 and 10 behind them. */
  lemma {:induction false} LinesEnd(s: Bytes, c: Chunk)
    ensures LineEnd(s) < |s| <==> 10 in s
    ensures 10 in s ==> s[LineEnd(s)] == 10 && 10 !in s[..LineEnd(s)]
    ensures Body(c) == c.digits + [13, 10] + c.data + [13, 10]
  {
    if s != [] && s[0] != 10 {
      LinesEnd(s[1..], c);
    }
  }

  /** The byte of a line that is read next */
  lemma LineByte(s: Bytes, n: nat)
    requires n <= LineEnd(s) && Answer(s[n..], Get(1)).Some?
    ensures n < |s| && Answer(s[n..], Get(1)).value == ([s[n]], s[n + 1..]) && s[..n] + [s[n]] == s[..n + 1]
    ensures if s[n] == LF then LineEnd(s) == n else n < LineEnd(s)
  {
    hide LineEnd, Answer;
    OneByte(s, n);
    if n < LineEnd(s) {
      assert s[..LineEnd(s)][n] == s[n];
    }
  }

  lemma OneByte(s: Bytes, n: nat)
    requires n <= |s| && Answer(s[n..], Get(1)).Some?
    ensures n < |s| && Answer(s[n..], Get(1)).value == ([s[n]], s[n + 1..]) && s[..n] + [s[n]] == s[..n + 1]
  {
    var more := s[n..];
    assert more[0] == s[n] && more[..1] == [s[n]] && more[1..] == s[n + 1..];
  }

  /** int(lin, 16) */
  function LineSize(line: Bytes, oddSize: Bytes -> Option<nat>): Option<nat> {
    if line == [] then None else if AllHex(line) then Some(HexValue(line)) else oddSize(line)
  }

  lemma FirstSize(chunks: seq<Chunk>, zeros: Bytes, tail: Bytes, oddSize: Bytes -> Option<nat>)
    requires WholeInput(chunks, zeros)
    ensures var s := Encode(chunks, zeros, tail);
            var k := LineEnd(s);
            && k < |s| && AllHex(RStrip(s[..k + 1]))
            && LineSize(RStrip(s[..k + 1]), oddSize) == Some(if chunks == [] then 0 else |chunks[0].data|)
            && s[k + 1..] == if chunks == [] then tail else chunks[0].data + CRLF + Encode(chunks[1..], zeros, tail)
    ensures chunks != [] ==> chunks[0].data != []
  {
    hide Encode, LineEnd, RStrip;
    NextSize(chunks, zeros, tail);
    assert chunks != [] ==> chunks[0] in chunks;
  }

  /** What is behind the first n of the bytes, or nothing */
  function Behind(s: Bytes, n: nat): (r: Bytes)
    ensures |r| <= |s|
  {
    if n <= |s| then s[n..] else []
  }

  /** Well-formed chunks, and the last one of size zero */
  ghost predicate WholeInput(cs: seq<Chunk>, zeros: Bytes) {
    && AllHex(zeros) && HexValue(zeros) == 0
    && forall c :: c in cs ==> WellFormed(c)
  }

  ghost predicate NeverFails(frag: nat -> nat) {
    forall i :: frag(i) > 0
  }

  ghost predicate Ending(s: Bytes, e: Bytes) {
    |e| <= |s| && s[|s| - |e|..] == e
  }

  lemma EndingLess(s: Bytes, e: Bytes, n: nat)
    requires Ending(s, e) && n <= |e|
    ensures Ending(s, e[n..])
  {
  }

  lemma EndingBehind(s: Bytes, b: Bytes, n: nat, more: Bytes)
    requires Ending(s, b + more)
    ensures Ending(s, Behind(b, n) + more)
  {
    hide Ending;
    EndingLess(s, b + more, if n <= |b| then n else |b|);
    assert (b + more)[if n <= |b| then n else |b|..] == Behind(b, n) + more;
  }

  class StringBuf {
    const buffer: Bytes
    var ptr: nat

    constructor (f: Bytes)
      ensures buffer == f && ptr == 0
    {
      buffer, ptr := f, 0;
    }

    ghost function Left(): Bytes
      reads this
    {
      Behind(buffer, ptr)
    }

    lemma AllLeft()
      ensures ptr == 0 ==> Left() == buffer
    {
    }

    method Want(length: nat) returns (ok: bool)
      ensures ok <==> ptr + length <= |buffer|
    {
      ok := |buffer| - ptr >= length;
    }

    /** get and peek */
    method Do(op: Op) returns (r: Option<Bytes>)
      modifies this
      ensures r.Some? ==> ptr <= |buffer| && Answer(old(Left()), op) == Some((r.value, Left()))
      ensures r.None? ==> ptr == old(ptr) && (ptr <= |buffer| ==> Answer(old(Left()), op) == None)
      ensures r.Some? <==> old(ptr) + op.n <= |buffer|
      ensures r.Some? && op.Peek? ==> ptr == old(ptr)
    {
      var ok := Want(op.n);
      if !ok {
        return None;
      }
      FromBuffer(buffer, ptr, op.n, []);
      r := Some(buffer[ptr..ptr + op.n]);
      if op.Get? {
        ptr := ptr + op.n;
      }
    }

    method Skip(length: nat)
      modifies this
      ensures ptr == old(ptr) + length && Left() == Behind(old(Left()), length)
    {
      ptr := ptr + length;
    }

    method GetRem() returns (ret: Bytes)
      modifies this
      ensures ret == old(Left()) && ptr == |buffer|
    {
      ret := if ptr <= |buffer| then buffer[ptr..] else [];
      ptr := |buffer|;
    }
  }

  // ----- filebuf and httpfilebuf -----

  class HttpFileBuf {
    /** What the socket will deliver, and how many bytes the i-th recv gives at most; 0 stands
        for a poll that times out or reports an error */
    var incoming: Bytes
    const frag: nat -> nat
    var step: nat
    /** How Python reads a size line that is not just hexadecimal digits */
    const oddSize: Bytes -> Option<nat>

    var buffer: Bytes
    var ptr: nat
    var expected: int

    var chunked: bool
    var chunkbuf: Bytes
    var chunkptr: nat

    ghost const input: Bytes
    ghost var chunks: seq<Chunk>
    ghost const zeros: Bytes
    ghost const tail: Bytes

    constructor (incoming: Bytes, frag: nat -> nat, oddSize: Bytes -> Option<nat>, ghost zeros: Bytes,
                 ghost tail: Bytes)
      ensures Valid() && Level() && Rest() == incoming && !chunked && buffer == [] && chunkbuf == [] && step == 0 &&
              ptr == 0 && expected == 0
      ensures this.input == incoming && Kept()
      ensures this.frag == frag && this.oddSize == oddSize && this.zeros == zeros && this.tail == tail
      ensures NeverFails(frag) <==> Reliable()
    {
      this.incoming, this.frag, this.oddSize, this.zeros, this.tail := incoming, frag, oddSize, zeros, tail;
      this.input := incoming;
      step, buffer, ptr, expected := 0, [], 0, 0;
      chunked, chunkbuf, chunkptr, chunks := false, [], 0, [];
    }

    predicate Valid()
      reads this`chunkbuf, this`chunkptr
    {
      chunkptr <= |chunkbuf|
    }

    /** Nothing has been skipped that is not in the buffer. */
    predicate Level()
      reads this`buffer, this`ptr
    {
      ptr <= |buffer|
    }

    /** What is buffered of the input */
    function Avail(): Bytes
      reads this`buffer, this`ptr
    {
      Behind(buffer, ptr)
    }

    /** What is still to be read of the input */
    ghost function Rest(): Bytes
      reads this`buffer, this`ptr, this`incoming
    {
      Avail() + incoming
    }

    /** The buffer holds what came in last: together with what is still to come it is an end of the
        whole input. */
    ghost predicate Kept()
      reads this`buffer, this`incoming
    {
      Ending(input, buffer + incoming)
    }

    /** How far a skip went past the buffer */
    ghost function Over(): nat
      reads this`buffer, this`ptr
    {
      if Level() then 0 else ptr - |buffer|
    }

    /** The payload that is decoded and not yet read */
    function Decoded(): Bytes
      reads this`chunkbuf, this`chunkptr
      requires Valid()
    {
      chunkbuf[chunkptr..]
    }

    /** What the next get can have without reading from the socket */
    function Ahead(): Bytes
      reads this
      requires Valid()
    {
      if chunked then Decoded() else Avail()
    }

    predicate Buffered(n: nat)
      reads this
      requires Valid()
    {
      n <= |Ahead()| && (chunked || Level())
    }

    /** All the bytes there are */
    ghost function Total(): nat
      reads this
      requires Valid()
    {
      |Rest()| + |Decoded()|
    }

    /** The poll never fails. */
    ghost predicate Reliable() {
      NeverFails(frag)
    }

    /** readbuf */
    method ReadBuf(length: nat) returns (r: Option<Bytes>)
      requires length > 0
      modifies this`incoming, this`step
      ensures r.Some? ==>
                r.value + incoming == old(incoming) && (r.value == [] <==> old(incoming) == []) && |r.value| <= length
      ensures frag(old(step)) >= length >= |old(incoming)| ==> r == Some(old(incoming)) && incoming == []
      ensures r.None? ==> incoming == old(incoming) && !Reliable()
    {
      var n := frag(step);
      step := step + 1;
      if n == 0 {
        return None;
      }
      n := if n > length then length else n;
      n := if n > |incoming| then |incoming| else n;
      assert incoming[..|incoming|] == incoming;
      r := Some(incoming[..n]);
      incoming := incoming[n..];
    }

    /** How far what is expected goes past what will come */
    ghost function Owed(): int
      reads this`expected, this`incoming
    {
      expected - |incoming|
    }

    /** Nothing is buffered, and what is to come arrives at once. */
    ghost predicate AtOnce(length: nat)
      reads this`incoming, this`step, this`buffer, this`ptr
    {
      ptr == |buffer| && 0 < length <= |incoming| <= 1024 <= frag(step)
    }

    /** want: false when it raises the end-of-file exception */
    method Want(length: nat) returns (ok: bool)
      modifies this`incoming, this`step, this`buffer, this`ptr, this`expected
      ensures Rest() == old(Rest()) && (old(Level()) ==> Level())
      ensures ok ==> ptr + length <= |buffer|
      ensures !ok ==> Level() && (!Reliable() || length + old(Over()) > |Rest()|)
      ensures old(ptr + length <= |buffer|) ==> ok && ptr == old(ptr) && buffer == old(buffer)
      ensures old(AtOnce(length)) ==> ok && ptr == 0 && buffer == old(incoming) && incoming == []
      ensures Owed() == old(Owed()) && (old(Kept()) ==> Kept())
    {
      hide Reliable;
      var lenav: int := |buffer| - ptr;
      while lenav < length
        invariant Rest() == old(Rest()) && (old(Level()) ==> Level())
        invariant lenav <= |buffer| - ptr && lenav + |incoming| == old(|buffer| - ptr + |incoming|)
        invariant Owed() == old(Owed()) && (old(Kept()) ==> Kept())
        invariant old(ptr + length <= |buffer|) ==> ptr == old(ptr) && buffer == old(buffer)
        invariant old(AtOnce(length)) ==>
                    if lenav == 0 then AtOnce(length) && incoming == old(incoming)
                    else ptr == 0 && buffer == old(incoming) && incoming == []
        decreases |incoming|
      {
        var lng := Fill();
        if lng == 0 {
          return false;
        }
        lenav := lenav + lng;
      }
      ok := true;
    }

    /** One turn of the loop of want: 0 when it raises the end-of-file exception */
    method Fill() returns (lng: nat)
      modifies this`incoming, this`step, this`buffer, this`ptr, this`expected
      ensures Rest() == old(Rest()) && ptr == 0 && |buffer| == |old(Avail())| + lng &&
              |incoming| == |old(incoming)| - lng
      ensures lng == 0 ==> !Reliable() || incoming == []
      ensures Owed() == old(Owed()) && (old(Kept()) ==> Kept())
      ensures old(AtOnce(1)) ==> lng != 0 && buffer == old(incoming) && incoming == []
    {
      hide NeverFails, Reliable, Ending;
      if Kept() {
        EndingBehind(input, buffer, ptr, incoming);
      }
      buffer := if ptr <= |buffer| then buffer[ptr..] else [];
      ptr := 0;
      var nb := ReadBuf(1024);
      if nb.None? {
        return 0;
      }
      lng := |nb.value|;
      expected := expected - lng;
      assert buffer + (nb.value + incoming) == (buffer + nb.value) + incoming;
      buffer := buffer + nb.value;
    }

    /** filebuf.get */
    method PlainGet(length: nat) returns (r: Option<Bytes>)
      modifies this`incoming, this`step, this`buffer, this`ptr, this`expected
      ensures Level()
      ensures r.Some? ==> Answer(old(Rest()), Get(length)) == Some((r.value, Rest())) && ptr >= length
      ensures r.None? ==> Rest() == old(Rest()) && (!Reliable() || length + old(Over()) > |old(Rest())|)
      ensures old(ptr + length <= |buffer|) ==>
                r == Some(old(buffer[ptr..ptr + length])) && ptr == old(ptr) + length && buffer == old(buffer)
      ensures old(AtOnce(length)) ==> r.Some? && ptr == length && buffer == old(incoming) && incoming == []
      ensures Owed() == old(Owed()) && (old(Kept()) ==> Kept())
    {
      hide Answer, Reliable;
      var ok := Want(length);
      if !ok {
        return None;
      }
      FromBuffer(buffer, ptr, length, incoming);
      r := Some(buffer[ptr..ptr + length]);
      ptr := ptr + length;
    }

    /** filebuf.peek */
    method PlainPeek(length: nat) returns (r: Option<Bytes>)
      modifies this`incoming, this`step, this`buffer, this`ptr, this`expected
      ensures Level()
      ensures r.Some? ==> Answer(old(Rest()), Peek(length)) == Some((r.value, Rest())) && r.value <= Avail()
      ensures r.None? ==> Rest() == old(Rest()) && (!Reliable() || length + old(Over()) > |old(Rest())|)
      ensures old(ptr + length <= |buffer|) ==>
                r == Some(old(buffer[ptr..ptr + length])) && ptr == old(ptr) && buffer == old(buffer)
      ensures Owed() == old(Owed()) && (old(Kept()) ==> Kept())
    {
      hide Answer, Reliable;
      var ok := Want(length);
      if ok {
        FromBuffer(buffer, ptr, length, incoming);
      }
      r := if ok then Some(buffer[ptr..ptr + length]) else None;
    }

    /** set_chunked: from here on the rest of the input is read as the chunks cs. */
    method SetChunked(ghost cs: seq<Chunk>)
      modifies this`chunked, this`chunkbuf, this`chunkptr, this`chunks
      ensures Valid() && chunked && Total() == |old(Rest())|
      ensures old(Level()) && WholeInput(cs, zeros) && old(Rest()) == Encode(cs, zeros, tail) ==>
                Sound() && Left() == Payload(cs)
    {
      chunked, chunkbuf, chunkptr := true, [], 0;
      chunks := cs;
    }

    /** The input is well-formed chunks from here on, some of their data already in chunkbuf. */
    ghost predicate Framed()
      reads this`incoming, this`buffer, this`ptr, this`chunked, this`chunkbuf, this`chunkptr, this`chunks
    {
      Valid() && Level() && WholeInput(chunks, zeros) && Rest() == Encode(chunks, zeros, tail)
    }

    /** A chunked input is well formed from here on. */
    ghost predicate Sound()
      reads this`incoming, this`buffer, this`ptr, this`chunked, this`chunkbuf, this`chunkptr, this`chunks
    {
      Valid() && Level() && (chunked ==> Framed())
    }

    /** What is still to be read: of the payload, if the input is chunked */
    ghost function Left(): Bytes
      reads this`incoming, this`buffer, this`ptr, this`chunked, this`chunkbuf, this`chunkptr, this`chunks
      requires Valid()
    {
      if chunked then Decoded() + Payload(chunks) else Rest()
    }

    /** The first chunk, if there is one */
    lemma FirstChunk()
      requires WholeInput(chunks, zeros)
      ensures WholeInput(chunks[if chunks == [] then 0 else 1..], zeros)
      ensures chunks != [] ==> WellFormed(chunks[0]) && Payload(chunks) == chunks[0].data + Payload(chunks[1..])
    {
      assert chunks != [] ==> chunks[0] in chunks;
    }

    /** read_numline */
    method ReadNumLine() returns (r: Option<Bytes>)
      modifies this`incoming, this`step, this`buffer, this`ptr, this`expected
      ensures Level() && Owed() == old(Owed()) && (old(Kept()) ==> Kept())
      ensures r.Some? ==>
                var (s, k) := (old(Rest()), LineEnd(old(Rest())));
                k < |s| && r.value == RStrip(s[..k + 1]) && Rest() == s[k + 1..]
      ensures r.None? ==> |Rest()| <= |old(Rest())|
      ensures r.None? && old(Level()) ==> !Reliable() || LineEnd(old(Rest())) == |old(Rest())|
    {
      hide Answer, LineEnd, Rest, RStrip;
      var result: Bytes := [];
      ghost var s := Rest();
      while true
        invariant |result| <= LineEnd(s) && result == s[..|result|] && Rest() == s[|result|..] &&
                  Owed() == old(Owed()) && (old(Kept()) ==> Kept())
        invariant old(Level()) || result != [] ==> Level()
        decreases |s| - |result|
      {
        var ch := PlainGet(1);
        if ch.None? {
          return None;
        }
        LineByte(s, |result|);
        result := result + ch.value;
        if ch.value[0] == LF {
          break;
        }
      }
      r := Some(RStrip(result));
    }

    /** chunksize: not ok when it raises the end-of-file exception; no size for a blank line */
    method ChunkSize() returns (ok: bool, size: Option<nat>)
      modifies this`incoming, this`step, this`buffer, this`ptr, this`expected
      ensures Level() && Owed() == old(Owed()) && (old(Kept()) ==> Kept()) && |Rest()| <= |old(Rest())|
      ensures ok ==> var (s, k) := (old(Rest()), LineEnd(old(Rest())));
                && k < |s| && Rest() == s[k + 1..]
                && size == LineSize(RStrip(s[..k + 1]), oddSize)
                && (size.None? ==> RStrip(s[..k + 1]) == [])
      ensures !ok && old(Level()) ==>
                var (s, k) := (old(Rest()), LineEnd(old(Rest())));
                !Reliable() || k == |s| || (RStrip(s[..k + 1]) != [] && !AllHex(RStrip(s[..k + 1])))
    {
      var lin := ReadNumLine();
      if lin.None? {
        return false, None;
      }
      size := LineSize(lin.value, oddSize);
      ok := size.Some? || lin.value == [];
    }

    /** nxt_sz bytes are to come, then an empty line, and then `more`. */
    ghost predicate Ready(nxt_sz: nat, more: Bytes)
      reads this
    {
      Level() && nxt_sz <= |Rest()| && Rest()[nxt_sz..] == CRLF + more
    }

    /** The data of a chunk of nxt_sz bytes, and the blank line behind it */
    method ChunkData(nxt_sz: nat, ghost more: Bytes) returns (data: Option<Bytes>)
      modifies this`incoming, this`step, this`buffer, this`ptr, this`expected
      ensures |Rest()| <= |old(Rest())| && Level() && Owed() == old(Owed()) && (old(Kept()) ==> Kept())
      ensures data.Some? ==> |data.value| == nxt_sz && |Rest()| + nxt_sz <= |old(Rest())|
      ensures old(Ready(nxt_sz, more)) ==>
                if data.Some? then data.value + CRLF + more == old(Rest()) && Rest() == more else !Reliable()
    {
      hide Answer, LineEnd, RStrip, Reliable;
      BlankLine(more);
      ghost var s := Rest();
      data := PlainGet(nxt_sz);
      if data.Some? {
        Split(s, nxt_sz, more);
        var ok, size := ChunkSize();
        if !ok || size.Some? {
          return None;
        }
      }
    }

    /** chunksize at the start of a chunk */
    method NextChunk() returns (ok: bool, nxt_sz: Option<nat>)
      modifies this`incoming, this`step, this`buffer, this`ptr, this`expected
      ensures Level() && Owed() == old(Owed()) && (old(Kept()) ==> Kept()) && |Rest()| <= |old(Rest())| &&
              (ok ==> |Rest()| < |old(Rest())|)
      ensures old(Framed()) && !ok ==> !Reliable()
      ensures old(Framed()) && ok && chunks == [] ==> nxt_sz == Some(0) && Rest() == tail
      ensures old(Framed()) && ok && chunks != [] ==>
                && nxt_sz == Some(|chunks[0].data|) && nxt_sz != Some(0)
                && Rest() == chunks[0].data + CRLF + Encode(chunks[1..], zeros, tail)
    {
      hide LineEnd, RStrip, Encode, AllHex, LineSize, Payload, NeverFails;
      if Framed() {
        FirstSize(chunks, zeros, tail, oddSize);
      }
      ok, nxt_sz := ChunkSize();
    }

    /** The next chunk, as both wantchunk and getrem read it: not ok when that raises an exception,
        and no data at a size of zero */
    method OneChunk() returns (ok: bool, data: Bytes)
      modifies this`incoming, this`step, this`buffer, this`ptr, this`expected, this`chunks
      ensures Level() && Owed() == old(Owed()) && (old(Kept()) ==> Kept()) && |Rest()| + |data| <= |old(Rest())| &&
              (ok ==> |Rest()| < |old(Rest())|)
      ensures old(Framed()) && !ok ==> !Reliable()
      ensures old(Framed()) && ok && data == [] ==> old(Payload(chunks)) == [] && Rest() == tail
      ensures old(Framed()) && ok && data != [] ==> Framed() && old(Payload(chunks)) == data + Payload(chunks)
    {
      hide Encode, Reliable, Rest;
      ghost var framed, cs := Framed(), chunks;
      ghost var more := if cs == [] then [] else Encode(cs[1..], zeros, tail);
      if framed {
        FirstChunk();
      }
      data := [];
      var nxt_sz;
      ok, nxt_sz := NextChunk();
      if !ok || nxt_sz == Some(0) {
        return;
      }
      if nxt_sz.None? {
        return false, [];
      }
      if framed {
        assert Rest() == cs[0].data + CRLF + more;
        DataFirst(cs[0].data, more);
      }
      var r := ChunkData(nxt_sz.value, more);
      if r.None? {
        return false, [];
      }
      data := r.value;
      chunks := chunks[if cs == [] then 0 else 1..];
      if framed {
        DataFirst(data, more);
      }
    }

    /** One turn of the loop of wantchunk: false when it raises an exception */
    method MoreChunk() returns (ok: bool)
      requires chunkptr == 0
      modifies this`incoming, this`step, this`buffer, this`ptr, this`expected, this`chunkbuf, this`chunks
      ensures |Rest()| + |chunkbuf| <= old(|Rest()| + |chunkbuf|) && Owed() == old(Owed()) && (old(Kept()) ==> Kept())
      ensures ok ==> |Rest()| < old(|Rest()|) && old(chunkbuf) <= chunkbuf
      ensures !ok ==> chunkbuf == old(chunkbuf)
      ensures old(Framed()) && ok ==> Framed() && chunkbuf + Payload(chunks) == old(chunkbuf + Payload(chunks))
      ensures old(Framed()) && !ok ==> !Reliable() || old(Payload(chunks)) == []
    {
      hide Encode, Payload;
      var data;
      ok, data := OneChunk();
      ok := ok && data != [];
      if ok {
        assert chunkbuf + (data + Payload(chunks)) == (chunkbuf + data) + Payload(chunks);
        chunkbuf := chunkbuf + data;
      }
    }

    /** wantchunk: false when it raises an exception */
    method WantChunk(length: nat) returns (ok: bool)
      requires Valid()
      modifies this`incoming, this`step, this`buffer, this`ptr, this`expected, this`chunkbuf, this`chunkptr, this`chunks
      ensures Valid() && Total() <= old(Total()) && Owed() == old(Owed()) && (old(Kept()) ==> Kept())
      ensures ok ==> length <= |Decoded()| && old(Decoded()) <= Decoded()
      ensures length <= |old(Decoded())| ==> ok && Decoded() == old(Decoded())
      ensures old(Framed()) && ok ==> Framed() && Decoded() + Payload(chunks) == old(Decoded() + Payload(chunks))
      ensures old(Framed()) && !ok ==> !Reliable() || length > |old(Decoded() + Payload(chunks))|
    {
      ok := true;
      if chunkptr + length < |chunkbuf| {
        return;
      }
      chunkbuf := chunkbuf[chunkptr..];
      chunkptr := 0;
      while length > |chunkbuf|
        invariant ok && chunkptr == 0 && |Rest()| + |chunkbuf| <= old(Total()) && Owed() == old(Owed()) &&
                  (old(Kept()) ==> Kept())
        invariant old(Decoded()) <= chunkbuf && (length <= |old(Decoded())| ==> chunkbuf == old(Decoded()))
        invariant old(Framed()) ==> Framed() && chunkbuf + Payload(chunks) == old(Decoded() + Payload(chunks))
        decreases |Rest()|
      {
        ok := MoreChunk();
        if !ok {
          return;
        }
      }
    }

    /** get and peek, of httpfilebuf */
    method Do(op: Op) returns (r: Option<Bytes>)
      requires Valid()
      modifies this
      ensures Valid() && chunked == old(chunked) && Owed() == old(Owed()) && (old(Kept()) ==> Kept())
      ensures r.Some? ==> |r.value| == op.n && (op.Peek? ==> r.value <= Ahead() && Buffered(op.n))
      ensures r.Some? && op.Get? && op.n > 0 && !chunked ==> ptr > 0
      ensures Total() + (if r.Some? && op.Get? then op.n else 0) <= old(Total())
      ensures old(Buffered(op.n)) ==> r.Some? && Answer(old(Ahead()), op) == Some((r.value, Ahead())) && Buffered(0)
      ensures r.Some? && r.value != [] && old(Buffered(1)) ==> r.value[0] == old(Ahead())[0]
      ensures old(Sound()) && r.Some? ==> Sound() && Answer(old(Left()), op) == Some((r.value, Left()))
      ensures old(Sound()) && r.None? ==> !Reliable() || op.n > |old(Left())|
    {
      hide Answer, Payload, Encode, WholeInput, Reliable;
      if !chunked {
        if ptr + op.n <= |buffer| {
          FromBuffer(buffer, ptr, op.n, []);
        }
        AnswerHead(Rest(), op);
        match op {
          case Get(n) => r := PlainGet(n);
          case Peek(n) => r := PlainPeek(n);
        }
      } else {
        r := DoChunked(op);
      }
    }

    /** get and peek on a chunked input */
    method DoChunked(op: Op) returns (r: Option<Bytes>)
      requires chunked && Valid()
      modifies this`incoming, this`step, this`buffer, this`ptr, this`expected, this`chunkbuf, this`chunkptr, this`chunks
      ensures Valid() && Owed() == old(Owed()) && (old(Kept()) ==> Kept())
      ensures r.Some? ==> |r.value| == op.n && (op.Peek? ==> r.value <= Decoded())
      ensures Total() + (if r.Some? && op.Get? then op.n else 0) <= old(Total())
      ensures op.n <= |old(Decoded())| ==> r.Some? && Answer(old(Decoded()), op) == Some((r.value, Decoded()))
      ensures r.Some? && r.value != [] && old(Decoded()) != [] ==> r.value[0] == old(Decoded())[0]
      ensures old(Framed()) && r.Some? ==> Framed() && Answer(old(Left()), op) == Some((r.value, Left()))
      ensures old(Framed()) && r.None? ==> !Reliable() || op.n > |old(Left())|
    {
      hide Answer, Payload, Encode, WholeInput, Reliable, Rest;
      var ok := WantChunk(op.n);
      if !ok {
        return None;
      }
      FromBuffer(chunkbuf, chunkptr, op.n, Payload(chunks));
      assert |old(Decoded())| > 0 ==> Decoded()[0] == chunkbuf[chunkptr];
      r := Some(chunkbuf[chunkptr..chunkptr + op.n]);
      if op.Get? {
        chunkptr := chunkptr + op.n;
      }
    }

    /** set_expected: length bytes of the message are still to be read. */
    method SetExpected(length: nat)
      modifies this`expected
      ensures expected == length + ptr - |buffer| && (Level() ==> Owed() == length - |Rest()|)
    {
      expected := length + ptr - |buffer|;
    }

    /** What getrem has done to a plain input: what was buffered is its answer, and stays in the
        buffer, to be read again; or else the answer comes from the socket. */
    ghost predicate RemRead(r: Option<Bytes>, was: Bytes, from: nat, wanted: int)
      reads this`incoming, this`buffer, this`ptr, this`expected
    {
      if 0 < from < |buffer| then
        r == Some(buffer[from..]) && ptr == 0 && incoming == was && expected == wanted
      else
        && ptr == from
        && (r == Some([]) <==> wanted <= 0 || (r.Some? && was == []))
        && match r
           case None => !Reliable()
           case Some(s) => s + incoming == was && expected == wanted - |s| && (s == [] || |s| <= wanted)
    }

    /** filebuf.getrem */
    method PlainGetRem() returns (r: Option<Bytes>)
      modifies this`incoming, this`step, this`ptr, this`expected
      ensures RemRead(r, old(incoming), old(ptr), old(expected))
    {
      if ptr > 0 && |buffer| - ptr > 0 {
        r := Some(buffer[ptr..]);
        ptr := 0;
        return;
      }
      var l := expected;
      if l <= 0 {
        return Some([]);
      }
      if l > 1024 {
        l := 1024;
      }
      r := ReadBuf(l);
      if r.Some? {
        expected := expected - |r.value|;
      }
    }

    /** getrem of httpfilebuf, on a chunked input: some of what is left; nothing only at the end,
        where the chunked coding ends too */
    method GetRem() returns (r: Option<Bytes>)
      requires Valid()
      modifies this
      ensures Valid() && (old(chunked) ==> Total() + (if r.Some? then |r.value| else 0) <= old(Total()))
      ensures old(chunked) && (r.Some? ==> r.value != []) ==> chunked
      ensures !old(chunked) ==> !chunked && buffer == old(buffer) && RemRead(r, old(incoming), old(ptr), old(expected))
      ensures old(chunked && Sound()) && r.None? ==> !Reliable()
      ensures old(chunked && Sound()) && r.Some? ==> Sound() && r.value <= old(Left())
      ensures old(chunked && Sound()) && r.Some? && r.value != [] ==> chunked && Left() == old(Left())[|r.value|..]
      ensures old(chunked && Sound()) && r == Some([]) ==> !chunked && old(Left()) == [] && Left() == tail
    {
      hide Encode, Payload, Reliable, Rest;
      if !chunked {
        r := PlainGetRem();
      } else if chunkptr < |chunkbuf| {
        r := Some(chunkbuf[chunkptr..]);
        assert Left() == r.value + Payload(chunks);
        chunkptr := 0;
        chunkbuf := [];
      } else {
        assert Left() == Payload(chunks);
        var ok, data := OneChunk();
        r := if ok then Some(data) else None;
        chunked := chunked && !(ok && data == []);
      }
    }

    /** skip, which httpfilebuf does not override: it skips what is buffered of the input, so that
        on a chunked input the payload stays where it is, and part of the chunked coding is lost. */
    method Skip(length: nat)
      requires Valid()
      modifies this`ptr
      ensures Rest() == Behind(old(Avail()), length) + incoming && Total() <= old(Total())
      ensures chunked ==> Ahead() == old(Ahead())
      ensures !chunked && old(Buffered(length)) ==> Buffered(0) && Left() == old(Left())[length..]
    {
      ptr := ptr + length;
    }
  }

  /** What a message is read from: a string, or a connection */
  datatype Buf = Text(s: StringBuf) | Stream(h: HttpFileBuf) {
    function Objects(): set<object> {
      match this
      case Text(s) => {s}
      case Stream(h) => {h}
    }

    predicate Valid()
      reads Objects()
    {
      Stream? ==> h.Valid()
    }

    predicate Chunked()
      reads Objects()
    {
      Stream? && h.chunked
    }

    ghost predicate Sound()
      reads Objects()
    {
      match this
      case Text(s) => s.ptr <= |s.buffer|
      case Stream(h) => h.Sound()
    }

    ghost predicate Reliable() {
      Stream? ==> h.Reliable()
    }

    /** What is still to be read */
    ghost function Left(): Bytes
      reads Objects()
      requires Valid()
    {
      match this
      case Text(s) => s.Left()
      case Stream(h) => h.Left()
    }

    ghost function Total(): nat
      reads Objects()
      requires Valid()
    {
      match this
      case Text(s) => |s.Left()|
      case Stream(h) => h.Total()
    }

    ghost function Owed(): int
      reads Objects()
    {
      match this
      case Text(_) => 0
      case Stream(h) => h.Owed()
    }

    /** What no operation of a parser changes */
    twostate predicate OnTrack()
      reads Objects()
    {
      Chunked() == old(Chunked()) && Owed() == old(Owed()) && (old(Kept()) ==> Kept())
    }

    ghost predicate Kept()
      reads Objects()
    {
      Stream? ==> h.Kept()
    }

    /** Has plain input been read since the buffer was filled last? */
    ghost predicate Moved()
      reads Objects()
    {
      Stream? && !h.chunked ==> h.ptr > 0
    }

    ghost function Ahead(): Bytes
      reads Objects()
      requires Valid()
    {
      match this
      case Text(s) => s.Left()
      case Stream(h) => h.Ahead()
    }

    ghost predicate Buffered(n: nat)
      reads Objects()
      requires Valid()
    {
      match this
      case Text(s) => s.ptr + n <= |s.buffer|
      case Stream(h) => h.Buffered(n)
    }

    method Do(op: Op) returns (r: Option<Bytes>)
      requires Valid()
      modifies Objects()
      ensures Valid() && OnTrack()
      ensures r.Some? ==> |r.value| == op.n && (op.Peek? ==> r.value <= Ahead() && Buffered(op.n))
      ensures r.Some? && op.Get? && op.n > 0 ==> Moved()
      ensures Total() + (if r.Some? && op.Get? then op.n else 0) <= old(Total())
      ensures old(Buffered(op.n)) ==> r.Some? && Answer(old(Ahead()), op) == Some((r.value, Ahead())) && Buffered(0)
      ensures r.Some? && r.value != [] && old(Buffered(1)) ==> r.value[0] == old(Ahead())[0]
      ensures old(Sound()) && r.Some? ==> Sound() && Answer(old(Left()), op) == Some((r.value, Left()))
      ensures old(Sound()) && r.None? ==> !Reliable() || op.n > |old(Left())|
    {
      match this
      case Text(s) => r := s.Do(op);
      case Stream(h) => r := h.Do(op);
    }

    /** On a chunked input it leaves the payload where it is. */
    method Skip(length: nat)
      requires Valid()
      modifies Objects()
      ensures Valid() && OnTrack() && Total() <= old(Total())
      ensures Chunked() ==> Ahead() == old(Ahead())
      ensures !Chunked() && old(Sound() && Buffered(length)) ==>
                Sound() && length <= |old(Left())| && Left() == old(Left())[length..]
    {
      match this
      case Text(s) => s.Skip(length);
      case Stream(h) => h.Skip(length);
    }
  }

  // ----- A payload cut into pieces -----

  /** A piece of the payload, and how its size is written */
  datatype Piece = Piece(data: Bytes, zeros: nat, caps: nat -> bool)

  function SizeOf(p: Piece): Bytes {
    Zeros(p.zeros) + Hex(|p.data|, 0, p.caps)
  }

  /** The pieces as they are sent: each behind its size, and a size of zero behind them all; then tail */
  function Sent(pieces: seq<Piece>, zeros: nat, tail: Bytes): Bytes {
    if pieces == [] then Zeros(zeros) + CRLF + tail
    else SizeOf(pieces[0]) + CRLF + (pieces[0].data + CRLF) + Sent(pieces[1..], zeros, tail)
  }

  function AllOf(pieces: seq<Piece>): Bytes {
    if pieces == [] then [] else pieces[0].data + AllOf(pieces[1..])
  }

  function ChunksOf(pieces: seq<Piece>): seq<Chunk> {
    if pieces == [] then [] else [Chunk(SizeOf(pieces[0]), pieces[0].data)] + ChunksOf(pieces[1..])
  }

  /** They are well-formed chunks. */
  lemma {:induction false} PiecesSent(pieces: seq<Piece>, zeros: nat, tail: Bytes)
    requires zeros > 0 && forall p :: p in pieces ==> p.data != []
    ensures WholeInput(ChunksOf(pieces), Zeros(zeros))
    ensures Encode(ChunksOf(pieces), Zeros(zeros), tail) == Sent(pieces, zeros, tail)
    ensures Payload(ChunksOf(pieces)) == AllOf(pieces)
  {
    ZerosRead(zeros);
    if pieces != [] {
      var p := pieces[0];
      assert p in pieces;
      HexRead(|p.data|, 0, p.caps);
      LeadingZeros(p.zeros, Hex(|p.data|, 0, p.caps));
      PiecesSent(pieces[1..], zeros, tail);
      assert ChunksOf(pieces)[1..] == ChunksOf(pieces[1..]);
    }
  }

  // ----- Both kinds of buffer give the same answers -----

  lemma AnswersStep(s: Bytes, ops: seq<Op>, n: nat)
    requires n < |ops|
    ensures match Answer(s, ops[n])
            case None => Answers(s, ops[n..]) == [] && LeftOver(s, ops[n..]) == s && !InTime(s, ops[n..])
            case Some((answer, rest)) =>
              && Answers(s, ops[n..]) == [answer] + Answers(rest, ops[n + 1..])
              && LeftOver(s, ops[n..]) == LeftOver(rest, ops[n + 1..])
              && InTime(s, ops[n..]) == InTime(rest, ops[n + 1..])
  {
    assert ops[n..][0] == ops[n] && ops[n..][1..] == ops[n + 1..];
  }

  lemma AnswersEnd(s: Bytes, ops: seq<Op>)
    ensures Answers(s, ops[|ops|..]) == [] && LeftOver(s, ops[|ops|..]) == s && InTime(s, ops[|ops|..])
  {
  }

  /** Any sequence of get and peek, and, unless one of them runs out, getrem until there is nothing more */
  method ChunkedSession(h: HttpFileBuf, ops: seq<Op>) returns (answers: seq<Bytes>, rest: Option<Bytes>)
    requires h.chunked && h.Sound() && h.Reliable()
    modifies h
    ensures answers == Answers(old(h.Left()), ops)
    ensures rest == if InTime(old(h.Left()), ops) then Some(LeftOver(old(h.Left()), ops)) else None
    ensures rest.Some? ==> h.Sound() && h.Left() == h.tail && !h.chunked
  {
    hide Answer, Answers, LeftOver, InTime, NeverFails, HttpFileBuf.Left, HttpFileBuf.Framed;
    var n := 0;
    answers := [];
    assert ops[0..] == ops;
    ghost var s := h.Left();
    while n < |ops|
      invariant n <= |ops| && h.chunked && h.Sound()
      invariant Answers(s, ops) == answers + Answers(h.Left(), ops[n..])
      invariant InTime(s, ops) == InTime(h.Left(), ops[n..]) && LeftOver(s, ops) == LeftOver(h.Left(), ops[n..])
    {
      AnswersStep(h.Left(), ops, n);
      var r := h.Do(ops[n]);
      if r.None? {
        assert answers + [] == answers;
        return answers, None;
      }
      answers := answers + [r.value];
      n := n + 1;
    }
    AnswersEnd(h.Left(), ops);
    rest := ReadAll(h);
  }

  lemma MoveFront(all: Bytes, v: Bytes, left: Bytes)
    requires v <= left
    ensures all + left == (all + v) + left[|v|..]
  {
    assert left == v + left[|v|..];
  }

  /** getrem until there is nothing more */
  method ReadAll(h: HttpFileBuf) returns (all: Option<Bytes>)
    requires h.chunked && h.Valid()
    modifies h
    ensures h.Valid()
    ensures old(h.Sound()) && all.None? ==> !h.Reliable()
    ensures old(h.Sound()) && all.Some? ==> all.value == old(h.Left()) && h.Sound() && h.Left() == h.tail && !h.chunked
  {
    hide NeverFails, HttpFileBuf.Left, HttpFileBuf.Framed, HttpFileBuf.Total;
    var result := [];
    while true
      invariant h.Valid() && h.chunked
      invariant old(h.Sound()) ==> h.Sound() && result + h.Left() == old(h.Left())
      decreases h.Total()
    {
      ghost var left, sound := h.Left(), h.Sound();
      var r := h.GetRem();
      if r.None? {
        return None;
      }
      if r.value == [] {
        return Some(result);
      }
      if sound {
        MoveFront(result, r.value, left);
      }
      result := result + r.value;
    }
  }

  /** getrem until there is nothing more, on a plain input: the rest of the message.  But if any of it
      was buffered, all that is still in the buffer will be read again. */
  method ReadPlain(h: HttpFileBuf) returns (all: Option<Bytes>)
    requires h.Valid() && !h.chunked && 0 < h.ptr <= |h.buffer| && h.expected <= |h.incoming|
    modifies h
    ensures all.None? ==> !h.Reliable()
    ensures h.Valid() && !h.chunked
    ensures all.Some? ==>
              && all.value == old(h.Avail()) + old(h.incoming)[..AtLeast0(old(h.expected))]
              && h.incoming == old(h.incoming)[AtLeast0(old(h.expected))..]
              && h.Level() && h.Left() == (if old(h.Avail()) == [] then [] else old(h.buffer)) + h.incoming
  {
    hide NeverFails, HttpFileBuf.Kept, HttpFileBuf.Sound, HttpFileBuf.Framed, HttpFileBuf.Total, HttpFileBuf.Reliable;
    ghost var n := AtLeast0(h.expected);
    var result := [];
    if h.ptr < |h.buffer| {
      var r := h.GetRem();
      result := r.value;
    }
    assert result == old(h.Avail());
    ghost var first, done := result, [];
    while true
      invariant h.Valid() && !h.chunked && h.buffer == old(h.buffer)
      invariant h.ptr == if first == [] then |h.buffer| else 0
      invariant result == first + done && done + h.incoming == old(h.incoming) &&
                |done| + AtLeast0(h.expected) == n <= |old(h.incoming)|
      decreases AtLeast0(h.expected)
    {
      ghost var was := h.incoming;
      var r := h.GetRem();
      if r.None? {
        return None;
      }
      if r.value == [] {
        assert done == old(h.incoming)[..n];
        return Some(result);
      }
      assert done + (r.value + h.incoming) == (done + r.value) + h.incoming;
      done := done + r.value;
      result := result + r.value;
    }
  }

  function AtLeast0(n: int): nat {
    if n < 0 then 0 else n
  }

  /** Reading a message that came in one piece: some of it with get, the rest with getrem.  Then the
      whole message is there again, as if it were the next one. */
  method ReadTwice(message: Bytes, n: nat, frag: nat -> nat, oddSize: Bytes -> Option<nat>)
    returns (a: Option<Bytes>, b: Option<Bytes>, again: Option<Bytes>)
    requires 0 < n < |message| <= 1024 <= frag(0) && NeverFails(frag)
    ensures a == Some(message[..n]) && b == Some(message[n..]) && again == Some(message)
  {
    hide NeverFails, Answer, Ending, Payload, Encode, WholeInput, HttpFileBuf.Framed, HttpFileBuf.Kept,
         HttpFileBuf.Total;
    var h;
    h, a, b := ReadOnce(message, n, frag, oddSize);
    Split(message, |message|, []);
    assert message[..|message|] == message;
    again := h.Do(Get(|message|));
  }

  /** The message, and what is left when it has been read */
  method ReadOnce(message: Bytes, n: nat, frag: nat -> nat, oddSize: Bytes -> Option<nat>)
    returns (h: HttpFileBuf, a: Option<Bytes>, b: Option<Bytes>)
    requires 0 < n < |message| <= 1024 <= frag(0) && NeverFails(frag)
    ensures fresh(h) && h.Valid() && h.Sound() && h.Reliable() && h.Left() == message
    ensures a == Some(message[..n]) && b == Some(message[n..])
  {
    hide NeverFails, Answer, Ending, Payload, Encode, WholeInput, HttpFileBuf.Framed, HttpFileBuf.Kept,
         HttpFileBuf.Total;
    h := new HttpFileBuf(message, frag, oddSize, [], []);
    h.SetExpected(|message|);
    Split(message, n, []);
    a := h.PlainGet(n);
    b := ReadPlain(h);
    assert h.Left() == h.Rest() == message;
  }

  /** The same on a string */
  method StringSession(b: StringBuf, ops: seq<Op>) returns (answers: seq<Bytes>, rest: Option<Bytes>)
    requires b.ptr == 0
    modifies b
    ensures answers == Answers(b.buffer, ops)
    ensures rest == if InTime(b.buffer, ops) then Some(LeftOver(b.buffer, ops)) else None
  {
    hide Answer, Answers, LeftOver, InTime, StringBuf.Left;
    var n := 0;
    answers := [];
    assert ops[0..] == ops;
    b.AllLeft();
    while n < |ops|
      invariant n <= |ops| && b.ptr <= |b.buffer|
      invariant Answers(b.buffer, ops) == answers + Answers(b.Left(), ops[n..])
      invariant InTime(b.buffer, ops) == InTime(b.Left(), ops[n..])
      invariant LeftOver(b.buffer, ops) == LeftOver(b.Left(), ops[n..])
    {
      AnswersStep(b.Left(), ops, n);
      var r := b.Do(ops[n]);
      if r.None? {
        assert answers + [] == answers;
        return answers, None;
      }
      answers := answers + [r.value];
      n := n + 1;
    }
    AnswersEnd(b.Left(), ops);
    var all := b.GetRem();
    rest := Some(all);
  }

  /** A buffer for the input that cs stands for, after set_chunked */
  method Chunked(ghost cs: seq<Chunk>, input: Bytes, ghost zeros: Bytes, ghost tail: Bytes, frag: nat -> nat,
                 oddSize: Bytes -> Option<nat>)
    returns (h: HttpFileBuf)
    requires WholeInput(cs, zeros) && input == Encode(cs, zeros, tail)
    ensures fresh(h) && h.chunked && h.Valid() && h.Sound() && h.Left() == Payload(cs) && h.tail == tail &&
            (NeverFails(frag) <==> h.Reliable())
    ensures h.Total() == |input|
  {
    hide *;
    h := new HttpFileBuf(input, frag, oddSize, zeros, tail);
    h.SetChunked(cs);
  }

  /** Whatever the fragmentation, the pieces and the way in which sizes are written, the payload
      reads as the same bytes in a string would. */
  method SameAnswers(pieces: seq<Piece>, zeros: nat, tail: Bytes, frag: nat -> nat, oddSize: Bytes -> Option<nat>,
                     ops: seq<Op>)
    returns (same: bool)
    requires zeros > 0 && (forall p :: p in pieces ==> p.data != []) && NeverFails(frag)
    ensures same
  {
    hide *;
    PiecesSent(pieces, zeros, tail);
    var h := Chunked(ChunksOf(pieces), Sent(pieces, zeros, tail), Zeros(zeros), tail, frag, oddSize);
    var answers, rest := ChunkedSession(h, ops);
    var b := new StringBuf(AllOf(pieces));
    var answers', rest' := StringSession(b, ops);
    same := answers == answers' && rest == rest';
  }
}
