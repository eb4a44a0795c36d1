/**
 The matcher for the suffix of a form type against the patterns of a setup file
 (mel and match in src/sdi_gram.c).  A pattern has literal characters, `?`, `*`, bracketed
 classes with ranges, and `{` and `}` around the part to be captured in mbeg and mend.
 */
module SuffixPattern {
  import opened Common

  /** A C string, without its terminating null */
  type CString = s: string | '\0' !in s

  datatype Tok =
    | Lit(c: char)
    | AnyChar
    | Star
    | Class(negated: bool, ranges: seq<(char, char)>)
    | Open
    | Close

  // ----- What a pattern means -----

  predicate InRanges(c: char, ranges: seq<(char, char)>) {
    exists r :: r in ranges && r.0 <= c <= r.1
  }

  /** One token accepts a piece of the subject. */
  predicate Accepts(t: Tok, piece: string) {
    match t
    case Lit(c) => piece == [c]
    case AnyChar => |piece| == 1
    case Star => true
    case Class(negated, ranges) => |piece| == 1 && InRanges(piece[0], ranges) != negated
    case Open => piece == []
    case Close => piece == []
  }

  /** s[i..e] can be cut into one piece for each token. */
  ghost predicate Matches(toks: seq<Tok>, s: string, i: nat, e: nat)
    requires i <= e <= |s|
  {
    if toks == [] then i == e
    else exists k: nat :: i <= k <= e && Matches(toks[1..], s, k, e) && Accepts(toks[0], s[i..k])
  }

  /** The ranges of a class whose text starts at j, and where the text after its `]` starts;
      None when the pattern ends first, where the C code would read past its end. */
  function Ranges(re: CString, j: nat): (r: Option<(seq<(char, char)>, nat)>)
    requires j <= |re|
    ensures r.Some? ==> j < r.value.1 <= |re|
    decreases |re| - j
  {
    if j == |re| then None
    else if re[j] == ']' then Some(([], j + 1))
    else if j + 1 < |re| && re[j + 1] == '-' then
      if j + 2 == |re| then None
      else match Ranges(re, j + 3)
        case None => None
        case Some((rs, n)) => Some(([(re[j], re[j + 2])] + rs, n))
    else match Ranges(re, j + 1)
      case None => None
      case Some((rs, n)) => Some(([(re[j], re[j])] + rs, n))
  }

  /** One item of a class */
  lemma RangesStep(re: CString, j: nat, c: char)
    requires j < |re| && re[j] != ']' && Ranges(re, j).Some?
    ensures var n := if j + 1 < |re| && re[j + 1] == '-' then j + 3 else j + 1;
            && n < |re| && Ranges(re, n).Some? && Ranges(re, n).value.1 == Ranges(re, j).value.1
            && (InRanges(c, Ranges(re, j).value.0) <==>
                  re[j] <= c <= (if n == j + 3 then re[j + 2] else re[j]) || InRanges(c, Ranges(re, n).value.0))
  {
    var n := if j + 1 < |re| && re[j + 1] == '-' then j + 3 else j + 1;
    var item := (re[j], if n == j + 3 then re[j + 2] else re[j]);
    var rs := Ranges(re, n).value.0;
    assert Ranges(re, j).value.0 == [item] + rs;
    assert forall r :: r in [item] + rs <==> r == item || r in rs;
  }

  predicate Negated(re: CString, j: nat)
    requires j <= |re|
  {
    j < |re| && (re[j] == '^' || re[j] == '!')
  }

  /** The tokens of the pattern from position j on, if all its brackets are closed */
  function Tokens(re: CString, j: nat): Option<seq<Tok>>
    requires j <= |re|
    decreases |re| - j
  {
    if j == |re| then Some([])
    else if re[j] == '[' then
      var k := if Negated(re, j + 1) then j + 2 else j + 1;
      match Ranges(re, k)
      case None => None
      case Some((rs, n)) => Then(Class(Negated(re, j + 1), rs), Tokens(re, n))
    else
      var t := match re[j] case '{' => Open case '}' => Close case '*' => Star case '?' => AnyChar case c => Lit(c);
      Then(t, Tokens(re, j + 1))
  }

  /** The token at position j, and where the next one starts */
  lemma NextToken(re: CString, j: nat)
    requires j < |re| && Tokens(re, j).Some?
    ensures Tokens(re, j).value != []
    ensures re[j] != '[' ==> Tokens(re, j + 1) == Some(Tokens(re, j).value[1..])
    ensures re[j] == '[' ==>
              var r := Ranges(re, if Negated(re, j + 1) then j + 2 else j + 1);
              r.Some? && Tokens(re, r.value.1) == Some(Tokens(re, j).value[1..]) &&
                Tokens(re, j).value[0] == Class(Negated(re, j + 1), r.value.0)
  {
  }

  function Then(t: Tok, rest: Option<seq<Tok>>): Option<seq<Tok>> {
    match rest case None => None case Some(ts) => Some([t] + ts)
  }

  /** What the globals mbeg and mend become when toks is matched against the rest of s from i,
      each `*` taking as little as it can. */
  ghost function Walk(toks: seq<Tok>, s: string, i: nat, mbeg: Option<nat>, mend: Option<nat>)
    : (Option<nat>, Option<nat>)
    requires i <= |s| && Matches(toks, s, i, |s|)
  {
    if toks == [] then (mbeg, if mend == None then Some(i) else mend)
    else match toks[0]
      case Open => Walk(toks[1..], s, i, Some(i), mend)
      case Close => Walk(toks[1..], s, i, mbeg, Some(i))
      case Star => MatchesStar(toks, s, i, |s|); Walk(toks[1..], s, Least(toks[1..], s, i), mbeg, mend)
      case _ => Walk(toks[1..], s, i + 1, mbeg, mend)
  }

  /** The first position from i on where the rest of the pattern matches the rest of the subject */
  ghost function Least(toks: seq<Tok>, s: string, i: nat): (k: nat)
    requires i <= |s| && exists k: nat :: i <= k <= |s| && Matches(toks, s, k, |s|)
    ensures i <= k <= |s| && Matches(toks, s, k, |s|)
    ensures forall m :: i <= m < k ==> !Matches(toks, s, m, |s|)
    decreases |s| - i
  {
    if Matches(toks, s, i, |s|) then i else Least(toks, s, i + 1)
  }

  lemma NoTokens(s: string, i: nat)
    requires i <= |s|
    ensures forall k: nat :: i <= k <= |s| ==> (Matches([], s, k, |s|) <==> k == |s|)
  {
  }

  predicate TakesOne(t: Tok) {
    t.Lit? || t.AnyChar? || t.Class?
  }

  lemma MatchesOne(toks: seq<Tok>, s: string, i: nat, e: nat)
    requires i <= e <= |s| && toks != [] && TakesOne(toks[0])
    ensures Matches(toks, s, i, e) <==> i < e && Accepts(toks[0], s[i..i + 1]) && Matches(toks[1..], s, i + 1, e)
  {
    forall k | i <= k <= e && Accepts(toks[0], s[i..k])
      ensures k == i + 1
    {
    }
  }

  lemma MatchesNone(toks: seq<Tok>, s: string, i: nat, e: nat)
    requires i <= e <= |s| && toks != [] && (toks[0].Open? || toks[0].Close?)
    ensures Matches(toks, s, i, e) <==> Matches(toks[1..], s, i, e)
  {
    assert s[i..i] == [];
  }

  /** Both facts at every position up to the end */
  lemma MatchesOneEach(toks: seq<Tok>, s: string)
    requires toks != [] && TakesOne(toks[0])
    ensures forall i: nat | i <= |s| :: Matches(toks, s, i, |s|) <==>
              i < |s| && Accepts(toks[0], s[i..i + 1]) && Matches(toks[1..], s, i + 1, |s|)
  {
    forall i: nat | i <= |s| { MatchesOne(toks, s, i, |s|); }
  }

  lemma MatchesNoneEach(toks: seq<Tok>, s: string)
    requires toks != [] && (toks[0].Open? || toks[0].Close?)
    ensures forall i: nat | i <= |s| :: Matches(toks, s, i, |s|) <==> Matches(toks[1..], s, i, |s|)
  {
    forall i: nat | i <= |s| { MatchesNone(toks, s, i, |s|); }
  }

  lemma MatchesStar(toks: seq<Tok>, s: string, i: nat, e: nat)
    requires i <= e <= |s| && toks != [] && toks[0].Star?
    ensures Matches(toks, s, i, e) <==> exists k: nat :: i <= k <= e && Matches(toks[1..], s, k, e)
  {
    if Matches(toks, s, i, e) {
      var k: nat :| i <= k <= e && Matches(toks[1..], s, k, e) && Accepts(toks[0], s[i..k]);
      assert i <= k <= e && Matches(toks[1..], s, k, e);
    }
  }

  lemma MatchesStarFrom(toks: seq<Tok>, s: string, i: nat)
    requires i <= |s| && toks != [] && toks[0].Star?
    ensures Matches(toks, s, i, |s|) <==> exists k: nat :: i <= k <= |s| && Matches(toks[1..], s, k, |s|)
    ensures !Matches(toks, s, i, |s|) ==> forall k: nat :: i <= k <= |s| ==> !Matches(toks, s, k, |s|)
  {
    MatchesStar(toks, s, i, |s|);
    forall k: nat | i <= k <= |s| { MatchesStar(toks, s, k, |s|); }
  }

  /** The old value of a global does not matter to a pattern that sets it. */
  lemma {:induction false} WalkForgets(toks: seq<Tok>, s: string, i: nat,
                                       mbeg: Option<nat>, mend: Option<nat>, mbeg': Option<nat>, mend': Option<nat>)
    requires i <= |s| && Matches(toks, s, i, |s|)
    requires Open !in toks ==> mbeg == mbeg'
    requires Close !in toks ==> mend == mend'
    ensures Walk(toks, s, i, mbeg, mend) == Walk(toks, s, i, mbeg', mend')
  {
    if toks != [] {
      assert forall t :: t in toks <==> t == toks[0] || t in toks[1..];
      match toks[0]
      case Open => WalkForgets(toks[1..], s, i, Some(i), mend, Some(i), mend');
      case Close => WalkForgets(toks[1..], s, i, mbeg, Some(i), mbeg', Some(i));
      case Star => WalkForgets(toks[1..], s, Least(toks[1..], s, i), mbeg, mend, mbeg', mend');
      case _ => WalkForgets(toks[1..], s, i + 1, mbeg, mend, mbeg', mend');
    }
  }

  // ----- The matcher -----

  class Matcher {
    const suffix: CString
    var mbeg: Option<nat>    // positions in the suffix; None is the null pointer
    var mend: Option<nat>

    constructor (suffix: CString)
      ensures this.suffix == suffix
    {
      this.suffix := suffix;
      mbeg, mend := None, None;
    }

    /** What an answer of mel says about the rest of the suffix from a on */
    ghost predicate Answers(r: int, a: nat, toks: seq<Tok>)
      requires a <= |suffix|
    {
      && (r == 1 || r == 0 || r == -1)
      && (r == 1 <==> Matches(toks, suffix, a, |suffix|))
      && (r == -1 ==> forall k :: a <= k <= |suffix| ==> !Matches(toks, suffix, k, |suffix|))
      && (a == |suffix| ==> r != 0)
    }

    /** What mel may answer at a token that takes one character */
    lemma FirstTakesOne(toks: seq<Tok>, a: nat)
      requires a <= |suffix| && toks != [] && TakesOne(toks[0])
      ensures a == |suffix| ==> Answers(-1, a, toks)
      ensures a < |suffix| && !Accepts(toks[0], suffix[a..a + 1]) ==> Answers(0, a, toks)
      ensures a < |suffix| && Accepts(toks[0], suffix[a..a + 1]) ==>
                forall r :: Answers(r, a + 1, toks[1..]) ==> Answers(r, a, toks)
    {
      hide Matches;
      MatchesOneEach(toks, suffix);
    }

    /** What it may answer at a brace */
    lemma FirstTakesNone(toks: seq<Tok>, a: nat)
      requires a <= |suffix| && toks != [] && (toks[0].Open? || toks[0].Close?)
      ensures forall r :: Answers(r, a, toks[1..]) ==> Answers(r, a, toks)
    {
      hide Matches;
      MatchesNoneEach(toks, suffix);
    }

    /** The class loop of mel: is c in one of the ranges, and where does the class end? */
    method InClass(re: CString, start: nat, c: char) returns (had: bool, b: nat)
      requires start <= |re| && Ranges(re, start).Some?
      ensures had == InRanges(c, Ranges(re, start).value.0)
      ensures b + 1 == Ranges(re, start).value.1 && b < |re| && re[b] == ']'
    {
      had, b := false, start;
      while re[b] != ']'
        invariant b < |re| && Ranges(re, b).Some?
        invariant Ranges(re, b).value.1 == Ranges(re, start).value.1
        invariant InRanges(c, Ranges(re, start).value.0) == (had || InRanges(c, Ranges(re, b).value.0))
        decreases |re| - b
      {
        RangesStep(re, b, c);
        var first, last := re[b], re[b];
        b := b + 1;
        if b < |re| && re[b] == '-' {
          b := b + 1;
          last := re[b];
          b := b + 1;
        }
        if first <= c <= last {
          had := true;
        }
      }
    }

    /** mel: 1 for a match, 0 for none, -1 when not even a shorter rest of the suffix can match */
    method Mel(a: nat, re: CString, b: nat) returns (r: int)
      requires a <= |suffix| && b <= |re| && Tokens(re, b).Some?
      modifies this
      ensures Answers(r, a, Tokens(re, b).value)
      ensures r == 1 ==> (mbeg, mend) == Walk(Tokens(re, b).value, suffix, a, old(mbeg), old(mend))
      ensures Open !in Tokens(re, b).value ==> mbeg == old(mbeg)
      ensures r != 1 && Close !in Tokens(re, b).value ==> mend == old(mend)
      decreases |re| - b, 1
    {
      hide Matches;
      if b == |re| {
        NoTokens(suffix, a);
        if a < |suffix| {
          return 0;
        }
        if mend == None {
          mend := Some(a);
        }
        return 1;
      }
      ghost var toks := Tokens(re, b).value;
      NextToken(re, b);
      assert toks == [toks[0]] + toks[1..];
      match re[b] {
        case '{' =>
          FirstTakesNone(toks, a);
          mbeg := Some(a);
          r := Mel(a, re, b + 1);
        case '}' =>
          FirstTakesNone(toks, a);
          mend := Some(a);
          r := Mel(a, re, b + 1);
        case '*' =>
          r := MelStar(a, re, b + 1);
          MatchesStarFrom(toks, suffix, a);
        case '?' =>
          FirstTakesOne(toks, a);
          if a == |suffix| {
            return -1;
          }
          r := Mel(a + 1, re, b + 1);
        case '[' =>
          r := MelClass(a, re, b);
        case c =>
          FirstTakesOne(toks, a);
          if a == |suffix| {
            return -1;
          }
          if suffix[a] != c {
            return 0;
          }
          r := Mel(a + 1, re, b + 1);
      }
    }

    /** The `[` case of mel */
    method MelClass(a: nat, re: CString, b: nat) returns (r: int)
      requires a <= |suffix| && b < |re| && re[b] == '[' && Tokens(re, b).Some?
      modifies this
      ensures Answers(r, a, Tokens(re, b).value)
      ensures r == 1 ==> (mbeg, mend) == Walk(Tokens(re, b).value, suffix, a, old(mbeg), old(mend))
      ensures Open !in Tokens(re, b).value ==> mbeg == old(mbeg)
      ensures r != 1 && Close !in Tokens(re, b).value ==> mend == old(mend)
      decreases |re| - b, 0
    {
      hide Matches, Tokens, Ranges;
      ghost var toks := Tokens(re, b).value;
      NextToken(re, b);
      assert toks == [toks[0]] + toks[1..];
      FirstTakesOne(toks, a);
      if a == |suffix| {
        return -1;
      }
      var not := Negated(re, b + 1);
      var had, e := InClass(re, if not then b + 2 else b + 1, suffix[a]);
      if had == not {
        return 0;
      }
      r := Mel(a + 1, re, e + 1);
    }

    /** The `*` case of mel, with b already behind the `*`.  The early exit when no rest of the
        suffix can match is sound, and makes the loop stop at the end of the suffix. */
    method MelStar(start: nat, re: CString, b: nat) returns (r: int)
      requires start <= |suffix| && b <= |re| && Tokens(re, b).Some?
      modifies this
      ensures r == 1 <==> exists k: nat :: start <= k <= |suffix| && Matches(Tokens(re, b).value, suffix, k, |suffix|)
      ensures r == 1 || r == -1
      ensures r == 1 ==>
                (mbeg, mend) ==
                Walk(Tokens(re, b).value, suffix, Least(Tokens(re, b).value, suffix, start), old(mbeg), old(mend))
      ensures Open !in Tokens(re, b).value ==> mbeg == old(mbeg)
      ensures r != 1 && Close !in Tokens(re, b).value ==> mend == old(mend)
      decreases |re| - b, 2
    {
      hide Matches, Least, Walk, Tokens;
      var a := start;
      ghost var toks := Tokens(re, b).value;
      while true
        invariant start <= a <= |suffix|
        invariant forall k :: start <= k < a ==> !Matches(toks, suffix, k, |suffix|)
        invariant Open !in toks ==> mbeg == old(mbeg)
        invariant Close !in toks ==> mend == old(mend)
        decreases |suffix| - a
      {
        ghost var mbeg0, mend0 := mbeg, mend;
        r := Mel(a, re, b);
        if r == 1 {
          WalkForgets(toks, suffix, a, mbeg0, mend0, old(mbeg), old(mend));
          assert start <= a <= |suffix| && Matches(toks, suffix, a, |suffix|);
          return 1;
        }
        if r < 0 {
          return -1;
        }
        a := a + 1;
      }
    }

    /** match: `@` stands for the empty suffix, whatever follows it in the pattern. */
    method Match(re: CString) returns (r: bool)
      requires AtSign(re) || Tokens(re, 0).Some?
      modifies this
      ensures r <==> Applies(re, suffix)
      ensures r && !AtSign(re) ==> (mbeg, mend) == Walk(Tokens(re, 0).value, suffix, 0, None, None)
      ensures AtSign(re) ==> mbeg == old(mbeg) && mend == old(mend)
    {
      if re != "" && re[0] == '@' {
        return suffix == "";
      }
      mbeg := None;
      mend := None;
      var m := Mel(0, re, 0);
      return m > 0;
    }
  }

  predicate AtSign(re: CString) {
    re != "" && re[0] == '@'
  }

  ghost predicate Applies(re: CString, s: string)
    requires AtSign(re) || Tokens(re, 0).Some?
  {
    if AtSign(re) then s == "" else Matches(Tokens(re, 0).value, s, 0, |s|)
  }

  // ----- What is captured -----

  predicate Plain(toks: seq<Tok>) {
    Open !in toks && Close !in toks
  }

  lemma {:induction false} MatchesConcat(x: seq<Tok>, y: seq<Tok>, s: string, i: nat, m: nat, e: nat)
    requires i <= m <= e <= |s| && Matches(x, s, i, m) && Matches(y, s, m, e)
    ensures Matches(x + y, s, i, e)
  {
    if x == [] {
      assert x + y == y;
    } else {
      var k: nat :| i <= k <= m && Matches(x[1..], s, k, m) && Accepts(x[0], s[i..k]);
      MatchesConcat(x[1..], y, s, k, m, e);
      assert (x + y)[1..] == x[1..] + y;
    }
  }

  /** Behind the `}` both marks are set for good. */
  lemma {:induction false} WalkTail(toks: seq<Tok>, s: string, i: nat, mbeg: nat, mend: nat)
    requires i <= |s| && Matches(toks, s, i, |s|) && Plain(toks)
    ensures Walk(toks, s, i, Some(mbeg), Some(mend)) == (Some(mbeg), Some(mend))
  {
    if toks != [] {
      assert toks[0] in toks && forall t :: t in toks[1..] ==> t in toks;
      if toks[0].Star? {
        MatchesStar(toks, s, i, |s|);
        WalkTail(toks[1..], s, Least(toks[1..], s, i), mbeg, mend);
      } else {
        MatchesOne(toks, s, i, |s|);
        WalkTail(toks[1..], s, i + 1, mbeg, mend);
      }
    }
  }

  lemma CloseHere(tail: seq<Tok>, s: string, i: nat, mbeg: nat, mend: Option<nat>)
    requires Plain(tail) && i <= |s| && Matches([] + [Close] + tail, s, i, |s|)
    ensures Matches([], s, i, i) && Matches(tail, s, i, |s|)
    ensures Walk([Close] + tail, s, i, Some(mbeg), mend) == (Some(mbeg), Some(i))
  {
    var toks := [Close] + tail;
    assert toks == [] + [Close] + tail && toks[1..] == tail;
    MatchesNone(toks, s, i, |s|);
    WalkTail(tail, s, i, mbeg, i);
  }

  /** `}` goes to the first place where the part before it has matched and the rest still can:
      no way of matching that starts here or later puts it earlier. */
  lemma {:induction false} WalkClose(mid: seq<Tok>, tail: seq<Tok>, s: string, i: nat, mbeg: nat, mend: Option<nat>)
    returns (q: nat)
    requires Plain(mid) && Plain(tail)
    requires i <= |s| && Matches(mid + [Close] + tail, s, i, |s|)
    ensures i <= q <= |s| && Matches(mid, s, i, q) && Matches(tail, s, q, |s|)
    ensures Walk(mid + [Close] + tail, s, i, Some(mbeg), mend) == (Some(mbeg), Some(q))
    ensures forall i': nat, q': nat ::
              i <= i' <= q' <= |s| && Matches(mid, s, i', q') && Matches(tail, s, q', |s|) ==> q <= q'
  {
    hide Matches;
    var toks := mid + [Close] + tail;
    if mid == [] {
      q := i;
      CloseHere(tail, s, i, mbeg, mend);
      assert toks == [Close] + tail;
    } else {
      var rest := mid[1..] + [Close] + tail;
      assert toks[1..] == rest && toks[0] == mid[0];
      assert mid[0] in mid && forall t :: t in mid[1..] ==> t in mid;
      if mid[0].Star? {
        MatchesStar(toks, s, i, |s|);
        var k := Least(rest, s, i);
        q := WalkClose(mid[1..], tail, s, k, mbeg, mend);
        MatchesStar(mid, s, i, q);
        assert i <= k <= q && Matches(mid[1..], s, k, q);
        forall i': nat, q': nat | i <= i' <= q' <= |s| && Matches(mid, s, i', q') && Matches(tail, s, q', |s|)
          ensures q <= q'
        {
          MatchesStar(mid, s, i', q');
          var k': nat :| i' <= k' <= q' && Matches(mid[1..], s, k', q');
          CloseConcat(mid[1..], tail, s, k', q');
        }
      } else {
        MatchesOne(toks, s, i, |s|);
        q := WalkClose(mid[1..], tail, s, i + 1, mbeg, mend);
        MatchesOne(mid, s, i, q);
        forall i': nat, q': nat | i <= i' <= q' <= |s| && Matches(mid, s, i', q') && Matches(tail, s, q', |s|)
          ensures q <= q'
        {
          MatchesOne(mid, s, i', q');
        }
      }
    }
  }

  lemma CloseConcat(mid: seq<Tok>, tail: seq<Tok>, s: string, i: nat, q: nat)
    requires i <= q <= |s| && Matches(mid, s, i, q) && Matches(tail, s, q, |s|)
    ensures Matches(mid + [Close] + tail, s, i, |s|)
  {
    assert ([Close] + tail)[1..] == tail;
    MatchesNone([Close] + tail, s, q, |s|);
    MatchesConcat(mid, [Close] + tail, s, i, q, |s|);
    assert mid + ([Close] + tail) == mid + [Close] + tail;
  }

  lemma OpenConcat(head: seq<Tok>, mid: seq<Tok>, tail: seq<Tok>, s: string, i: nat, p: nat, q: nat)
    requires i <= p <= q <= |s| && Matches(head, s, i, p) && Matches(mid, s, p, q) && Matches(tail, s, q, |s|)
    ensures Matches(Braced(head, mid, tail), s, i, |s|)
  {
    var inner := mid + [Close] + tail;
    CloseConcat(mid, tail, s, p, q);
    assert ([Open] + inner)[1..] == inner;
    MatchesNone([Open] + inner, s, p, |s|);
    MatchesConcat(head, [Open] + inner, s, i, p, |s|);
  }

  /** A pattern with one pair of braces */
  function Braced(head: seq<Tok>, mid: seq<Tok>, tail: seq<Tok>): seq<Tok> {
    head + ([Open] + (mid + [Close] + tail))
  }

  /** The rest of s from i on, cut at p and q into parts that match before, inside and after the braces */
  ghost predicate Cut(head: seq<Tok>, mid: seq<Tok>, tail: seq<Tok>, s: string, i: nat, p: nat, q: nat) {
    i <= p <= q <= |s| && Matches(head, s, i, p) && Matches(mid, s, p, q) && Matches(tail, s, q, |s|)
  }

  lemma CaptureHere(mid: seq<Tok>, tail: seq<Tok>, s: string, i: nat, mbeg: Option<nat>, mend: Option<nat>)
    returns (q: nat)
    requires Plain(mid) && Plain(tail)
    requires i <= |s| && Matches(Braced([], mid, tail), s, i, |s|)
    ensures Walk(Braced([], mid, tail), s, i, mbeg, mend) == (Some(i), Some(q))
    ensures Cut([], mid, tail, s, i, i, q)
    ensures forall i': nat, p': nat, q': nat :: i <= i' && Cut([], mid, tail, s, i', p', q') ==> i <= p' && q <= q'
  {
    var toks := Braced([], mid, tail);
    assert toks[1..] == mid + [Close] + tail;
    MatchesNone(toks, s, i, |s|);
    q := WalkClose(mid, tail, s, i, i, mend);
  }

  lemma CutBehindStar(head: seq<Tok>, mid: seq<Tok>, tail: seq<Tok>, s: string, i: nat, i': nat, p: nat, q: nat)
    returns (k: nat)
    requires head != [] && head[0].Star? && i <= i' && Cut(head, mid, tail, s, i', p, q)
    requires exists k: nat :: i <= k <= |s| && Matches(Braced(head[1..], mid, tail), s, k, |s|)
    ensures Cut(head[1..], mid, tail, s, k, p, q) && Least(Braced(head[1..], mid, tail), s, i) <= k
  {
    MatchesStar(head, s, i', p);
    k :| i' <= k <= p && Matches(head[1..], s, k, p);
    OpenConcat(head[1..], mid, tail, s, k, p, q);
  }

  /** For a pattern with one pair of braces, mbeg and mend cut a matching suffix into parts that
      match before, inside and after the braces; and of all such cuts they are the earliest,
      both ends at once. */
  lemma {:induction false} CaptureSplits(head: seq<Tok>, mid: seq<Tok>, tail: seq<Tok>, s: string, i: nat,
                                         mbeg: Option<nat>, mend: Option<nat>)
      returns (p: nat, q: nat)
    requires Plain(head) && Plain(mid) && Plain(tail)
    requires i <= |s| && Matches(Braced(head, mid, tail), s, i, |s|)
    ensures Walk(Braced(head, mid, tail), s, i, mbeg, mend) == (Some(p), Some(q))
    ensures Cut(head, mid, tail, s, i, p, q)
    ensures forall i': nat, p': nat, q': nat :: i <= i' && Cut(head, mid, tail, s, i', p', q') ==> p <= p' && q <= q'
  {
    hide Matches;
    var toks := Braced(head, mid, tail);
    if head == [] {
      p := i;
      q := CaptureHere(mid, tail, s, i, mbeg, mend);
    } else {
      var rest := Braced(head[1..], mid, tail);
      assert toks[1..] == rest && toks[0] == head[0];
      assert head[0] in head && forall t :: t in head[1..] ==> t in head;
      if head[0].Star? {
        MatchesStar(toks, s, i, |s|);
        var k := Least(rest, s, i);
        p, q := CaptureSplits(head[1..], mid, tail, s, k, mbeg, mend);
        MatchesStar(head, s, i, p);
        assert i <= k <= p && Matches(head[1..], s, k, p);
        forall i': nat, p': nat, q': nat | i <= i' && Cut(head, mid, tail, s, i', p', q')
          ensures p <= p' && q <= q'
        {
          var k' := CutBehindStar(head, mid, tail, s, i, i', p', q');
        }
      } else {
        MatchesOne(toks, s, i, |s|);
        p, q := CaptureSplits(head[1..], mid, tail, s, i + 1, mbeg, mend);
        MatchesOne(head, s, i, p);
        forall i': nat, p': nat, q': nat | i <= i' && Cut(head, mid, tail, s, i', p', q')
          ensures p <= p' && q <= q'
        {
          MatchesOne(head, s, i', p');
          assert Cut(head[1..], mid, tail, s, i' + 1, p', q');
        }
      }
    }
  }
}
