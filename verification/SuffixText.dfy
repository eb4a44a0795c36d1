/** Patterns as they are written, and what the simplest of them mean. */
module SuffixText {
  import opened Common
  import opened SuffixPattern

  /** Each range with its two ends */
  function RangesText(ranges: seq<(char, char)>): string {
    if ranges == [] then "" else [ranges[0].0, '-', ranges[0].1] + RangesText(ranges[1..])
  }

  /** A token as it is written; not says which of the two signs negates a class. */
  function TokText(t: Tok, not: char): string {
    match t
    case Lit(c) => [c]
    case AnyChar => "?"
    case Star => "*"
    case Open => "{"
    case Close => "}"
    case Class(negated, ranges) => "[" + (if negated then [not] else "") + RangesText(ranges) + "]"
  }

  function Text(toks: seq<Tok>, not: char): string {
    if toks == [] then "" else TokText(toks[0], not) + Text(toks[1..], not)
  }

  /** A literal character is not one of those with a meaning; a class has no range from `]`, and starts with
      a sign of negation only if it is negated. */
  predicate Writable(t: Tok) {
    match t
    case Lit(c) => c != '[' && c != '{' && c != '}' && c != '*' && c != '?'
    case Class(negated, ranges) =>
      && (forall r :: r in ranges ==> r.0 != ']')
      && (!negated && ranges != [] ==> ranges[0].0 != '^' && ranges[0].0 != '!')
    case _ => true
  }

  lemma {:induction false} RangesRead(re: CString, j: nat, ranges: seq<(char, char)>, rest: string)
    requires j <= |re| && re[j..] == RangesText(ranges) + "]" + rest
    requires forall r :: r in ranges ==> r.0 != ']'
    ensures Ranges(re, j) == Some((ranges, j + |RangesText(ranges)| + 1))
    decreases ranges
  {
    if ranges == [] {
      assert re[j..][0] == ']';
    } else {
      var (a, more) := (ranges[0], RangesText(ranges[1..]));
      assert re[j..] == [a.0, '-', a.1] + (more + "]" + rest);
      assert re[j] == re[j..][0] && re[j + 1] == re[j..][1] && re[j + 2] == re[j..][2];
      assert re[j + 3..] == re[j..][3..] == more + "]" + rest;
      RangesRead(re, j + 3, ranges[1..], rest);
      assert [a] + ranges[1..] == ranges;
    }
  }

  /** What stands behind a, when a stands at j */
  lemma After(re: string, j: nat, a: string, b: string)
    requires j <= |re| && re[j..] == a + b
    ensures |re| == j + |a| + |b| && re[j + |a|..] == b && (a != "" ==> re[j] == a[0])
  {
    assert re[j..][|a|..] == b;
    if a != "" {
      assert re[j..][0] == a[0];
    }
  }

  lemma Bracketed(sign: string, text: string, rest: string)
    ensures "[" + sign + text + "]" + rest == "[" + (sign + (text + "]" + rest))
  {
  }

  lemma FirstRange(ranges: seq<(char, char)>)
    ensures var body := RangesText(ranges) + "]";
            |body| > 0 && body[0] == if ranges == [] then ']' else ranges[0].0
  {
  }

  lemma ClassRead(re: CString, j: nat, negated: bool, ranges: seq<(char, char)>, not: char, rest: string)
    requires j <= |re| && re[j..] == TokText(Class(negated, ranges), not) + rest
    requires (not == '^' || not == '!') && Writable(Class(negated, ranges))
    ensures j < |re| && re[j] == '[' && Negated(re, j + 1) == negated
    ensures Ranges(re, if negated then j + 2 else j + 1) == Some((ranges, |re| - |rest|))
  {
    hide Ranges, RangesText, TokText;
    var sign := if negated then [not] else "";
    ClassText(negated, ranges, not, rest, sign);
    InBrackets(re, j, sign, ranges, rest);
  }

  lemma ClassText(negated: bool, ranges: seq<(char, char)>, not: char, rest: string, sign: string)
    requires sign == if negated then [not] else ""
    ensures TokText(Class(negated, ranges), not) + rest == "[" + (sign + (RangesText(ranges) + "]" + rest))
  {
    hide RangesText;
    Bracketed(sign, RangesText(ranges), rest);
    assert TokText(Class(negated, ranges), not) == "[" + sign + RangesText(ranges) + "]";
  }

  lemma InBrackets(re: CString, j: nat, sign: string, ranges: seq<(char, char)>, rest: string)
    requires j <= |re| && re[j..] == "[" + (sign + (RangesText(ranges) + "]" + rest))
    requires forall r :: r in ranges ==> r.0 != ']'
    ensures j + 1 + |sign| <= |re| && re[j] == '[' && (sign != "" ==> re[j + 1] == sign[0])
    ensures sign == "" ==> j + 1 < |re| && re[j + 1] == if ranges == [] then ']' else ranges[0].0
    ensures Ranges(re, j + 1 + |sign|) == Some((ranges, |re| - |rest|))
  {
    hide *;
    var body := RangesText(ranges) + "]";
    After(re, j, "[", sign + (body + rest));
    After(re, j + 1, sign, body + rest);
    var k := j + 1 + |sign|;
    After(re, k, body, rest);
    FirstRange(ranges);
    RangesRead(re, k, ranges, rest);
  }

  /** A pattern that is written so is read as the tokens that were meant. */
  lemma {:induction false} TextRead(re: CString, j: nat, toks: seq<Tok>, not: char)
    requires j <= |re| && re[j..] == Text(toks, not) && (not == '^' || not == '!')
    requires forall t :: t in toks ==> Writable(t)
    ensures Tokens(re, j) == Some(toks)
    decreases toks
  {
    hide TokText, Ranges, Writable;
    if toks != [] {
      var (t, rest) := (toks[0], Text(toks[1..], not));
      After(re, j, TokText(t, not), rest);
      TextRead(re, j + |TokText(t, not)|, toks[1..], not);
      TokenRead(re, j, t, not, rest);
      assert [t] + toks[1..] == toks;
    }
  }

  lemma TokenRead(re: CString, j: nat, t: Tok, not: char, rest: string)
    requires j <= |re| && re[j..] == TokText(t, not) + rest && (not == '^' || not == '!') && Writable(t)
    requires j + |TokText(t, not)| <= |re|
    ensures j < |re| && Tokens(re, j) == Then(t, Tokens(re, j + |TokText(t, not)|))
  {
    hide Ranges;
    After(re, j, TokText(t, not), rest);
    if t.Class? {
      ClassRead(re, j, t.negated, t.ranges, not, rest);
    }
  }

  // ----- Simple patterns -----

  function Literal(p: string): (toks: seq<Tok>)
    ensures |toks| == |p|
  {
    if p == "" then [] else [Lit(p[0])] + Literal(p[1..])
  }

  /** Characters stand for themselves ... */
  lemma {:induction false} LiteralMeans(p: string, s: string, i: nat, e: nat)
    requires i <= e <= |s|
    ensures Matches(Literal(p), s, i, e) <==> s[i..e] == p
  {
    if p != "" {
      MatchesOne(Literal(p), s, i, e);
      if i < e {
        LiteralMeans(p[1..], s, i + 1, e);
        assert s[i..e] == s[i..i + 1] + s[i + 1..e] && p == [p[0]] + p[1..];
      }
    }
  }

  /** ... with a `*` in front of them for the end of anything ... */
  lemma StarMeans(p: string, s: string)
    ensures Matches([Star] + Literal(p), s, 0, |s|) <==> |p| <= |s| && s[|s| - |p|..] == p
  {
    hide Matches, Literal;
    var toks := [Star] + Literal(p);
    assert toks[1..] == Literal(p);
    MatchesStar(toks, s, 0, |s|);
    if k: nat :| 0 <= k <= |s| && Matches(Literal(p), s, k, |s|) {
      LiteralMeans(p, s, k, |s|);
      assert s[k..|s|] == s[k..] && |s[k..]| == |s| - k;
    }
    if |p| <= |s| {
      LiteralMeans(p, s, |s| - |p|, |s|);
      assert s[|s| - |p|..|s|] == s[|s| - |p|..];
    }
  }

  /** ... each `?` for one character ... */
  lemma {:induction false} AnyMeans(n: nat, s: string, i: nat, e: nat)
    requires i <= e <= |s|
    ensures Matches(seq(n, _ => AnyChar), s, i, e) <==> e - i == n
  {
    if n > 0 {
      var toks := seq(n, _ => AnyChar);
      assert toks[1..] == seq(n - 1, _ => AnyChar);
      MatchesOne(toks, s, i, e);
      if i < e {
        AnyMeans(n - 1, s, i + 1, e);
      }
    }
  }

  /** ... and a class for one character that is between the ends of one of its ranges, or of none. */
  lemma ClassMeans(negated: bool, ranges: seq<(char, char)>, s: string)
    ensures Matches([Class(negated, ranges)], s, 0, |s|) <==>
            |s| == 1 && (negated <==> forall k :: 0 <= k < |ranges| ==> s[0] < ranges[k].0 || s[0] > ranges[k].1)
  {
    var toks := [Class(negated, ranges)];
    MatchesOne(toks, s, 0, |s|);
    assert toks[1..] == [];
    if |s| == 1 {
      assert s[0..1] == [s[0]];
      assert forall k :: 0 <= k < |ranges| ==> ranges[k] in ranges;
    }
  }
}
