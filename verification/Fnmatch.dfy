/** Shell-style pattern matching, and the escaping of literal names. */
module Fnmatch {

  /** Characters of a string, or bytes: only their order and these codes matter. */
  type Text = seq<int>

  const STAR := 42
  const QUESTION := 63
  const OPEN := 91
  const CLOSE := 93
  const BANG := 33
  const DASH := 45

  // ----- what a pattern means

  datatype Token = Star | Any | Lit(c: int) | Class(negate: bool, ranges: seq<(int, int)>)

  ghost predicate InRanges(c: int, ranges: seq<(int, int)>) {
    exists i :: 0 <= i < |ranges| && ranges[i].0 <= c <= ranges[i].1
  }

  /** A token other than a star matches one character. */
  ghost predicate MatchesOne(t: Token, c: int) {
    match t
    case Star => false
    case Any => true
    case Lit(d) => c == d
    case Class(negate, ranges) => InRanges(c, ranges) != negate
  }

  /** The declarative match relation: a star stands for any characters. */
  ghost predicate Matches(ts: seq<Token>, n: Text) {
    if ts == [] then n == []
    else if ts[0] == Star then exists k :: 0 <= k <= |n| && Matches(ts[1..], n[k..])
    else n != [] && MatchesOne(ts[0], n[0]) && Matches(ts[1..], n[1..])
  }

  // ----- how a pattern is read

  /** The first closing bracket from i on, or -1. */
  function FindClose(s: Text, i: nat): (e: int)
    ensures e == -1 || (i <= e < |s| && s[e] == CLOSE)
    decreases |s| - i
  {
    if i >= |s| then -1 else if s[i] == CLOSE then i else FindClose(s, i + 1)
  }

  /** After the bracket, a leading `!` and then a leading `]` do not close the class. */
  function AfterBang(s: Text): nat { if 1 < |s| && s[1] == BANG then 2 else 1 }

  function ClassBody(s: Text): nat {
    var i := AfterBang(s);
    if i < |s| && s[i] == CLOSE then i + 1 else i
  }

  /** Where the class that opens s ends, or -1 if it is never closed. */
  function ClassEnd(s: Text): (e: int)
    ensures e == -1 || (2 <= e < |s| && s[e] == CLOSE && AfterBang(s) < |s|)
  {
    FindClose(s, ClassBody(s))
  }

  /** The single characters and ranges between i and the end of the class. */
  function Ranges(s: Text, i: nat, end: nat): seq<(int, int)>
    requires end <= |s|
    decreases end - i
  {
    if i >= end then []
    else if i + 2 < end && s[i + 1] == DASH then [(s[i], s[i + 2])] + Ranges(s, i + 3, end)
    else [(s[i], s[i])] + Ranges(s, i + 1, end)
  }

  function ClassToken(s: Text, end: nat): Token
    requires end < |s|
  {
    var i := AfterBang(s);
    var literal := if i < end && s[i] == CLOSE then [(CLOSE, CLOSE)] else [];
    Class(i == 2 && 1 < end, literal + Ranges(s, if literal == [] then i else i + 1, end))
  }

  /** The token that starts s and its length; a bracket that is never closed is a literal. */
  function FirstToken(s: Text): (r: (Token, nat))
    requires s != []
    ensures 0 < r.1 <= |s| && (r.0 == Star <==> s[0] == STAR)
  {
    if s[0] == STAR then (Star, 1)
    else if s[0] == QUESTION then (Any, 1)
    else if s[0] == OPEN && ClassEnd(s) >= 0 then (ClassToken(s, ClassEnd(s)), ClassEnd(s) + 1)
    else (Lit(s[0]), 1)
  }

  function Tokens(s: Text): seq<Token> {
    if s == [] then [] else [FirstToken(s).0] + Tokens(s[FirstToken(s).1..])
  }

  lemma {:induction false} TokensAt(pat: Text, p: nat)
    requires p < |pat|
    ensures Tokens(pat[p..]) == [FirstToken(pat[p..]).0] + Tokens(pat[p + FirstToken(pat[p..]).1..])
  {
    var n := FirstToken(pat[p..]).1;
    assert pat[p..][n..] == pat[p + n..];
  }

  // ----- the matcher

  method FindClassEnd(pat: Text, start: nat) returns (end: int)
    requires start < |pat|
    ensures end == if ClassEnd(pat[start..]) < 0 then -1 else start + ClassEnd(pat[start..])
  {
    ghost var s := pat[start..];
    var idx := start + 1;
    if idx < |pat| && pat[idx] == BANG {
      idx := idx + 1;
    }
    if idx < |pat| && pat[idx] == CLOSE {
      idx := idx + 1;
    }
    assert idx - start == ClassBody(s);
    while idx < |pat| && pat[idx] != CLOSE
      invariant start < idx && idx - start <= |s| + 1
      invariant FindClose(s, idx - start) == ClassEnd(s)
    {
      idx := idx + 1;
    }
    if idx >= |pat| {
      return -1;
    }
    return idx;
  }

  /** Ranges depend only on the characters read. */
  lemma {:induction false} SameRanges(s: Text, i: nat, e: nat, t: Text, j: nat, f: nat)
    requires i <= e <= |s| && j <= f <= |t| && e - i == f - j
    requires s[i..e] == t[j..f]
    ensures Ranges(s, i, e) == Ranges(t, j, f)
    decreases e - i
  {
    if i < e {
      assert s[i] == s[i..e][0] && t[j] == t[j..f][0];
      if i + 2 < e {
        assert s[i + 1] == s[i..e][1] && t[j + 1] == t[j..f][1];
        assert s[i + 2] == s[i..e][2] && t[j + 2] == t[j..f][2];
      }
      var step := if i + 2 < e && s[i + 1] == DASH then 3 else 1;
      assert s[i + step..e] == s[i..e][step..] && t[j + step..f] == t[j..f][step..];
      SameRanges(s, i + step, e, t, j + step, f);
    }
  }

  /** The loop over the characters and ranges of a class. */
  method MatchesRanges(ch: int, pat: Text, from: nat, end: nat) returns (matched: bool)
    requires end <= |pat|
    ensures matched <==> InRanges(ch, Ranges(pat, from, end))
  {
    matched := false;
    var idx := from;
    while idx < end
      invariant InRanges(ch, Ranges(pat, from, end)) <==> matched || InRanges(ch, Ranges(pat, idx, end))
      decreases end - idx
    {
      var first, last, step := pat[idx], pat[idx], 1;
      if idx + 2 < end && pat[idx + 1] == DASH {
        last, step := pat[idx + 2], 3;
      }
      RangesStep(ch, pat, idx, end);
      if first <= last && first <= ch && ch <= last {
        matched := true;
      }
      idx := idx + step;
    }
  }

  lemma {:induction false} RangesStep(ch: int, pat: Text, i: nat, end: nat)
    requires i < end <= |pat|
    ensures var isRange := i + 2 < end && pat[i + 1] == DASH;
      InRanges(ch, Ranges(pat, i, end)) <==>
      pat[i] <= ch <= (if isRange then pat[i + 2] else pat[i])
      || InRanges(ch, Ranges(pat, i + (if isRange then 3 else 1), end))
  {
    var isRange := i + 2 < end && pat[i + 1] == DASH;
    var one := [(pat[i], if isRange then pat[i + 2] else pat[i])];
    assert InRanges(ch, one) <==> one[0].0 <= ch <= one[0].1;
    EitherRanges(ch, one, Ranges(pat, i + (if isRange then 3 else 1), end));
  }

  /** The class token in terms of offsets into the whole pattern. */
  lemma {:induction false} ClassTokenAt(pat: Text, start: nat, end: nat)
    requires start + 2 <= end < |pat|
    ensures var negate := pat[start + 1] == BANG;
      var i := if negate then start + 2 else start + 1;
      var literal := if i < end && pat[i] == CLOSE then [(CLOSE, CLOSE)] else [];
      ClassToken(pat[start..], end - start) == Class(negate, literal + Ranges(pat, i + |literal|, end))
  {
    var s, e := pat[start..], end - start;
    var i := AfterBang(s);
    var j := if i < e && s[i] == CLOSE then i + 1 else i;
    assert s[1] == pat[start + 1] && s[i] == pat[start + i];
    SliceOfSlice(pat, start, j, end);
    SameRanges(s, j, e, pat, start + j, end);
  }

  lemma SliceOfSlice(s: Text, start: nat, j: nat, end: nat)
    requires start + j <= end <= |s|
    ensures s[start..][j..end - start] == s[start + j..end]
  {}

  lemma {:induction false} ClassDecides(ch: int, pat: Text, start: nat, end: nat, i: nat, literal: bool)
    requires start + 2 <= end < |pat|
    requires i == if pat[start + 1] == BANG then start + 2 else start + 1
    requires literal <==> i < end && pat[i] == CLOSE
    ensures MatchesOne(ClassToken(pat[start..], end - start), ch) <==>
      ((literal && ch == CLOSE) || InRanges(ch, Ranges(pat, if literal then i + 1 else i, end)))
        != (pat[start + 1] == BANG)
  {
    ClassTokenAt(pat, start, end);
    var one: seq<(int, int)> := if literal then [(CLOSE, CLOSE)] else [];
    EitherRanges(ch, one, Ranges(pat, i + |one|, end));
    if literal {
      assert one[0].0 <= ch <= one[0].1 <==> ch == CLOSE;
    }
  }

  method ClassMatches(ch: int, pat: Text, start: nat, end: nat) returns (b: bool)
    requires start + 2 <= end < |pat|
    ensures b == MatchesOne(ClassToken(pat[start..], end - start), ch)
  {
    var idx := start + 1;
    var negate := false;
    if idx < end && pat[idx] == BANG {
      negate := true;
      idx := idx + 1;
    }
    ClassDecides(ch, pat, start, end, idx, idx < end && pat[idx] == CLOSE);
    var matched := false;
    if idx < end && pat[idx] == CLOSE {
      if ch == CLOSE {
        matched := true;
      }
      idx := idx + 1;
    }
    var listed := MatchesRanges(ch, pat, idx, end);
    matched := matched || listed;
    return if negate then !matched else matched;
  }

  lemma EitherRanges(c: int, rs: seq<(int, int)>, qs: seq<(int, int)>)
    ensures InRanges(c, rs + qs) <==> InRanges(c, rs) || InRanges(c, qs)
  {
    var all := rs + qs;
    if InRanges(c, rs) {
      var i :| 0 <= i < |rs| && rs[i].0 <= c <= rs[i].1;
      assert all[i] == rs[i];
    }
    if InRanges(c, qs) {
      var i :| 0 <= i < |qs| && qs[i].0 <= c <= qs[i].1;
      assert all[|rs| + i] == qs[i];
    }
    if InRanges(c, all) {
      var i :| 0 <= i < |all| && all[i].0 <= c <= all[i].1;
      assert i < |rs| ==> rs[i] == all[i];
      assert i >= |rs| ==> qs[i - |rs|] == all[i];
    }
  }

  /** Adjacent stars mean one. */
  lemma {:induction false} StarStar(ts: seq<Token>, n: Text)
    requires ts != [] && ts[0] == Star
    ensures Matches([Star] + ts, n) <==> Matches(ts, n)
  {
    assert ([Star] + ts)[1..] == ts;
    if Matches([Star] + ts, n) {
      var k :| 0 <= k <= |n| && Matches(ts, n[k..]);
      var j :| 0 <= j <= |n[k..]| && Matches(ts[1..], n[k..][j..]);
      assert n[k..][j..] == n[k + j..];
    }
    if Matches(ts, n) {
      assert n[0..] == n;
    }
  }

  /** The rest of the pattern from p matches the rest of the name from i. */
  ghost predicate MatchesFrom(pat: Text, p: nat, name: Text, i: nat)
    requires p <= |pat| && i <= |name|
  {
    Matches(Tokens(pat[p..]), name[i..])
  }

  /** One character for one token that is not a star. */
  lemma {:induction false} OneToken(pat: Text, p: nat, name: Text, i: nat)
    requires p < |pat| && pat[p] != STAR && i <= |name|
    ensures var (t, n) := FirstToken(pat[p..]);
      MatchesFrom(pat, p, name, i) <==>
        i < |name| && MatchesOne(t, name[i]) && MatchesFrom(pat, p + n, name, i + 1)
  {
    TokensAt(pat, p);
    var (t, n) := FirstToken(pat[p..]);
    var ts := Tokens(pat[p + n..]);
    assert ([t] + ts)[1..] == ts;
    if i < |name| {
      assert name[i..][1..] == name[i + 1..];
    }
  }

  lemma PatternDone(pat: Text, name: Text, i: nat)
    requires i <= |name|
    ensures MatchesFrom(pat, |pat|, name, i) <==> i == |name|
  {
    assert pat[|pat|..] == [];
  }

  /** One round of the matcher at a token that is not a star. */
  method MatchToken(name: Text, pat: Text, i: nat, p: nat) returns (ok: bool, next: nat)
    requires i <= |name| && p < |pat| && pat[p] != STAR
    ensures p < next <= |pat|
    ensures ok ==> i < |name| && (MatchesFrom(pat, p, name, i) <==> MatchesFrom(pat, next, name, i + 1))
    ensures !ok ==> !MatchesFrom(pat, p, name, i)
  {
    OneToken(pat, p, name, i);
    if i >= |name| {
      return false, p + 1;
    }
    ok, next := MatchOneAt(name[i], pat, p);
  }

  /** Decides the match relation of the tokenized pattern. */
  method MatchAt(name: Text, pat: Text, nameStart: nat, patStart: nat) returns (b: bool)
    requires nameStart <= |name| && patStart <= |pat|
    ensures b <==> MatchesFrom(pat, patStart, name, nameStart)
    decreases |pat| - patStart
  {
    var i, p := nameStart, patStart;
    while p < |pat|
      invariant nameStart <= i <= |name| && patStart <= p <= |pat|
      invariant MatchesFrom(pat, patStart, name, nameStart) <==> MatchesFrom(pat, p, name, i)
    {
      if pat[p] == STAR {
        b := MatchStar(name, pat, i, p);
        return;
      }
      var ok, next := MatchToken(name, pat, i, p);
      if !ok {
        return false;
      }
      i, p := i + 1, next;
    }
    PatternDone(pat, name, i);
    return i == |name|;
  }

  /** Matches the single-character token at p and returns where the next one starts. */
  method MatchOneAt(ch: int, pat: Text, p: nat) returns (ok: bool, next: nat)
    requires p < |pat| && pat[p] != STAR
    ensures next == p + FirstToken(pat[p..]).1 && (ok <==> MatchesOne(FirstToken(pat[p..]).0, ch))
  {
    if pat[p] == QUESTION {
      return true, p + 1;
    }
    if pat[p] == OPEN {
      var end := FindClassEnd(pat, p);
      if end >= 0 {
        ok := ClassMatches(ch, pat, p, end);
        return ok, end + 1;
      }
      return ch == OPEN, p + 1;
    }
    return ch == pat[p], p + 1;
  }

  lemma {:induction false} SkipStar(pat: Text, p: nat, name: Text, i: nat)
    requires p + 1 < |pat| && pat[p] == STAR && pat[p + 1] == STAR && i <= |name|
    ensures MatchesFrom(pat, p, name, i) <==> MatchesFrom(pat, p + 1, name, i)
  {
    TokensAt(pat, p);
    StarStar(Tokens(pat[p + 1..]), name[i..]);
  }

  /** A star before the rest of the pattern, at q: some suffix of the name matches the rest. */
  lemma {:induction false} StarFrom(pat: Text, p: nat, q: nat, name: Text, i: nat)
    requires q == p + 1 && p < |pat| && pat[p] == STAR && i <= |name|
    ensures MatchesFrom(pat, p, name, i) <==> exists k :: i <= k <= |name| && MatchesFrom(pat, q, name, k)
  {
    TokensAt(pat, p);
    var ts, n := Tokens(pat[q..]), name[i..];
    assert ([Star] + ts)[1..] == ts;
    forall k | i <= k <= |name|
      ensures MatchesFrom(pat, q, name, k) <==> Matches(ts, n[k - i..])
    {
      assert n[k - i..] == name[k..];
    }
    if MatchesFrom(pat, p, name, i) {
      var j :| 0 <= j <= |n| && Matches(ts, n[j..]);
      assert MatchesFrom(pat, q, name, i + j);
    }
  }

  /** At a star: skips adjacent stars, then tries every suffix of the name. */
  method MatchStar(name: Text, pat: Text, nameStart: nat, patStart: nat) returns (b: bool)
    requires nameStart <= |name| && patStart < |pat| && pat[patStart] == STAR
    ensures b <==> MatchesFrom(pat, patStart, name, nameStart)
    decreases |pat| - patStart, 0
  {
    var p := patStart;
    while p + 1 < |pat| && pat[p + 1] == STAR
      invariant patStart <= p < |pat| && pat[p] == STAR
      invariant MatchesFrom(pat, patStart, name, nameStart) <==> MatchesFrom(pat, p, name, nameStart)
    {
      SkipStar(pat, p, name, nameStart);
      p := p + 1;
    }
    StarFrom(pat, p, p + 1, name, nameStart);
    p := p + 1;
    if p == |pat| {
      PatternDone(pat, name, |name|);
      return true;
    }
    var i := nameStart;
    while i <= |name|
      invariant nameStart <= i <= |name| + 1
      invariant forall k :: nameStart <= k < i ==> !MatchesFrom(pat, p, name, k)
    {
      var found := MatchAt(name, pat, i, p);
      if found {
        return true;
      }
      if i == |name| {
        return false;
      }
      i := i + 1;
    }
    return false;
  }

  /** fnmatchcase */
  method FnMatchCase(name: Text, pat: Text) returns (b: bool)
    ensures b <==> Matches(Tokens(pat), name)
  {
    b := MatchAt(name, pat, 0, 0);
    assert pat[0..] == pat && name[0..] == name;
  }

  // ----- escaping

  predicate Magic(c: int) { c == STAR || c == QUESTION || c == OPEN }

  function EscapeChar(c: int): Text { if Magic(c) then [OPEN, c, CLOSE] else [c] }

  function Escaped(p: Text): Text {
    if p == [] then [] else EscapeChar(p[0]) + Escaped(p[1..])
  }

  lemma {:induction false} EscapedSnoc(p: Text, c: int)
    ensures Escaped(p + [c]) == Escaped(p) + EscapeChar(c)
  {
    if p == [] {
      assert p + [c] == [c] && [c][1..] == [];
    } else {
      assert (p + [c])[1..] == p[1..] + [c];
      EscapedSnoc(p[1..], c);
    }
  }

  method Escape(pathname: Text) returns (result: Text)
    ensures result == Escaped(pathname)
  {
    result := [];
    var idx := 0;
    while idx < |pathname|
      invariant 0 <= idx <= |pathname| && result == Escaped(pathname[..idx])
    {
      var ch := pathname[idx];
      EscapedSnoc(pathname[..idx], ch);
      assert pathname[..idx + 1] == pathname[..idx] + [ch];
      if ch == STAR || ch == QUESTION || ch == OPEN {
        result := result + [OPEN] + [ch] + [CLOSE];
      } else {
        result := result + [ch];
      }
      idx := idx + 1;
    }
    assert pathname[..idx] == pathname;
  }

  /** An escaped character is one token that matches just that character. */
  lemma {:induction false} EscapedToken(c: int, rest: Text)
    ensures var s := EscapeChar(c) + rest;
      && FirstToken(s).0 != Star && FirstToken(s).1 == |EscapeChar(c)|
      && (forall d :: MatchesOne(FirstToken(s).0, d) <==> d == c)
  {
    var s := EscapeChar(c) + rest;
    if Magic(c) {
      assert s[0] == OPEN && s[1] == c && s[2] == CLOSE;
      assert FindClose(s, 1) == 2;
      assert ClassEnd(s) == 2;
      assert Ranges(s, 1, 2) == [(c, c)] + Ranges(s, 2, 2);
      assert ClassToken(s, 2).ranges == [(c, c)];
      forall d
        ensures InRanges(d, [(c, c)]) <==> d == c
      {
        assert [(c, c)][0].0 <= d <= [(c, c)][0].1 <==> d == c;
      }
    }
  }

  lemma {:induction false} EscapedTokens(c: int, rest: Text)
    ensures Tokens(EscapeChar(c) + rest) == [FirstToken(EscapeChar(c) + rest).0] + Tokens(rest)
  {
    EscapedToken(c, rest);
    assert (EscapeChar(c) + rest)[|EscapeChar(c)|..] == rest;
  }

  /** The escaped form of p matches p and nothing else. */
  lemma {:induction false} EscapeMatchesItself(n: Text, p: Text)
    ensures Matches(Tokens(Escaped(p)), n) <==> n == p
  {
    if p != [] {
      var c, rest := p[0], Escaped(p[1..]);
      EscapedToken(c, rest);
      EscapedTokens(c, rest);
      ExactToken(FirstToken(EscapeChar(c) + rest).0, Tokens(rest), c, n);
      if n != [] {
        EscapeMatchesItself(n[1..], p[1..]);
        assert n == [n[0]] + n[1..] && p == [p[0]] + p[1..];
      }
    }
  }

  lemma {:induction false} ExactToken(t: Token, ts: seq<Token>, c: int, n: Text)
    requires t != Star && forall d :: MatchesOne(t, d) <==> d == c
    ensures Matches([t] + ts, n) <==> n != [] && n[0] == c && Matches(ts, n[1..])
  {
    assert ([t] + ts)[1..] == ts;
  }

  // ----- what patterns mean, said without tokens

  /** The empty pattern matches the empty name, `?` any one character, `*` anything. */
  lemma {:induction false} SimplePatterns(n: Text)
    ensures Matches(Tokens([]), n) <==> n == []
    ensures Matches(Tokens([QUESTION]), n) <==> |n| == 1
    ensures Matches(Tokens([STAR]), n)
  {
    SingleToken([QUESTION]);
    SingleToken([STAR]);
    var any, star := [Any], [Star];
    assert any[1..] == [] && star[1..] == [];
    assert Matches([], []);
    assert n[|n|..] == [];
    assert Matches(star[1..], n[|n|..]);
  }

  lemma {:induction false} SingleToken(s: Text)
    requires |s| == 1
    ensures Tokens(s) == [FirstToken(s).0]
  {
    assert s[1..] == [];
    assert Tokens(s[1..]) == [];
  }

  /** The inside of a class that does not begin with a bang and has no closing bracket past its start. */
  predicate Inside(body: Text) {
    body != [] && body[0] != BANG && forall i :: 1 <= i < |body| ==> body[i] != CLOSE
  }

  lemma {:induction false} ClosesAt(s: Text, i: nat, e: nat)
    requires i <= e < |s| && s[e] == CLOSE && forall k :: i <= k < e ==> s[k] != CLOSE
    ensures FindClose(s, i) == e
    decreases e - i
  {
    if i < e {
      ClosesAt(s, i + 1, e);
    }
  }

  function ClassText(body: Text, negate: bool): Text {
    (if negate then [OPEN, BANG] else [OPEN]) + body + [CLOSE]
  }

  lemma {:induction false} ClassCloses(body: Text, negate: bool)
    requires Inside(body)
    ensures var s, o := ClassText(body, negate), if negate then 2 else 1;
      && |s| == o + |body| + 1 && s[o..o + |body|] == body && s[0] == OPEN && s[o] == body[0]
      && AfterBang(s) == o && ClassEnd(s) == o + |body|
  {
    var s, o := ClassText(body, negate), if negate then 2 else 1;
    assert s[o] == body[0] && s[o..o + |body|] == body;
    forall k | ClassBody(s) <= k < o + |body|
      ensures s[k] != CLOSE
    {
      assert s[k] == body[k - o];
    }
    ClosesAt(s, ClassBody(s), o + |body|);
  }

  /** A class, plain or negated, is one token whose ranges are those of its inside. */
  lemma {:induction false} ClassOf(body: Text, negate: bool)
    requires Inside(body)
    ensures Tokens(ClassText(body, negate)) == [Class(negate, InsideRanges(body))]
  {
    ClassCloses(body, negate);
    var s, o := ClassText(body, negate), if negate then 2 else 1;
    var e := o + |body|;
    InsideOf(s, o, e, body);
    assert ClassToken(s, e) == Class(negate, InsideRanges(body));
    assert FirstToken(s) == (ClassToken(s, e), e + 1);
    assert s[e + 1..] == [];
  }

  lemma {:induction false} InsideOf(s: Text, o: nat, e: nat, body: Text)
    requires o < e < |s| && s[o..e] == body
    ensures s[o] == body[0]
    ensures InsideRanges(body) ==
      if s[o] == CLOSE then [(CLOSE, CLOSE)] + Ranges(s, o + 1, e) else [] + Ranges(s, o, e)
  {
    assert s[o] == s[o..e][0];
    assert s[o + 1..e] == body[1..|body|] && body[0..|body|] == body;
    SameRanges(s, o, e, body, 0, |body|);
    SameRanges(s, o + 1, e, body, 1, |body|);
  }

  function InsideRanges(body: Text): seq<(int, int)>
    requires body != []
  {
    if body[0] == CLOSE then [(CLOSE, CLOSE)] + Ranges(body, 1, |body|) else Ranges(body, 0, |body|)
  }

  lemma {:induction false} OneClass(negate: bool, ranges: seq<(int, int)>, n: Text)
    ensures Matches([Class(negate, ranges)], n) <==> |n| == 1 && InRanges(n[0], ranges) != negate
  {
    assert [Class(negate, ranges)][1..] == [];
  }

  /** `[!...]` matches exactly the one-character names that `[...]` does not match. */
  lemma {:induction false} NegationIsComplement(body: Text, n: Text)
    requires Inside(body)
    ensures Matches(Tokens([OPEN, BANG] + body + [CLOSE]), n) <==>
      |n| == 1 && !Matches(Tokens([OPEN] + body + [CLOSE]), n)
  {
    ClassOf(body, true);
    ClassOf(body, false);
    OneClass(true, InsideRanges(body), n);
    OneClass(false, InsideRanges(body), n);
  }

  /** `[a-b]` matches exactly the characters from a to b. */
  lemma {:induction false} RangeMeans(a: int, b: int, n: Text)
    requires a != BANG && a != CLOSE && b != CLOSE
    ensures Matches(Tokens([OPEN, a, DASH, b, CLOSE]), n) <==> |n| == 1 && a <= n[0] <= b
  {
    var body := [a, DASH, b];
    assert [OPEN] + body + [CLOSE] == [OPEN, a, DASH, b, CLOSE];
    ClassOf(body, false);
    OneClass(false, InsideRanges(body), n);
    assert Ranges(body, 0, 3) == [(a, b)] + Ranges(body, 3, 3);
    assert InsideRanges(body) == [(a, b)];
    if |n| == 1 {
      assert InRanges(n[0], [(a, b)]) <==> [(a, b)][0].0 <= n[0] <= [(a, b)][0].1;
    }
  }

  /** `[abc...]` without dashes matches exactly the characters listed; a leading `]` is one of them. */
  lemma {:induction false} ListMeans(body: Text, n: Text)
    requires Inside(body) && DASH !in body
    ensures Matches(Tokens([OPEN] + body + [CLOSE]), n) <==> |n| == 1 && n[0] in body
  {
    ClassOf(body, false);
    OneClass(false, InsideRanges(body), n);
    if |n| == 1 {
      var c := n[0];
      ListRanges(body, 0, c);
      ListRanges(body, 1, c);
      assert body[0..] == body && body == [body[0]] + body[1..];
      EitherRanges(c, [(CLOSE, CLOSE)], Ranges(body, 1, |body|));
      assert InRanges(c, [(CLOSE, CLOSE)]) <==> [(CLOSE, CLOSE)][0].0 <= c <= [(CLOSE, CLOSE)][0].1;
    }
  }

  lemma {:induction false} ListRanges(body: Text, i: nat, c: int)
    requires i <= |body| && DASH !in body
    ensures InRanges(c, Ranges(body, i, |body|)) <==> c in body[i..]
    decreases |body| - i
  {
    if i < |body| {
      ListRanges(body, i + 1, c);
      RangesStep(c, body, i, |body|);
      assert body[i..] == [body[i]] + body[i + 1..];
    }
  }
}
