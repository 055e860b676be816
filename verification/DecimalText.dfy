/** Integers as decimal text: printing in chunks of nine digits, and the two parsers of
    integer literals, each tied to one definition of what a text denotes. */
module DecimalText {
  import opened Digits
  import opened BigIntViews
  import opened BigIntAddMul
  import opened BigIntDiv
  import opened IntValues

  const CHUNK: int := 1_000_000_000
  const CHUNK_DIGITS: nat := 9

  // ----- what a text denotes

  predicate IsDigit(c: char) { '0' <= c <= '9' }

  function DigitOf(c: char): nat
    requires IsDigit(c)
  {
    c as int - '0' as int
  }

  function CharOf(d: nat): (c: char)
    requires d < 10
    ensures IsDigit(c) && DigitOf(c) == d
  {
    '0' + d as char
  }

  /** A prefix of a literal: digits and underscores, no underscore first or next to another. */
  ghost predicate LiteralPrefix(t: string) {
    && (forall i :: 0 <= i < |t| ==> IsDigit(t[i]) || t[i] == '_')
    && (|t| > 0 ==> t[0] != '_')
    && (forall i :: 0 <= i < |t| - 1 ==> !(t[i] == '_' && t[i + 1] == '_'))
  }

  /** A literal is a nonempty prefix that does not end in an underscore. */
  ghost predicate Literal(t: string) {
    LiteralPrefix(t) && |t| > 0 && t[|t| - 1] != '_'
  }

  /** The number written by the digits of t; other characters stand for nothing. */
  ghost function NumberIn(t: string): nat {
    if t == "" then 0
    else
      var c, before := t[|t| - 1], NumberIn(t[..|t| - 1]);
      if IsDigit(c) then before * 10 + DigitOf(c) else before
  }

  predicate Signed(t: string) { t != "" && (t[0] == '+' || t[0] == '-') }

  predicate Negative(t: string) { t != "" && t[0] == '-' }

  function Unsigned(t: string): string { if Signed(t) then t[1..] else t }

  const INVALID: Outcome<IntValue> := ValueError("invalid literal for int()")

  /** r is what the text t denotes: a canonical integer, or the error for a text that is no literal. */
  ghost predicate Denotes(t: string, r: Outcome<IntValue>) {
    if Literal(Unsigned(t)) then
      && r.Ok? && Canonical(r.value)
      && ValueOf(r.value) == if Negative(t) then -(NumberIn(Unsigned(t)) as int) else NumberIn(Unsigned(t))
    else r == INVALID
  }

  /** A text denotes one thing, so two parsers that meet `Denotes` agree to the last bit. */
  lemma {:induction false} DenotesOne(t: string, r: Outcome<IntValue>, s: Outcome<IntValue>)
    requires Denotes(t, r) && Denotes(t, s)
    ensures r == s
  {
    if r.Ok? {
      CanonicalUnique(r.value, s.value);
    }
  }

  lemma DigitAlphabet(c: char)
    ensures IsDigit(c) <==> c in "0123456789"
    ensures IsDigit(c) ==> DigitOf(c) < 10 && "0123456789"[DigitOf(c)] == c
  {
    var digits := "0123456789";
    assert forall i :: 0 <= i < 10 ==> digits[i] as int == '0' as int + i;
    if IsDigit(c) {
      assert digits[DigitOf(c)] == c;
    }
  }

  /** r is the canonical form of integer i. */
  ghost predicate Is(r: Outcome<IntValue>, i: int) {
    r.Ok? && Canonical(r.value) && ValueOf(r.value) == i
  }

  /** A literal denotes its number, also after a plus sign, and the negative after a minus sign. */
  lemma {:induction false} SignsDenote(u: string, r: Outcome<IntValue>)
    requires Literal(u)
    ensures Denotes(u, r) <==> Is(r, NumberIn(u))
    ensures Denotes("+" + u, r) <==> Is(r, NumberIn(u))
    ensures Denotes("-" + u, r) <==> Is(r, -(NumberIn(u) as int))
  {
    assert ("+" + u)[1..] == u && ("-" + u)[1..] == u;
  }

  /** Every other text is an error, so there are no more forms than these three. */
  lemma {:induction false} OthersAreErrors(t: string, r: Outcome<IntValue>)
    requires !Literal(t) && !exists u :: Literal(u) && (t == "+" + u || t == "-" + u)
    ensures Denotes(t, r) <==> r == INVALID
  {
    if t != "" && (t[0] == '+' || t[0] == '-') {
      assert t == [t[0]] + t[1..];
      assert !Literal(t[1..]);
    }
  }

  // ----- the parsers

  datatype Fast = Answer(outcome: Outcome<IntValue>) | NotPresent

  function Limit(t: string): int { if Negative(t) then -SMI_MIN else SMI_MAX }

  predicate AllDigits(t: string) {
    forall i :: 0 <= i < |t| ==> IsDigit(t[i])
  }

  /** The fast parser stops without an answer at k: an underscore, or a number past the limit,
      with only digits before it. */
  ghost predicate GivesUpAt(t: string, k: nat) {
    var u := Unsigned(t);
    && k < |u| && AllDigits(u[..k])
    && (u[k] == '_' || (IsDigit(u[k]) && NumberIn(u[..k + 1]) > Limit(t)))
  }

  /** The loop of the fast parser: no 64-bit word wraps. */
  method ScanWord(t: string, begin: nat, limit: DoubleDigit) returns (present: bool, ok: bool, parsed: DoubleDigit)
    requires begin <= |t| && t[begin..] == Unsigned(t) && limit == Limit(t)
    ensures !present <==> exists k :: GivesUpAt(t, k)
    ensures present ==> (ok <==> Literal(Unsigned(t)))
    ensures present && ok ==> parsed == NumberIn(Unsigned(t)) <= limit
  {
    ghost var u := Unsigned(t);
    parsed := 0;
    var sawDigit := false;
    var idx := begin;
    while idx < |t|
      invariant begin <= idx <= |t|
      invariant AllDigits(u[..idx - begin]) && NumberIn(u[..idx - begin]) == parsed
      invariant parsed <= limit
      invariant sawDigit <==> idx > begin
      invariant forall k :: 0 <= k < idx - begin ==> !GivesUpAt(t, k)
    {
      var ch := t[idx];
      assert ch == u[idx - begin];
      FastStep(t, idx - begin);
      if ch == '_' {
        return false, false, 0;
      }
      if !IsDigit(ch) {
        NoneAfter(t, idx - begin);
        return true, false, 0;
      }
      var digit: DoubleDigit := DigitOf(ch);
      GuardIsExact(parsed, digit, limit);
      if parsed > (limit - digit) / 10 {
        return false, false, 0;
      }
      parsed := parsed * 10 + digit;
      sawDigit := true;
      idx := idx + 1;
    }
    assert u[..idx - begin] == u;
    return true, sawDigit, parsed;
  }

  /** The test before the multiplication is the test after it. */
  lemma GuardIsExact(parsed: nat, digit: nat, limit: nat)
    requires digit < 10 <= limit
    ensures parsed > (limit - digit) / 10 <==> parsed * 10 + digit > limit
  {}

  /** The parser over 64-bit words. Answers, rightly, unless it has to give up. */
  method ParseFast(t: string) returns (r: Fast)
    ensures r.Answer? ==> Denotes(t, r.outcome)
    ensures r.NotPresent? <==> exists k :: GivesUpAt(t, k)
  {
    if t == "" {
      return Answer(INVALID);
    }
    var begin := if Signed(t) then 1 else 0;
    var negative := t[0] == '-';
    assert t[0..] == t;
    var present, ok, parsed := ScanWord(t, begin, if negative then SMI_MAX + 1 else SMI_MAX);
    if !present {
      return NotPresent;
    }
    if !ok {
      return Answer(INVALID);
    }
    return Answer(Ok(Smi(if negative then -(parsed as int) else parsed)));
  }

  lemma {:induction false} FastStep(t: string, k: nat)
    requires k < |Unsigned(t)| && AllDigits(Unsigned(t)[..k])
    ensures var u := Unsigned(t);
      && (IsDigit(u[k]) ==>
          && AllDigits(u[..k + 1])
          && NumberIn(u[..k + 1]) == NumberIn(u[..k]) * 10 + DigitOf(u[k])
          && (GivesUpAt(t, k) <==> NumberIn(u[..k]) * 10 + DigitOf(u[k]) > Limit(t)))
      && (u[k] == '_' ==> GivesUpAt(t, k))
      && (!IsDigit(u[k]) && u[k] != '_' ==> !GivesUpAt(t, k) && !Literal(u))
  {
    var u := Unsigned(t);
    TakeOneMore(u, k);
    assert forall i :: 0 <= i < k ==> u[..k + 1][i] == u[..k][i];
  }

  lemma {:induction false} TakeOneMore(u: string, k: nat)
    requires k < |u|
    ensures u[..k + 1][..k] == u[..k] && u[..k + 1][k] == u[k]
    ensures IsDigit(u[k]) ==> NumberIn(u[..k + 1]) == NumberIn(u[..k]) * 10 + DigitOf(u[k])
    ensures !IsDigit(u[k]) ==> NumberIn(u[..k + 1]) == NumberIn(u[..k])
  {
    assert u[..k + 1][..k] == u[..k];
  }

  /** A character that is neither digit nor underscore keeps the fast parser from giving up later. */
  lemma {:induction false} NoneAfter(t: string, k: nat)
    requires k < |Unsigned(t)| && !IsDigit(Unsigned(t)[k])
    ensures forall m :: k < m ==> !GivesUpAt(t, m)
  {
    forall m | k < m < |Unsigned(t)|
      ensures !GivesUpAt(t, m)
    {
      assert Unsigned(t)[..m][k] == Unsigned(t)[k];
    }
  }

  lemma {:induction false} PrefixGrows(u: string, k: nat)
    requires k < |u| && LiteralPrefix(u[..k])
    ensures LiteralPrefix(u[..k + 1]) <==> IsDigit(u[k]) || (u[k] == '_' && k > 0 && u[k - 1] != '_')
    ensures !LiteralPrefix(u[..k + 1]) ==> !Literal(u)
  {
    var p, q := u[..k], u[..k + 1];
    assert forall i :: 0 <= i < k ==> q[i] == p[i];
    assert q[k] == u[k];
    if k > 0 {
      assert q[k - 1] == u[k - 1] && q[k - 1 + 1] == u[k];
    }
    if Literal(u) {
      assert forall i :: 0 <= i <= k ==> q[i] == u[i];
    }
  }

  /** The loop of the slow parser, with two scratch buffers used in turn. */
  method ScanLiteral(t: string, begin: nat) returns (ok: bool, current: Num)
    requires begin <= |t|
    ensures ok <==> Literal(t[begin..])
    ensures ok ==> Normalized(current) && 0 <= current.signum <= 1 && Abs(current) == NumberIn(t[begin..])
  {
    ghost var u := t[begin..];
    var capacity: nat := |t| - begin + 1;
    var scratch0 := new MutView(capacity);
    var scratch1 := new MutView(capacity);
    current := Num(0, []);
    var useFirst, sawDigit, previousUnderscore := false, false, false;
    var idx := begin;
    while idx < |t|
      invariant begin <= idx <= |t|
      invariant Normalized(current) && 0 <= current.signum <= 1
      invariant |current.digits| <= idx - begin
      invariant LiteralPrefix(u[..idx - begin]) && NumberIn(u[..idx - begin]) == Abs(current)
      invariant sawDigit <==> idx > begin
      invariant previousUnderscore <==> idx > begin && t[idx - 1] == '_'
    {
      var ch := t[idx];
      TakeOneMore(u, idx - begin);
      PrefixGrows(u, idx - begin);
      if ch == '_' {
        if !sawDigit || previousUnderscore {
          return false, current;
        }
        previousUnderscore := true;
      } else {
        if !IsDigit(ch) {
          return false, current;
        }
        var dest := if useFirst then scratch0 else scratch1;
        AbsMulAddU32(dest, current, 10, DigitOf(ch));
        current := dest.View();
        useFirst := !useFirst;
        sawDigit, previousUnderscore := true, false;
      }
      idx := idx + 1;
    }
    assert u[..idx - begin] == u;
    ok := sawDigit && !previousUnderscore;
  }

  /** The parser over big integers. */
  method ParseSlow(t: string) returns (r: Outcome<IntValue>)
    ensures Denotes(t, r)
  {
    if t == "" {
      return INVALID;
    }
    var negative := t[0] == '-';
    var ok, current := ScanLiteral(t, if Signed(t) then 1 else 0);
    assert t[0..] == t;
    if !ok {
      return INVALID;
    }
    current := NormalizeView(current);
    if current.signum != 0 {
      current := current.(signum := if negative then -1 else 1);
    }
    NormalizedPositive(current);
    var v := Finalize(current);
    r := Ok(v);
  }

  /** s is t without the white space around it. */
  ghost predicate Trims(space: char -> bool, t: string, s: string) {
    exists i, j :: 0 <= i <= j <= |t| && TrimsAt(space, t, i, j) && s == t[i..j]
  }

  ghost predicate TrimsAt(space: char -> bool, t: string, i: nat, j: nat)
    requires i <= j <= |t|
  {
    && (forall k :: 0 <= k < i ==> space(t[k]))
    && (forall k :: j <= k < |t| ==> space(t[k]))
    && (i < j ==> !space(t[i]) && !space(t[j - 1]))
  }

  /** There is only one way to trim. */
  lemma {:induction false} TrimsOne(space: char -> bool, t: string, s: string, s': string)
    requires Trims(space, t, s) && Trims(space, t, s')
    ensures s == s'
  {
    var i, j :| 0 <= i <= j <= |t| && TrimsAt(space, t, i, j) && s == t[i..j];
    var i', j' :| 0 <= i' <= j' <= |t| && TrimsAt(space, t, i', j') && s' == t[i'..j'];
    if i < j {
      assert i' <= i && j - 1 < j';
    }
  }

  /** Whenever the fast parser answers, value or error, the slow one gives the same answer. */
  method FastAgreesWithSlow(t: string) returns (fast: Fast, slow: Outcome<IntValue>)
    ensures fast.Answer? ==> fast.outcome == slow
    ensures fast.NotPresent? ==> exists k :: GivesUpAt(t, k)
  {
    fast := ParseFast(t);
    slow := ParseSlow(t);
    if fast.Answer? {
      DenotesOne(t, fast.outcome, slow);
    }
  }

  /** Trims, lets the fast parser answer, and falls back to the slow one. */
  method ParseView(t: string, space: char -> bool) returns (r: Outcome<IntValue>)
    ensures exists s :: Trims(space, t, s) && Denotes(s, r)
  {
    var begin, end := 0, |t|;
    while begin < end && space(t[begin])
      invariant 0 <= begin <= end
      invariant forall k :: 0 <= k < begin ==> space(t[k])
    {
      begin := begin + 1;
    }
    while begin < end && space(t[end - 1])
      invariant begin <= end <= |t|
      invariant begin < end ==> !space(t[begin])
      invariant forall k :: end <= k < |t| ==> space(t[k])
    {
      end := end - 1;
    }
    var trimmed := t[begin..end];
    assert TrimsAt(space, t, begin, end);
    var fast := ParseFast(trimmed);
    if fast.Answer? {
      return fast.outcome;
    }
    r := ParseSlow(trimmed);
  }

  // ----- printing

  /** The decimal numeral of n, without leading zeros. */
  function Numeral(n: nat): (t: string)
    ensures |t| > 0
  {
    if n < 10 then [CharOf(n)] else Numeral(n / 10) + [CharOf(n % 10)]
  }

  ghost function Printed(i: int): string {
    if i < 0 then "-" + Numeral(-i) else Numeral(i)
  }

  /** The w low decimal digits of n, zeros included. */
  function Padded(n: nat, w: nat): (t: string)
    ensures |t| == w
  {
    if w == 0 then "" else Padded(n / 10, w - 1) + [CharOf(n % 10)]
  }

  function Zeros(w: nat): string { seq(w, _ => '0') }

  function TenPow(w: nat): (p: nat)
    ensures p > 0
  {
    if w == 0 then 1 else 10 * TenPow(w - 1)
  }

  lemma {:induction false} PaddedZero(w: nat)
    ensures Padded(0, w) == Zeros(w)
  {
    if w > 0 {
      PaddedZero(w - 1);
      assert Zeros(w) == Zeros(w - 1) + ['0'];
    }
  }

  /** Zeros in front of the numeral make up the width. */
  lemma {:induction false} PaddedNumeral(n: nat, w: nat)
    requires n < TenPow(w) && w > 0
    ensures |Numeral(n)| <= w && Padded(n, w) == Zeros(w - |Numeral(n)|) + Numeral(n)
  {
    if n < 10 {
      PaddedZero(w - 1);
    } else {
      assert TenPow(w) == 10 * TenPow(w - 1);
      assert TenPow(0) == 1;
      PaddedNumeral(n / 10, w - 1);
    }
  }

  lemma {:induction false} NumeralStep(x: nat, n: nat)
    requires x > 0
    ensures Numeral(10 * x + n) == Numeral(x + n / 10) + [CharOf(n % 10)]
  {
    assert (10 * x + n) / 10 == x + n / 10 && (10 * x + n) % 10 == n % 10;
  }

  /** m followed by w zero digits. */
  function Scaled(m: nat, w: nat): (r: nat)
    ensures m > 0 ==> r > 0
  {
    if w == 0 then m else 10 * Scaled(m, w - 1)
  }

  lemma {:induction false} ScaledIs(m: nat, w: nat)
    ensures Scaled(m, w) == m * TenPow(w)
  {
    if w > 0 {
      ScaledIs(m, w - 1);
      ScaleSum(m, 0, 10, TenPow(w - 1));
    }
  }

  /** The numeral of a number split w digits from the right. */
  lemma {:induction false} NumeralSplit(m: nat, n: nat, w: nat)
    requires m > 0 && n < TenPow(w)
    ensures Numeral(Scaled(m, w) + n) == Numeral(m) + Padded(n, w)
  {
    if w > 0 {
      NumeralStep(Scaled(m, w - 1), n);
      NumeralSplit(m, n / 10, w - 1);
    }
  }

  /** Base-10^9 digits, low first. */
  ghost function Chunks(n: nat): seq<nat> {
    if n == 0 then [] else [n % CHUNK] + Chunks(n / CHUNK)
  }

  ghost function ChunkValue(s: seq<nat>): nat {
    if s == [] then 0 else s[0] + CHUNK * ChunkValue(s[1..])
  }

  lemma {:induction false} ChunksOf(n: nat)
    ensures ChunkValue(Chunks(n)) == n
    ensures forall i :: 0 <= i < |Chunks(n)| ==> Chunks(n)[i] < CHUNK
    ensures n > 0 ==> |Chunks(n)| > 0 && Chunks(n)[|Chunks(n)| - 1] > 0
  {
    if n > 0 {
      ChunksOf(n / CHUNK);
      assert Chunks(n)[1..] == Chunks(n / CHUNK);
    }
  }

  lemma {:induction false} ChunkStep(n: nat, q: nat, rem: nat)
    requires n > 0 && n == q * CHUNK + rem && rem < CHUNK
    ensures Chunks(n) == [rem] + Chunks(q) && q < n
  {
    assert n / CHUNK == q && n % CHUNK == rem;
  }

  method ToChunks(view: Num) returns (chunks: seq<nat>)
    requires Normalized(view)
    ensures chunks == Chunks(Abs(view))
  {
    var current := AbsView(view);
    var scratch0 := new MutView(|view.digits|);
    var scratch1 := new MutView(|view.digits|);
    var useFirst := true;
    chunks := [];
    while |current.digits| > 0
      invariant Normalized(current) && 0 <= current.signum <= 1
      invariant |current.digits| <= |view.digits|
      invariant Chunks(Abs(view)) == chunks + Chunks(Abs(current))
      decreases Abs(current)
    {
      NormalizedPositive(current);
      var quotient := if useFirst then scratch0 else scratch1;
      var rem := DivmodAbsByU32(quotient, current, CHUNK);
      ChunkStep(Abs(current), Abs(quotient.View()), rem);
      chunks := chunks + [rem];
      current := quotient.View();
      useFirst := !useFirst;
    }
  }

  method ToDecimalString(view: Num) returns (t: string)
    requires Normalized(view)
    ensures t == Printed(Int(view))
  {
    NormalizedPositive(view);
    if view.signum == 0 {
      return "0";
    }
    var chunks := ToChunks(view);
    ChunksOf(Abs(view));
    t := PrintChunks(if view.signum < 0 then "-" else "", chunks);
  }

  /** Appends the top chunk as it is and every other one padded to nine digits. */
  method PrintChunks(sign: string, chunks: seq<nat>) returns (t: string)
    requires |chunks| > 0 && chunks[|chunks| - 1] > 0
    requires forall i :: 0 <= i < |chunks| ==> chunks[i] < CHUNK
    ensures t == sign + Numeral(ChunkValue(chunks))
  {
    var k := |chunks| - 1;
    t := sign + Numeral(chunks[k]);
    assert ChunkValue(chunks[k..]) == chunks[k] + CHUNK * ChunkValue([]);
    while k > 0
      invariant 0 <= k < |chunks|
      invariant ChunkValue(chunks[k..]) > 0
      invariant t == sign + Numeral(ChunkValue(chunks[k..]))
    {
      var chunk := Numeral(chunks[k - 1]);
      ChunkPrinted(chunks, k - 1);
      t := t + (Zeros(CHUNK_DIGITS - |chunk|) + chunk);
      k := k - 1;
    }
    assert chunks[0..] == chunks;
  }

  /** Printing one more chunk: the numeral of the value grows by exactly the padded chunk. */
  lemma {:induction false} ChunkPrinted(chunks: seq<nat>, k: nat)
    requires k < |chunks| && chunks[k] < CHUNK && ChunkValue(chunks[k + 1..]) > 0
    ensures var chunk := Numeral(chunks[k]);
      && |chunk| <= CHUNK_DIGITS
      && ChunkValue(chunks[k..]) > 0
      && Numeral(ChunkValue(chunks[k..])) ==
         Numeral(ChunkValue(chunks[k + 1..])) + (Zeros(CHUNK_DIGITS - |chunk|) + chunk)
  {
    assert chunks[k..][1..] == chunks[k + 1..];
    assert TenPow(3) == 1000 && TenPow(6) == 1000_000 && TenPow(CHUNK_DIGITS) == CHUNK;
    PaddedNumeral(chunks[k], CHUNK_DIGITS);
    var high := ChunkValue(chunks[k + 1..]);
    ScaledIs(high, CHUNK_DIGITS);
    NumeralSplit(high, chunks[k], CHUNK_DIGITS);
  }

  /** A numeral has no leading zero, and is the only text of digits without one for its number. */
  lemma {:induction false} NumeralIsCanonical(n: nat)
    ensures AllDigits(Numeral(n)) && NumberIn(Numeral(n)) == n
    ensures Numeral(n)[0] == '0' ==> Numeral(n) == "0"
  {
    NumeralReads(n);
    if n >= 10 {
      NumeralIsCanonical(n / 10);
      assert Numeral(n)[0] == Numeral(n / 10)[0];
      assert NumberIn("0") == NumberIn("") * 10 + 0;
    }
  }

  lemma {:induction false} NumeralIsOnly(t: string)
    requires t != "" && AllDigits(t) && (t[0] == '0' ==> t == "0")
    ensures t == Numeral(NumberIn(t))
    ensures NumberIn(t) == 0 ==> t == "0"
  {
    var last := |t| - 1;
    var init, d := t[..last], DigitOf(t[last]);
    assert CharOf(d) == t[last] && t == init + [t[last]];
    if last == 0 {
      assert init == "" && NumberIn(init) == 0;
    } else {
      NumeralIsOnly(init);
      assert t[0] == init[0];
      assert (NumberIn(init) * 10 + d) / 10 == NumberIn(init) && (NumberIn(init) * 10 + d) % 10 == d;
    }
  }

  // ----- the round trip

  lemma {:induction false} NumeralReads(n: nat)
    ensures AllDigits(Numeral(n)) && NumberIn(Numeral(n)) == n
  {
    if n >= 10 {
      NumeralReads(n / 10);
      assert Numeral(n)[..|Numeral(n)| - 1] == Numeral(n / 10);
    } else {
      assert NumberIn([]) == 0;
    }
  }

  lemma {:induction false} PrintedShape(i: int)
    ensures var t, n := Printed(i), if i < 0 then -i else i;
      && (forall k :: 0 <= k < |t| ==> IsDigit(t[k]) || t[k] == '-')
      && Unsigned(t) == Numeral(n) && (Negative(t) <==> i < 0)
      && Literal(Numeral(n)) && NumberIn(Numeral(n)) == n
  {
    NumeralReads(if i < 0 then -i else i);
  }

  lemma {:induction false} NothingToTrim(space: char -> bool, t: string, s: string)
    requires Trims(space, t, s) && forall k :: 0 <= k < |t| ==> !space(t[k])
    ensures s == t
  {
    var i, j :| 0 <= i <= j <= |t| && TrimsAt(space, t, i, j) && s == t[i..j];
    assert |t| > 0 ==> !space(t[0]);
    assert |t| > 0 ==> !space(t[|t| - 1]);
    assert t[0..|t|] == t;
  }

  /** Reading the printed form of an integer gives exactly that integer, whichever parser
      answers and whatever counts as white space besides digits and the minus sign. */
  lemma {:induction false} PrintedReadsBack(v: IntValue, space: char -> bool, s: string, r: Outcome<IntValue>)
    requires Canonical(v) && forall c :: IsDigit(c) || c == '-' ==> !space(c)
    requires Trims(space, Printed(ValueOf(v)), s) && Denotes(s, r)
    ensures r == Ok(v)
  {
    PrintedShape(ValueOf(v));
    NothingToTrim(space, Printed(ValueOf(v)), s);
    CanonicalUnique(r.value, v);
  }

  /** Printing and then reading any integer gives it back, as a finished value. */
  method PrintThenParse(view: Num, space: char -> bool) returns (t: string, r: Outcome<IntValue>)
    requires Normalized(view) && forall c :: IsDigit(c) || c == '-' ==> !space(c)
    ensures t == Printed(Int(view))
    ensures r.Ok? && Canonical(r.value) && ValueOf(r.value) == Int(view)
  {
    t := ToDecimalString(view);
    r := ParseView(t, space);
    var v := Finalize(view);
    ghost var s :| Trims(space, t, s) && Denotes(s, r);
    PrintedReadsBack(v, space, s, r);
  }
}
