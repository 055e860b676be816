/** UTF-8 to and from code units, against the grammar of RFC 3629. */
module Utf8 {
  import opened Options

  type Byte = x: int | 0 <= x < 256 witness 0

  /** One decoded character and the number of bytes it took. */
  datatype Char = Char(codepoint: nat, length: nat)

  predicate Scalar(c: int) {
    0 <= c <= 0x10ffff && !(0xd800 <= c <= 0xdfff)
  }

  // ----- the grammar of section 4 of RFC 3629

  predicate Tail(b: Byte) { 0x80 <= b <= 0xbf }

  predicate Utf8Char(b: seq<Byte>) {
    || (|b| == 1 && b[0] <= 0x7f)
    || (|b| == 2 && 0xc2 <= b[0] <= 0xdf && Tail(b[1]))
    || (|b| == 3 && Tail(b[2]) &&
          (|| (b[0] == 0xe0 && 0xa0 <= b[1] <= 0xbf)
           || ((0xe1 <= b[0] <= 0xec || 0xee <= b[0] <= 0xef) && Tail(b[1]))
           || (b[0] == 0xed && 0x80 <= b[1] <= 0x9f)))
    || (|b| == 4 && Tail(b[2]) && Tail(b[3]) &&
          (|| (b[0] == 0xf0 && 0x90 <= b[1] <= 0xbf)
           || (0xf1 <= b[0] <= 0xf3 && Tail(b[1]))
           || (b[0] == 0xf4 && 0x80 <= b[1] <= 0x8f)))
  }

  /** A sequence of characters of the grammar. */
  ghost predicate Utf8Octets(b: seq<Byte>) {
    b == [] || exists n :: 1 <= n <= |b| && Utf8Char(b[..n]) && Utf8Octets(b[n..])
  }

  // ----- the decoder

  /** (byte & 0xc0) == 0x80 */
  predicate IsContinuation(b: Byte) { b / 64 == 2 }

  /** The number of continuation bytes the first byte announces, and its own bits. */
  function Lead(first: Byte): Option<(nat, nat)> {
    if first < 0x80 then Some((0, first))
    else if first / 32 == 6 then Some((1, first % 32))
    else if first / 16 == 14 then Some((2, first % 16))
    else if first / 8 == 30 then Some((3, first % 8))
    else None
  }

  /** Overlong, out of range and surrogate code points are rejected. */
  predicate Acceptable(codepoint: nat, continuations: nat) {
    !(|| (continuations == 1 && codepoint < 0x80)
      || (continuations == 2 && codepoint < 0x800)
      || (continuations == 3 && codepoint < 0x10000)
      || codepoint > 0x10ffff
      || 0xd800 <= codepoint <= 0xdfff)
  }

  /** byte & 0x3f */
  function LowBits(b: Byte): nat { b % 64 }

  /** The bits of the first byte followed by those of the continuation bytes. */
  function Join(bits: nat, tail: seq<Byte>): nat {
    if tail == [] then bits else Join(bits, tail[..|tail| - 1]) * 64 + LowBits(tail[|tail| - 1])
  }

  predicate AllContinuations(tail: seq<Byte>) {
    forall i :: 0 <= i < |tail| ==> IsContinuation(tail[i])
  }

  /** The first character of b, if there is a well-formed one. */
  function DecodeChar(b: seq<Byte>): (c: Option<Char>)
    ensures c.Some? ==> 1 <= c.value.length <= |b| && Scalar(c.value.codepoint)
  {
    if b == [] then None else
      match Lead(b[0])
      case None => None
      case Some((k, bits)) =>
        if |b| < k + 1 || !AllContinuations(b[1..k + 1]) then None else
          var codepoint := Join(bits, b[1..k + 1]);
          if Acceptable(codepoint, k) then Some(Char(codepoint, k + 1)) else None
  }

  /** The code points of b, if b is well-formed. */
  function Decode(b: seq<Byte>): Option<seq<nat>> {
    if b == [] then Some([]) else
      match DecodeChar(b)
      case None => None
      case Some(c) =>
        match Decode(b[c.length..])
        case None => None
        case Some(rest) => Some([c.codepoint] + rest)
  }

  lemma {:induction false} JoinValue(bits: nat, t: seq<Byte>)
    ensures |t| == 0 ==> Join(bits, t) == bits
    ensures |t| == 1 ==> Join(bits, t) == bits * 64 + LowBits(t[0])
    ensures |t| == 2 ==> Join(bits, t) == bits * 4096 + LowBits(t[0]) * 64 + LowBits(t[1])
    ensures |t| == 3 ==> Join(bits, t) == bits * 262144 + LowBits(t[0]) * 4096 + LowBits(t[1]) * 64 + LowBits(t[2])
  {
    if |t| > 0 {
      JoinValue(bits, t[..|t| - 1]);
    }
  }

  lemma Accepts2(x: Byte, y: Byte)
    ensures Utf8Char([x, y]) <==>
      x / 32 == 6 && IsContinuation(y) && Acceptable(x % 32 * 64 + LowBits(y), 1)
  {}

  lemma Accepts3(x: Byte, y: Byte, z: Byte)
    ensures Utf8Char([x, y, z]) <==>
      x / 16 == 14 && IsContinuation(y) && IsContinuation(z)
      && Acceptable(x % 16 * 4096 + LowBits(y) * 64 + LowBits(z), 2)
  {}

  lemma Accepts4(x: Byte, y: Byte, z: Byte, w: Byte)
    ensures Utf8Char([x, y, z, w]) <==>
      x / 8 == 30 && IsContinuation(y) && IsContinuation(z) && IsContinuation(w)
      && Acceptable(x % 8 * 262144 + LowBits(y) * 4096 + LowBits(z) * 64 + LowBits(w), 3)
  {}

  /** The decoder's arithmetic accepts exactly the characters of the grammar, with their length. */
  lemma {:induction false} AcceptsGrammar(b: seq<Byte>, n: nat)
    requires 1 <= n <= |b|
    ensures Utf8Char(b[..n]) <==> DecodeChar(b).Some? && DecodeChar(b).value.length == n
  {
    if Utf8Char(b[..n]) {
      LeadOfChar(b[..n]);
    }
    if Lead(b[0]).Some? && Lead(b[0]).value.0 + 1 == n {
      if n == 2 {
        AcceptsLength2(b);
      } else if n == 3 {
        AcceptsLength3(b);
      } else if n == 4 {
        AcceptsLength4(b);
      }
    }
  }

  /** The first byte of a character announces its length. */
  lemma LeadOfChar(u: seq<Byte>)
    requires Utf8Char(u)
    ensures Lead(u[0]).Some? && Lead(u[0]).value.0 + 1 == |u|
  {}

  lemma {:induction false} AcceptsLength2(b: seq<Byte>)
    requires |b| >= 2 && Lead(b[0]).Some? && Lead(b[0]).value.0 == 1
    ensures Utf8Char(b[..2]) <==> DecodeChar(b).Some?
  {
    JoinValue(Lead(b[0]).value.1, b[1..2]);
    assert b[..2] == [b[0], b[1]] && b[1..2] == [b[1]];
    Accepts2(b[0], b[1]);
  }

  lemma {:induction false} AcceptsLength3(b: seq<Byte>)
    requires |b| >= 3 && Lead(b[0]).Some? && Lead(b[0]).value.0 == 2
    ensures Utf8Char(b[..3]) <==> DecodeChar(b).Some?
  {
    JoinValue(Lead(b[0]).value.1, b[1..3]);
    assert b[..3] == [b[0], b[1], b[2]] && b[1..3] == [b[1], b[2]];
    Accepts3(b[0], b[1], b[2]);
  }

  lemma {:induction false} AcceptsLength4(b: seq<Byte>)
    requires |b| >= 4 && Lead(b[0]).Some? && Lead(b[0]).value.0 == 3
    ensures Utf8Char(b[..4]) <==> DecodeChar(b).Some?
  {
    JoinValue(Lead(b[0]).value.1, b[1..4]);
    assert b[..4] == [b[0], b[1], b[2], b[3]] && b[1..4] == [b[1], b[2], b[3]];
    Accepts4(b[0], b[1], b[2], b[3]);
  }

  /** The decoder accepts exactly the well-formed octet sequences. */
  lemma {:induction false} AcceptsExactly(b: seq<Byte>)
    ensures Decode(b).Some? <==> Utf8Octets(b)
  {
    if b != [] {
      var c := DecodeChar(b);
      if c.Some? {
        var n := c.value.length;
        AcceptsGrammar(b, n);
        AcceptsExactly(b[n..]);
        assert Utf8Char(b[..n]);
      }
      if Utf8Octets(b) {
        var n :| 1 <= n <= |b| && Utf8Char(b[..n]) && Utf8Octets(b[n..]);
        AcceptsGrammar(b, n);
      }
    }
  }

  // ----- code units

  /** The units of one code point; two-byte units use a surrogate pair above the basic plane. */
  function UnitsOf(c: nat, wide: bool): seq<nat> {
    if !wide && c > 0xffff then [0xd800 + (c - 0x10000) / 1024, 0xdc00 + (c - 0x10000) % 1024] else [c]
  }

  predicate HighSurrogate(u: int) { 0xd800 <= u < 0xdc00 }

  predicate LowSurrogate(u: int) { 0xdc00 <= u < 0xe000 }

  /** In two-byte units a code point past 0xffff is a surrogate pair whose units carry the top and the
      bottom ten bits of its distance from 0x10000; every other code point is its own unit. */
  lemma SurrogatePair(c: nat, wide: bool)
    requires c <= 0x10ffff
    ensures var u := UnitsOf(c, wide);
      if wide || c <= 0xffff then u == [c] else
        |u| == 2 && HighSurrogate(u[0]) && LowSurrogate(u[1])
        && (u[0] - 0xd800) * 0x400 + (u[1] - 0xdc00) == c - 0x10000
  {}

  function UnitCount(c: nat, wide: bool): (n: nat)
    ensures n == |UnitsOf(c, wide)|
  {
    if !wide && c > 0xffff then 2 else 1
  }

  function Units(cs: seq<nat>, wide: bool): seq<nat> {
    if cs == [] then [] else UnitsOf(cs[0], wide) + Units(cs[1..], wide)
  }

  lemma {:induction false} UnitsSnoc(cs: seq<nat>, c: nat, wide: bool)
    ensures Units(cs + [c], wide) == Units(cs, wide) + UnitsOf(c, wide)
  {
    if cs == [] {
      assert cs + [c] == [c] && [c][1..] == [];
    } else {
      assert (cs + [c])[1..] == cs[1..] + [c];
      UnitsSnoc(cs[1..], c, wide);
    }
  }

  /** Appends the units of c to the buffer; false when they do not fit. */
  method AppendUnits(c: nat, wide: bool, out: array<nat>, at: nat) returns (ok: bool, next: nat)
    requires at <= out.Length
    modifies out
    ensures ok <==> at + |UnitsOf(c, wide)| <= out.Length
    ensures ok ==> next == at + |UnitsOf(c, wide)| && out[..next] == old(out[..at]) + UnitsOf(c, wide)
  {
    if !wide && c > 0xffff {
      if at + 2 > out.Length {
        return false, at;
      }
      out[at] := 0xd800 + (c - 0x10000) / 1024;
      out[at + 1] := 0xdc00 + (c - 0x10000) % 1024;
      return true, at + 2;
    }
    if at + 1 > out.Length {
      return false, at;
    }
    out[at] := c;
    return true, at + 1;
  }

  /** The first character at position src, read byte by byte. */
  method ScanChar(b: seq<Byte>, src: nat) returns (c: Option<Char>)
    requires src < |b|
    ensures c == DecodeChar(b[src..])
  {
    var lead := Lead(b[src]);
    if lead.None? {
      return None;
    }
    var (k, bits) := lead.value;
    if |b| - (src + 1) < k {
      return None;
    }
    ghost var tail := b[src..][1..k + 1];
    var codepoint := bits;
    var i := 0;
    while i < k
      invariant 0 <= i <= k && codepoint == Join(bits, tail[..i]) && AllContinuations(tail[..i])
    {
      var continuation := b[src + 1 + i];
      assert continuation == tail[i];
      if !IsContinuation(continuation) {
        return None;
      }
      assert tail[..i + 1][..i] == tail[..i];
      codepoint := codepoint * 64 + LowBits(continuation);
      i := i + 1;
    }
    assert tail[..k] == tail;
    return if Acceptable(codepoint, k) then Some(Char(codepoint, k + 1)) else None;
  }

  ghost function Prepend(cs: seq<nat>, r: Option<seq<nat>>): Option<seq<nat>> {
    match r
    case None => None
    case Some(rest) => Some(cs + rest)
  }

  /** Decoding continues after the first character. */
  lemma {:induction false} DecodeStep(b: seq<Byte>, src: nat, cs: seq<nat>)
    requires src < |b| && Decode(b) == Prepend(cs, Decode(b[src..]))
    ensures DecodeChar(b[src..]).None? ==> Decode(b).None?
    ensures DecodeChar(b[src..]).Some? ==>
      var c := DecodeChar(b[src..]).value;
      src + c.length <= |b| && Decode(b) == Prepend(cs + [c.codepoint], Decode(b[src + c.length..]))
  {
    if DecodeChar(b[src..]).Some? {
      var c := DecodeChar(b[src..]).value;
      assert b[src..][c.length..] == b[src + c.length..];
      var rest := Decode(b[src + c.length..]);
      if rest.Some? {
        assert cs + ([c.codepoint] + rest.value) == cs + [c.codepoint] + rest.value;
      }
    }
  }

  lemma {:induction false} UnitsConcat(cs: seq<nat>, ds: seq<nat>, wide: bool)
    ensures Units(cs + ds, wide) == Units(cs, wide) + Units(ds, wide)
  {
    if cs == [] {
      assert cs + ds == ds;
    } else {
      assert (cs + ds)[1..] == cs[1..] + ds;
      UnitsConcat(cs[1..], ds, wide);
    }
  }

  /** The code units of b. */
  ghost function Text(b: seq<Byte>, wide: bool): Option<seq<nat>> {
    match Decode(b)
    case None => None
    case Some(cs) => Some(Units(cs, wide))
  }

  /** What the buffer, if there is one, holds after the code points cs. */
  ghost predicate Filled(out: array?<nat>, cs: seq<nat>, wide: bool)
    reads out
  {
    out != null ==> |Units(cs, wide)| <= out.Length && out[..|Units(cs, wide)|] == Units(cs, wide)
  }

  /** Stores the units of the next code point, if there is a buffer. */
  method Store(out: array?<nat>, at: nat, c: nat, wide: bool, ghost cs: seq<nat>) returns (ok: bool)
    requires Filled(out, cs, wide) && at == |Units(cs, wide)|
    modifies out
    ensures ok <==> out == null || |Units(cs + [c], wide)| <= out.Length
    ensures ok ==> Filled(out, cs + [c], wide)
  {
    UnitsSnoc(cs, c, wide);
    ok := true;
    if out != null {
      var next: nat;
      ok, next := AppendUnits(c, wide, out, at);
    }
  }

  /** The code points cs are those of the bytes before src. */
  ghost predicate Decoded(b: seq<Byte>, src: nat, cs: seq<nat>) {
    src <= |b| && Decode(b) == Prepend(cs, Decode(b[src..]))
  }

  /** One character: decode it, count its units, store them. */
  method ScanStep(b: seq<Byte>, src: nat, wide: bool, out: array?<nat>, count: nat, ghost cs: seq<nat>)
    returns (ok: bool, src': nat, count': nat, ghost cs': seq<nat>)
    requires src < |b| && Decoded(b, src, cs) && count == |Units(cs, wide)| && Filled(out, cs, wide)
    modifies out
    ensures ok ==> src < src' && Decoded(b, src', cs') && count' == |Units(cs', wide)| && Filled(out, cs', wide)
    ensures !ok ==> Text(b, wide).None? || (out != null && |Text(b, wide).value| > out.Length)
  {
    src', count', cs' := src, count, cs;
    var scanned := ScanChar(b, src);
    DecodeStep(b, src, cs);
    ok := scanned.Some?;
    if ok {
      var c := scanned.value;
      src', cs' := src + c.length, cs + [c.codepoint];
      LongerText(b, src', cs', wide);
      ok, count' := CountAndStore(out, count, c.codepoint, wide, cs);
    }
  }

  /** The second half: counts the units of the code point and stores them. */
  method CountAndStore(out: array?<nat>, count: nat, c: nat, wide: bool, ghost cs: seq<nat>)
    returns (ok: bool, count': nat)
    requires count == |Units(cs, wide)| && Filled(out, cs, wide)
    modifies out
    ensures count' == |Units(cs + [c], wide)|
    ensures ok ==> Filled(out, cs + [c], wide)
    ensures !ok ==> out != null && out.Length < count'
  {
    UnitsSnoc(cs, c, wide);
    count' := count + UnitCount(c, wide);
    ok := Store(out, count, c, wide, cs);
  }

  /** Counts the units of b and, given a buffer, fills it. A buffer of the wrong size is refused. */
  method ScanUtf8(b: seq<Byte>, wide: bool, out: array?<nat>) returns (ok: bool, count: nat)
    modifies out
    ensures ok <==> Text(b, wide).Some? && (out == null || out.Length == |Text(b, wide).value|)
    ensures ok ==> count == |Text(b, wide).value| && (out != null ==> out[..] == Text(b, wide).value)
  {
    count := 0;
    var src: nat := 0;
    ghost var cs: seq<nat> := [];
    StartDecoding(b);
    while src < |b|
      invariant Decoded(b, src, cs) && count == |Units(cs, wide)| && Filled(out, cs, wide)
    {
      ok, src, count, cs := ScanStep(b, src, wide, out, count, cs);
      if !ok {
        return false, 0;
      }
    }
    DoneDecoding(b, cs);
    ok := out == null || count == out.Length;
  }

  lemma {:induction false} StartDecoding(b: seq<Byte>)
    ensures Decoded(b, 0, [])
  {
    assert b[0..] == b;
    assert Decode(b).Some? ==> [] + Decode(b).value == Decode(b).value;
  }

  lemma {:induction false} DoneDecoding(b: seq<Byte>, cs: seq<nat>)
    requires Decoded(b, |b|, cs)
    ensures Decode(b) == Some(cs)
  {
    assert b[|b|..] == [] && cs + [] == cs;
  }

  /** The whole text is at least as long as what has been decoded of it. */
  lemma {:induction false} LongerText(b: seq<Byte>, src: nat, cs: seq<nat>, wide: bool)
    requires Decoded(b, src, cs)
    ensures Text(b, wide).Some? ==> |Text(b, wide).value| >= |Units(cs, wide)|
  {
    if Decode(b).Some? {
      UnitsConcat(cs, Decode(b[src..]).value, wide);
    }
  }

  /** Two passes: count, then fill. The second pass never fails, and writes what was counted. */
  method DecodeUtf8(b: seq<Byte>, wide: bool) returns (text: Option<seq<nat>>)
    ensures text == Text(b, wide)
  {
    var valid, count := ScanUtf8(b, wide, null);
    if !valid {
      return None;
    }
    var out := new nat[count];
    var filled, n := ScanUtf8(b, wide, out);
    assert filled && n == count;
    return Some(out[..]);
  }

  // ----- the encoder

  /** A unit as a byte of a multi-byte sequence. */
  function Continuation(bits: nat): Byte { 0x80 + bits % 64 }

  function EncodeChar(c: nat): seq<Byte>
    requires c <= 0x10ffff
  {
    if c <= 0x7f then [c]
    else if c <= 0x7ff then [0xc0 + c / 64, Continuation(c)]
    else if c <= 0xffff then [0xe0 + c / 4096, Continuation(c / 64), Continuation(c)]
    else [0xf0 + c / 262144, Continuation(c / 4096), Continuation(c / 64), Continuation(c)]
  }

  /** The code point at the front of a text, and the units it takes: a surrogate pair of two-byte
      units is joined. */
  function FrontPoint(t: seq<nat>, wide: bool): (nat, nat)
    requires t != []
  {
    if !wide && 0xd800 <= t[0] <= 0xdbff && |t| > 1 && 0xdc00 <= t[1] <= 0xdfff
    then (0x10000 + (t[0] - 0xd800) * 1024 + (t[1] - 0xdc00), 2)
    else (t[0], 1)
  }

  /** A text begins with the code point whose surrogate pair it begins with; failing that, with its first
      unit, even if that is half a pair. */
  lemma FrontIsPairOrUnit(t: seq<nat>, wide: bool)
    requires t != [] && UnitRange(t, wide)
    ensures var (c, n) := FrontPoint(t, wide);
      && c <= 0x10ffff && n <= |t|
      && (n == 2 ==> c > 0xffff && !wide && t[..2] == UnitsOf(c, wide))
      && (n != 2 ==> n == 1 && c == t[0])
    ensures FrontPoint(t, wide).1 == 2 <==> !wide && |t| >= 2 && HighSurrogate(t[0]) && LowSurrogate(t[1])
  {}

  predicate UnitRange(t: seq<nat>, wide: bool) {
    forall i :: 0 <= i < |t| ==> t[i] <= if wide then 0x10ffff else 0xffff
  }

  function Encode(t: seq<nat>, wide: bool): seq<Byte>
    requires UnitRange(t, wide)
  {
    if t == [] then [] else
      var (c, n) := FrontPoint(t, wide);
      EncodeChar(c) + Encode(t[n..], wide)
  }

  lemma Associative(a: seq<Byte>, b: seq<Byte>, c: seq<Byte>)
    ensures a + (b + c) == a + b + c
  {}

  lemma {:induction false} EncodeStep(t: seq<nat>, i: nat, wide: bool, done: seq<Byte>)
    requires UnitRange(t, wide) && i < |t| && done + Encode(t[i..], wide) == Encode(t, wide)
    ensures var (c, n) := FrontPoint(t[i..], wide);
      c <= 0x10ffff && i + n <= |t| && done + EncodeChar(c) + Encode(t[i + n..], wide) == Encode(t, wide)
  {
    var (c, n) := FrontPoint(t[i..], wide);
    assert t[i..][n..] == t[i + n..];
    Associative(done, EncodeChar(c), Encode(t[i + n..], wide));
  }

  /** Reads a code point, joining a surrogate pair of two-byte units. */
  method ReadPoint(t: seq<nat>, idx: nat, wide: bool) returns (codepoint: nat, taken: nat)
    requires idx < |t|
    ensures (codepoint, taken) == FrontPoint(t[idx..], wide) && idx + taken <= |t| && taken > 0
  {
    codepoint, taken := t[idx], 1;
    if !wide && 0xd800 <= codepoint <= 0xdbff && idx + 1 < |t| {
      var low := t[idx + 1];
      if 0xdc00 <= low <= 0xdfff {
        codepoint := 0x10000 + (codepoint - 0xd800) * 1024 + (low - 0xdc00);
        taken := 2;
      }
    }
  }

  method EncodeUtf8(t: seq<nat>, wide: bool) returns (result: seq<Byte>)
    requires UnitRange(t, wide)
    ensures result == Encode(t, wide)
  {
    result := [];
    var idx := 0;
    assert t[0..] == t;
    while idx < |t|
      invariant 0 <= idx <= |t| && result + Encode(t[idx..], wide) == Encode(t, wide)
    {
      EncodeStep(t, idx, wide, result);
      var codepoint, taken := ReadPoint(t, idx, wide);
      result := result + EncodeChar(codepoint);
      idx := idx + taken;
    }
    assert t[idx..] == [];
  }

  // ----- round trips

  lemma EncodeAccepted2(x: Byte, y: Byte)
    requires Utf8Char([x, y])
    ensures EncodeChar(x % 32 * 64 + LowBits(y)) == [x, y]
  {}

  lemma EncodeAccepted3(x: Byte, y: Byte, z: Byte)
    requires Utf8Char([x, y, z])
    ensures EncodeChar(x % 16 * 4096 + LowBits(y) * 64 + LowBits(z)) == [x, y, z]
  {
    var c2 := x % 16;
    var c1 := c2 * 64 + LowBits(y);
    var c := c1 * 64 + LowBits(z);
    SixBits(c1, LowBits(z));
    SixBits(c2, LowBits(y));
    TwelveBits(c);
    Tails(y);
    Tails(z);
  }

  lemma EncodeAccepted4(x: Byte, y: Byte, z: Byte, w: Byte)
    requires Utf8Char([x, y, z, w])
    ensures x % 8 * 262144 + LowBits(y) * 4096 + LowBits(z) * 64 + LowBits(w) <= 0x10ffff
    ensures EncodeChar(x % 8 * 262144 + LowBits(y) * 4096 + LowBits(z) * 64 + LowBits(w)) == [x, y, z, w]
  {
    Quads(x % 8, LowBits(y), LowBits(z), LowBits(w));
    Tails(y);
    Tails(z);
    Tails(w);
  }

  lemma Quads(a: nat, b: nat, c: nat, d: nat)
    requires b < 64 && c < 64 && d < 64
    ensures var n := a * 262144 + b * 4096 + c * 64 + d;
      n / 262144 == a && n / 4096 % 64 == b && n / 64 % 64 == c && n % 64 == d
  {
    var high := a * 64 + b;
    var middle := high * 64 + c;
    var n := middle * 64 + d;
    SixBits(middle, d);
    SixBits(high, c);
    SixBits(a, b);
    TwelveBits(n);
    TwelveBits(n / 64);
  }

  lemma TwelveBits(n: nat)
    ensures n / 4096 == n / 64 / 64 && n / 262144 == n / 4096 / 64
  {}

  lemma Tails(y: Byte)
    ensures IsContinuation(y) ==> y == 0x80 + LowBits(y)
  {}

  lemma SixBits(high: nat, low: nat)
    requires low < 64
    ensures (high * 64 + low) / 64 == high && (high * 64 + low) % 64 == low
  {}

  /** Encoding a decoded character gives back its bytes. */
  lemma {:induction false} EncodeDecodedChar(b: seq<Byte>)
    requires DecodeChar(b).Some?
    ensures EncodeChar(DecodeChar(b).value.codepoint) == b[..DecodeChar(b).value.length]
  {
    var n := DecodeChar(b).value.length;
    AcceptsGrammar(b, n);
    if n == 2 {
      EncodeLength2(b);
    } else if n == 3 {
      EncodeLength3(b);
    } else if n == 4 {
      EncodeLength4(b);
    }
  }

  lemma {:induction false} EncodeLength2(b: seq<Byte>)
    requires DecodeChar(b).Some? && DecodeChar(b).value.length == 2 && Utf8Char(b[..2])
    ensures EncodeChar(DecodeChar(b).value.codepoint) == b[..2]
  {
    JoinValue(Lead(b[0]).value.1, b[1..2]);
    assert b[..2] == [b[0], b[1]] && b[1..2] == [b[1]];
    EncodeAccepted2(b[0], b[1]);
  }

  lemma {:induction false} EncodeLength3(b: seq<Byte>)
    requires DecodeChar(b).Some? && DecodeChar(b).value.length == 3 && Utf8Char(b[..3])
    ensures EncodeChar(DecodeChar(b).value.codepoint) == b[..3]
  {
    JoinValue(Lead(b[0]).value.1, b[1..3]);
    assert b[..3] == [b[0], b[1], b[2]] && b[1..3] == [b[1], b[2]];
    EncodeAccepted3(b[0], b[1], b[2]);
  }

  lemma {:induction false} EncodeLength4(b: seq<Byte>)
    requires DecodeChar(b).Some? && DecodeChar(b).value.length == 4 && Utf8Char(b[..4])
    ensures EncodeChar(DecodeChar(b).value.codepoint) == b[..4]
  {
    JoinValue(Lead(b[0]).value.1, b[1..4]);
    assert b[..4] == [b[0], b[1], b[2], b[3]] && b[1..4] == [b[1], b[2], b[3]];
    EncodeAccepted4(b[0], b[1], b[2], b[3]);
  }

  /** A scalar value survives encoding and decoding, whatever follows. */
  lemma {:induction false} DecodeEncodedChar(c: nat, rest: seq<Byte>)
    requires Scalar(c)
    ensures DecodeChar(EncodeChar(c) + rest) == Some(Char(c, |EncodeChar(c)|))
  {
    var e := EncodeChar(c);
    var b := e + rest;
    var n := |e|;
    assert b[..n] == e;
    EncodedIsUtf8(c);
    AcceptsGrammar(b, n);
    var t := b[1..n];
    JoinValue(Lead(b[0]).value.1, t);
    assert t == e[1..];
    EncodedBits(c);
  }

  lemma EncodedIsUtf8(c: nat)
    requires Scalar(c)
    ensures Utf8Char(EncodeChar(c))
  {
    var d, f := c / 64, c / 4096;
    assert f == d / 64 && d == f * 64 + d % 64;
    assert c / 262144 == f / 64 && f == f / 64 * 64 + f % 64;
  }

  lemma EncodedBits(c: nat)
    requires Scalar(c)
    ensures var e := EncodeChar(c);
      && Lead(e[0]).Some? && Lead(e[0]).value.0 == |e| - 1
      && (|e| == 1 ==> Lead(e[0]).value.1 == c)
      && (|e| == 2 ==> Lead(e[0]).value.1 * 64 + LowBits(e[1]) == c)
      && (|e| == 3 ==> Lead(e[0]).value.1 * 4096 + LowBits(e[1]) * 64 + LowBits(e[2]) == c)
      && (|e| == 4 ==> Lead(e[0]).value.1 * 262144 + LowBits(e[1]) * 4096 + LowBits(e[2]) * 64 + LowBits(e[3]) == c)
  {
    if c <= 0x7f {
    } else if c <= 0x7ff {
      EncodedBits2(c);
    } else if c <= 0xffff {
      EncodedBits3(c);
    } else {
      EncodedBits4(c);
    }
  }

  lemma EncodedBits2(c: nat)
    requires 0x7f < c <= 0x7ff
    ensures Lead(0xc0 + c / 64) == Some((1, c / 64)) && c / 64 * 64 + LowBits(Continuation(c)) == c
  {
    ContinuationBits(c);
  }

  lemma EncodedBits3(c: nat)
    requires 0x7ff < c <= 0xffff
    ensures Lead(0xe0 + c / 4096) == Some((2, c / 4096))
    ensures c / 4096 * 4096 + LowBits(Continuation(c / 64)) * 64 + LowBits(Continuation(c)) == c
  {
    ContinuationBits(c);
    ContinuationBits(c / 64);
    TwelveBits(c);
  }

  lemma EncodedBits4(c: nat)
    requires 0xffff < c <= 0x10ffff
    ensures Lead(0xf0 + c / 262144) == Some((3, c / 262144))
    ensures c / 262144 * 262144 + LowBits(Continuation(c / 4096)) * 4096 + LowBits(Continuation(c / 64)) * 64
         + LowBits(Continuation(c)) == c
  {
    ContinuationBits(c);
    ContinuationBits(c / 64);
    ContinuationBits(c / 4096);
    TwelveBits(c);
    TwelveBits(c / 64);
  }

  lemma ContinuationBits(x: nat)
    ensures LowBits(Continuation(x)) == x % 64
  {}

  lemma UnitsRead(c: nat, wide: bool, rest: seq<nat>)
    requires Scalar(c)
    ensures FrontPoint(UnitsOf(c, wide) + rest, wide) == (c, |UnitsOf(c, wide)|)
    ensures UnitRange(UnitsOf(c, wide), wide)
  {}

  ghost predicate AllScalar(cs: seq<nat>) {
    forall i :: 0 <= i < |cs| ==> Scalar(cs[i])
  }

  lemma {:induction false} DecodedIsScalar(b: seq<Byte>)
    requires Decode(b).Some?
    ensures AllScalar(Decode(b).value)
  {
    if b != [] {
      DecodedIsScalar(b[DecodeChar(b).value.length..]);
    }
  }

  lemma {:induction false} EncodeUnits(cs: seq<nat>, wide: bool)
    requires AllScalar(cs)
    ensures UnitRange(Units(cs, wide), wide)
    ensures cs != [] ==> UnitRange(Units(cs[1..], wide), wide)
    ensures cs != [] ==> Encode(Units(cs, wide), wide) == EncodeChar(cs[0]) + Encode(Units(cs[1..], wide), wide)
  {
    if cs != [] {
      EncodeUnits(cs[1..], wide);
      UnitsRead(cs[0], wide, Units(cs[1..], wide));
      var u := UnitsOf(cs[0], wide);
      assert (u + Units(cs[1..], wide))[|u|..] == Units(cs[1..], wide);
    }
  }

  /** The first n bytes are the encoding of the first code point, the others decode to the rest. */
  lemma {:induction false} FirstPoint(b: seq<Byte>, cs: seq<nat>) returns (n: nat)
    requires b != [] && Decode(b) == Some(cs) && AllScalar(cs)
    ensures cs != [] && 1 <= n <= |b| && Decode(b[n..]) == Some(cs[1..]) && EncodeChar(cs[0]) == b[..n]
  {
    DecodeUncons(b);
    n := DecodeChar(b).value.length;
    EncodeDecodedChar(b);
  }

  lemma {:induction false} Rejoin(b: seq<Byte>, n: nat, front: seq<Byte>, rest: seq<Byte>)
    requires n <= |b| && front == b[..n] && rest == b[n..]
    ensures front + rest == b
  {}

  lemma {:induction false} EncodePoints(b: seq<Byte>, cs: seq<nat>, wide: bool)
    requires Decode(b) == Some(cs) && AllScalar(cs)
    ensures UnitRange(Units(cs, wide), wide) && Encode(Units(cs, wide), wide) == b
    decreases |b|
  {
    if b == [] {
      assert cs == [] && Units(cs, wide) == [];
    } else {
      var n := FirstPoint(b, cs);
      var rest, tail := b[n..], cs[1..];
      EncodePoints(rest, tail, wide);
      EncodeUnits(cs, wide);
      Rejoin(b, n, EncodeChar(cs[0]), Encode(Units(tail, wide), wide));
    }
  }

  /** encode(decode(b)) = b for every accepted b, in both unit widths. */
  lemma {:induction false} EncodeOfDecode(b: seq<Byte>, wide: bool)
    requires Text(b, wide).Some?
    ensures UnitRange(Text(b, wide).value, wide) && Encode(Text(b, wide).value, wide) == b
  {
    DecodedIsScalar(b);
    EncodePoints(b, Decode(b).value, wide);
  }

  lemma {:induction false} DecodeUncons(b: seq<Byte>)
    requires b != [] && Decode(b).Some?
    ensures DecodeChar(b).Some? && Decode(b[DecodeChar(b).value.length..]).Some?
    ensures Decode(b).value != [] && Decode(b).value[0] == DecodeChar(b).value.codepoint
    ensures Decode(b).value[1..] == Decode(b[DecodeChar(b).value.length..]).value
  {}

  lemma {:induction false} DecodePoints(cs: seq<nat>, wide: bool)
    requires AllScalar(cs)
    ensures UnitRange(Units(cs, wide), wide) && Decode(Encode(Units(cs, wide), wide)) == Some(cs)
  {
    EncodeUnits(cs, wide);
    if cs != [] {
      var c, tail := cs[0], cs[1..];
      DecodePoints(tail, wide);
      var e, rest := EncodeChar(c), Encode(Units(tail, wide), wide);
      DecodeEncodedChar(c, rest);
      DecodeCons(e, rest, c, tail);
      assert cs == [c] + tail;
    }
  }

  /** decode(encode(t)) = t for every text t made of Unicode scalar values, in both unit widths. */
  lemma {:induction false} DecodeOfEncode(cs: seq<nat>, wide: bool)
    requires AllScalar(cs)
    ensures UnitRange(Units(cs, wide), wide)
    ensures Text(Encode(Units(cs, wide), wide), wide) == Some(Units(cs, wide))
  {
    DecodePoints(cs, wide);
  }

  lemma {:induction false} DecodeCons(e: seq<Byte>, rest: seq<Byte>, c: nat, cs: seq<nat>)
    requires e != [] && DecodeChar(e + rest) == Some(Char(c, |e|)) && Decode(rest) == Some(cs)
    ensures Decode(e + rest) == Some([c] + cs)
  {
    assert (e + rest)[|e|..] == rest;
  }
}
