/** Code objects, instruction boundaries, and the step relation of the bytecode machine. */
module Bytecode {

  type Byte = x: int | 0 <= x < 256 witness 0

  datatype Flow = Sequential | UnconditionalJump | ConditionalJump | Terminator | Invalid

  /** One row of the opcode table. `operandOffset` is where the displacement of a jump is, if any. */
  datatype Info = Info(length: nat, flow: Flow, operandOffset: int)

  datatype Code = Code(bytes: seq<Byte>, opcodes: seq<Info>, handlers: seq<nat>)

  predicate IsJump(f: Flow) {
    f == ConditionalJump || f == UnconditionalJump
  }

  predicate TableOk(c: Code) {
    |c.bytes| > 0 && |c.opcodes| == 256 && forall i :: 0 <= i < 256 ==> c.opcodes[i].length >= 1
  }

  function At(c: Code, pc: nat): Info
    requires TableOk(c) && pc < |c.bytes|
  {
    c.opcodes[c.bytes[pc]]
  }

  /** The offset after the instruction at pc. */
  function Next(c: Code, pc: nat): (n: nat)
    requires TableOk(c) && pc < |c.bytes|
    ensures n > pc
  {
    assert c.opcodes[c.bytes[pc]].length >= 1;
    pc + At(c, pc).length
  }

  /** Little-endian signed 16-bit. */
  function ReadInt16(lo: Byte, hi: Byte): (x: int)
    ensures -0x8000 <= x < 0x8000 && (x - (lo + 256 * hi)) % 0x1_0000 == 0
  {
    var raw := lo + 256 * hi;
    if raw >= 0x8000 then raw - 0x1_0000 else raw
  }

  /** The displacement of the jump at pc lies inside the code, and so does its target. */
  predicate JumpOk(c: Code, pc: nat)
    requires TableOk(c) && pc < |c.bytes|
  {
    var o := At(c, pc).operandOffset;
    && o >= 0 && pc + o + 2 <= |c.bytes|
    && 0 <= pc + o + 2 + ReadInt16(c.bytes[pc + o], c.bytes[pc + o + 1]) < |c.bytes|
  }

  function Target(c: Code, pc: nat): (t: nat)
    requires TableOk(c) && pc < |c.bytes| && JumpOk(c, pc)
    ensures t < |c.bytes|
  {
    var at := pc + At(c, pc).operandOffset;
    at + 2 + ReadInt16(c.bytes[at], c.bytes[at + 1])
  }

  /** Decoding from pc arrives at q. */
  predicate DecodesTo(c: Code, pc: nat, q: nat)
    requires TableOk(c)
    decreases q - pc
  {
    pc == q || (pc < q && pc < |c.bytes| && DecodesTo(c, Next(c, pc), q))
  }

  /** An instruction starts at q, or q is the end. */
  predicate Boundary(c: Code, q: nat)
    requires TableOk(c)
  {
    q <= |c.bytes| && DecodesTo(c, 0, q)
  }

  lemma {:induction false} DecodesAppend(c: Code, pc: nat, q: nat, r: nat)
    requires TableOk(c) && DecodesTo(c, pc, q) && q <= r
    ensures DecodesTo(c, pc, r) == DecodesTo(c, q, r)
    decreases q - pc
  {
    if pc != q {
      DecodesAppend(c, Next(c, pc), q, r);
    }
  }

  /** The instruction at pc is acceptable where it stands. */
  predicate InstructionOk(c: Code, pc: nat)
    requires TableOk(c) && pc < |c.bytes|
  {
    && At(c, pc).flow != Invalid && Next(c, pc) <= |c.bytes|
    && (IsJump(At(c, pc).flow) ==> JumpOk(c, pc) && Boundary(c, Target(c, pc)))
  }

  /** What the decoder's assertions demand of a code object. */
  ghost predicate WellFormed(c: Code) {
    && TableOk(c)
    && (forall pc :: 0 <= pc < |c.bytes| && Boundary(c, pc) ==> InstructionOk(c, pc))
    && (forall i :: 0 <= i < |c.handlers| ==> c.handlers[i] < |c.bytes| && Boundary(c, c.handlers[i]))
  }

  /** Where control can go from the instruction at pc without an exception: fall-through first. */
  function Successors(c: Code, pc: nat): seq<nat>
    requires TableOk(c) && pc < |c.bytes| && InstructionOk(c, pc)
  {
    var f := At(c, pc).flow;
    (if (f == Sequential || f == ConditionalJump) && Next(c, pc) < |c.bytes| then [Next(c, pc)] else [])
    + (if IsJump(f) then [Target(c, pc)] else [])
  }

  /** A machine step that raises no exception. */
  ghost predicate Step(c: Code, pc: nat, pc': nat)
    requires WellFormed(c)
  {
    && pc < |c.bytes| && Boundary(c, pc) && pc' < |c.bytes|
    && match At(c, pc).flow
       case Sequential => pc' == Next(c, pc)
       case ConditionalJump => pc' == Next(c, pc) || pc' == Target(c, pc)
       case UnconditionalJump => pc' == Target(c, pc)
       case Terminator => false
       case Invalid => false
  }

  lemma StepIsSuccessor(c: Code, pc: nat, pc': nat)
    requires WellFormed(c) && pc < |c.bytes| && Boundary(c, pc)
    ensures Step(c, pc, pc') <==> pc' in Successors(c, pc)
  {
    assert InstructionOk(c, pc);
  }

  /** The instruction at p makes q the start of a block. */
  predicate Marks(c: Code, p: nat, q: nat)
    requires TableOk(c) && p < |c.bytes| && InstructionOk(c, p)
  {
    || (IsJump(At(c, p).flow) && Target(c, p) == q)
    || (At(c, p).flow != Sequential && Next(c, p) == q && q < |c.bytes|)
  }

  /** Blocks start at the entry, at jump targets, after control transfers, and at handlers. */
  ghost predicate Leader(c: Code, q: nat)
    requires WellFormed(c)
  {
    q == 0 || q in c.handlers || exists p :: 0 <= p < |c.bytes| && Boundary(c, p) && Marks(c, p, q)
  }

  lemma {:induction false} NextIsBoundary(c: Code, pc: nat)
    requires WellFormed(c) && pc < |c.bytes| && Boundary(c, pc)
    ensures Boundary(c, Next(c, pc))
    ensures forall q :: pc < q < Next(c, pc) ==> !Boundary(c, q)
  {
    assert InstructionOk(c, pc);
    DecodesAppend(c, 0, pc, Next(c, pc));
    assert DecodesTo(c, Next(c, pc), Next(c, pc));
    forall q | pc < q < Next(c, pc)
      ensures !Boundary(c, q)
    {
      DecodesAppend(c, 0, pc, q);
      assert !DecodesTo(c, Next(c, pc), q);
    }
  }

  lemma LeaderIsBoundary(c: Code, q: nat)
    requires WellFormed(c) && Leader(c, q)
    ensures q < |c.bytes| && Boundary(c, q)
  {
    if q != 0 && q !in c.handlers {
      var p :| 0 <= p < |c.bytes| && Boundary(c, p) && Marks(c, p, q);
      assert InstructionOk(c, p);
      NextIsBoundary(c, p);
    }
  }
}
