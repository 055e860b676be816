/** Basic blocks of a code object and the edges between them. */
module Cfg {
  import opened Bytecode

  datatype Block = Block(id: nat, start: nat, end: nat, predecessors: seq<nat>, successors: seq<nat>)

  /** Something before pc makes q the start of a block. */
  ghost predicate MarkedBefore(c: Code, q: nat, pc: nat)
    requires WellFormed(c)
  {
    q == 0 || exists p :: 0 <= p < pc && p < |c.bytes| && Boundary(c, p) && Marks(c, p, q)
  }

  lemma MarkedStep(c: Code, q: nat, pc: nat)
    requires WellFormed(c) && pc < |c.bytes| && Boundary(c, pc)
    ensures MarkedBefore(c, q, Next(c, pc)) <==> MarkedBefore(c, q, pc) || Marks(c, pc, q)
  {
    NextIsBoundary(c, pc);
  }

  /** The offsets at which blocks start. */
  method FindLeaders(c: Code) returns (leaders: seq<bool>)
    requires WellFormed(c)
    ensures |leaders| == |c.bytes|
    ensures forall q :: 0 <= q < |leaders| ==> (leaders[q] <==> Leader(c, q))
  {
    var size := |c.bytes|;
    leaders := seq(size, _ => false)[0 := true];
    var pc := 0;
    while pc < size
      invariant 0 <= pc <= size && Boundary(c, pc) && |leaders| == size
      invariant forall q :: 0 <= q < size ==> (leaders[q] <==> MarkedBefore(c, q, pc))
    {
      ghost var before := leaders;
      var info, next := At(c, pc), Next(c, pc);
      NextIsBoundary(c, pc);
      assert InstructionOk(c, pc);
      if IsJump(info.flow) {
        leaders := leaders[Target(c, pc) := true];
      }
      if info.flow != Sequential && next < size {
        leaders := leaders[next := true];
      }
      forall q | 0 <= q < size
        ensures leaders[q] <==> MarkedBefore(c, q, next)
      {
        MarkedStep(c, q, pc);
        assert leaders[q] <==> before[q] || Marks(c, pc, q);
      }
      pc := next;
    }
    ghost var jumps := leaders;
    var i := 0;
    while i < |c.handlers|
      invariant 0 <= i <= |c.handlers| && |leaders| == size
      invariant forall q :: 0 <= q < size ==> (leaders[q] <==> jumps[q] || q in c.handlers[..i])
    {
      leaders := leaders[c.handlers[i] := true];
      assert c.handlers[..i + 1] == c.handlers[..i] + [c.handlers[i]];
      i := i + 1;
    }
    assert c.handlers[..i] == c.handlers;
  }

  /** Strictly increasing, and exactly the leaders below `limit`. */
  ghost predicate StartsOf(starts: seq<nat>, leaders: seq<bool>, limit: nat)
    requires limit <= |leaders|
  {
    && (forall i, j :: 0 <= i < j < |starts| ==> starts[i] < starts[j])
    && (forall i :: 0 <= i < |starts| ==> starts[i] < limit)
    && (forall q :: 0 <= q < limit ==> (leaders[q] <==> q in starts))
  }

  method BlockStarts(leaders: seq<bool>) returns (starts: seq<nat>)
    ensures StartsOf(starts, leaders, |leaders|)
  {
    starts := [];
    var pc := 0;
    while pc < |leaders|
      invariant 0 <= pc <= |leaders| && StartsOf(starts, leaders, pc)
    {
      if leaders[pc] {
        starts := starts + [pc];
      }
      pc := pc + 1;
    }
  }

  /** The last instruction of the block from start to end. */
  function Last(c: Code, start: nat, end: nat): (pc: nat)
    requires TableOk(c) && start < end <= |c.bytes| && DecodesTo(c, start, end)
    ensures start <= pc < end && Next(c, pc) == end && DecodesTo(c, start, pc)
    decreases end - start
  {
    assert DecodesTo(c, Next(c, start), end);
    if Next(c, start) == end then start else Last(c, Next(c, start), end)
  }

  method FindLast(c: Code, start: nat, end: nat) returns (last: nat)
    requires TableOk(c) && start < end <= |c.bytes| && DecodesTo(c, start, end)
    ensures last == Last(c, start, end)
  {
    last := start;
    var pc := start;
    while pc < end
      invariant start <= pc <= end && DecodesTo(c, pc, end)
      invariant pc < end ==> Last(c, pc, end) == Last(c, start, end)
      invariant pc == end ==> last == Last(c, start, end)
    {
      last := pc;
      pc := Next(c, pc);
    }
  }

  /** A block starts at a leader, covers whole instructions, and no leader is strictly inside it. */
  ghost predicate BlockOk(c: Code, b: Block)
    requires WellFormed(c)
  {
    && b.start < b.end <= |c.bytes| && Boundary(c, b.start) && Boundary(c, b.end)
    && Leader(c, b.start) && DecodesTo(c, b.start, b.end)
    && (forall q :: b.start < q < b.end ==> !Leader(c, q))
  }

  /** The starts of the listed successors are exactly, in order, where the last instruction can go. */
  ghost predicate EdgesOk(c: Code, blocks: seq<Block>, b: Block)
    requires WellFormed(c) && BlockOk(c, b)
  {
    var last := Last(c, b.start, b.end);
    && Boundary(c, last) && |b.successors| == |Successors(c, last)|
    && forall i :: 0 <= i < |b.successors| ==>
         b.successors[i] < |blocks| && blocks[b.successors[i]].start == Successors(c, last)[i]
  }

  ghost predicate Faithful(c: Code, blocks: seq<Block>)
    requires WellFormed(c)
  {
    && (forall i :: 0 <= i < |blocks| ==> blocks[i].id == i && BlockOk(c, blocks[i]) && EdgesOk(c, blocks, blocks[i]))
    && (forall i, j :: 0 <= i < j < |blocks| ==> blocks[i].end <= blocks[j].start)
  }

  lemma {:induction false} LastIsBoundary(c: Code, start: nat, end: nat)
    requires WellFormed(c) && start < end <= |c.bytes| && Boundary(c, start) && DecodesTo(c, start, end)
    ensures Boundary(c, Last(c, start, end)) && InstructionOk(c, Last(c, start, end))
  {
    var last := Last(c, start, end);
    DecodesAppend(c, 0, start, last);
  }

  /** Inside a block, an instruction that is not the last one falls through. */
  lemma {:induction false} InsideIsSequential(c: Code, b: Block, pc: nat)
    requires WellFormed(c) && BlockOk(c, b) && b.start <= pc < b.end && Boundary(c, pc)
    ensures pc == Last(c, b.start, b.end) || (At(c, pc).flow == Sequential && Next(c, pc) < b.end)
  {
    var last := Last(c, b.start, b.end);
    LastIsBoundary(c, b.start, b.end);
    NextIsBoundary(c, pc);
    NextIsBoundary(c, last);
    assert InstructionOk(c, pc);
    if pc != last && At(c, pc).flow != Sequential {
      assert Marks(c, pc, Next(c, pc));
      assert Leader(c, Next(c, pc));
    }
  }

  /** The graph is faithful: from an instruction of block b, the machine steps to pc' exactly when
      pc' is the next instruction of b, or pc is the last one and pc' starts a listed successor. */
  lemma {:induction false} StepsFollowEdges(c: Code, blocks: seq<Block>, b: Block, pc: nat, pc': nat)
    requires WellFormed(c) && Faithful(c, blocks) && b in blocks
    requires b.start <= pc < b.end && Boundary(c, pc)
    ensures Step(c, pc, pc') <==>
      || (pc' == Next(c, pc) < b.end)
      || (pc == Last(c, b.start, b.end) && exists i :: 0 <= i < |b.successors| && blocks[b.successors[i]].start == pc')
  {
    InsideIsSequential(c, b, pc);
    StepIsSuccessor(c, pc, pc');
    assert BlockOk(c, b) && EdgesOk(c, blocks, b);
    if pc == Last(c, b.start, b.end) && pc' in Successors(c, pc) {
      var i :| 0 <= i < |Successors(c, pc)| && Successors(c, pc)[i] == pc';
      assert blocks[b.successors[i]].start == pc';
    }
  }

  /** No jump target and no handler lies strictly inside a block. */
  lemma NothingEntersInside(c: Code, blocks: seq<Block>, b: Block, q: nat)
    requires WellFormed(c) && Faithful(c, blocks) && b in blocks && b.start < q < b.end
    ensures q !in c.handlers
    ensures forall p :: 0 <= p < |c.bytes| && Boundary(c, p) && IsJump(At(c, p).flow) ==> Target(c, p) != q
  {
    assert BlockOk(c, b) && !Leader(c, q);
    forall p | 0 <= p < |c.bytes| && Boundary(c, p) && IsJump(At(c, p).flow)
      ensures Target(c, p) != q
    {
      assert InstructionOk(c, p) && !Marks(c, p, q);
    }
  }

  /** One block per start, still without edges. */
  ghost predicate Blocked(c: Code, starts: seq<nat>, blocks: seq<Block>)
    requires WellFormed(c)
  {
    && |blocks| <= |starts|
    && (forall i :: 0 <= i < |blocks| ==> BlockOk(c, blocks[i]) && blocks[i].id == i)
    && (forall i {:trigger blocks[i]} :: 0 <= i < |blocks| ==> blocks[i].start == starts[i])
    && (forall i {:trigger blocks[i]} :: 0 <= i < |blocks| ==> blocks[i].end == EndOf(c, starts, i))
  }

  /** A block ends where the next one starts, or with the code. */
  function EndOf(c: Code, starts: seq<nat>, i: nat): nat {
    if i + 1 < |starts| then starts[i + 1] else |c.bytes|
  }

  lemma {:induction false} BetweenLeaders(c: Code, leaders: seq<bool>, starts: seq<nat>, i: nat)
    requires WellFormed(c) && |leaders| == |c.bytes| && StartsOf(starts, leaders, |leaders|) && i < |starts|
    requires forall q :: 0 <= q < |leaders| ==> (leaders[q] <==> Leader(c, q))
    ensures var end := if i + 1 < |starts| then starts[i + 1] else |c.bytes|;
      BlockOk(c, Block(i, starts[i], end, [], []))
  {
    var start := starts[i];
    var end := if i + 1 < |starts| then starts[i + 1] else |c.bytes|;
    assert leaders[start];
    LeaderIsBoundary(c, start);
    EndIsBoundary(c);
    if i + 1 < |starts| {
      assert leaders[end];
      LeaderIsBoundary(c, end);
    }
    DecodesAppend(c, 0, start, end);
    forall q | start < q < end
      ensures !Leader(c, q)
    {
      BetweenStarts(starts, i, q);
    }
  }

  lemma BetweenStarts(starts: seq<nat>, i: nat, q: nat)
    requires forall j, k :: 0 <= j < k < |starts| ==> starts[j] < starts[k]
    requires i < |starts| && starts[i] < q && (i + 1 < |starts| ==> q < starts[i + 1])
    ensures q !in starts
  {
    forall k | 0 <= k < |starts|
      ensures starts[k] != q
    {
      assert k < i ==> starts[k] < starts[i];
      assert i + 1 < k ==> starts[i + 1] < starts[k];
    }
  }

  lemma {:induction false} EndIsBoundary(c: Code)
    requires WellFormed(c)
    ensures Boundary(c, |c.bytes|)
  {
    DecodesToEnd(c, 0);
  }

  lemma {:induction false} DecodesToEnd(c: Code, pc: nat)
    requires WellFormed(c) && pc <= |c.bytes| && Boundary(c, pc)
    ensures DecodesTo(c, pc, |c.bytes|)
    decreases |c.bytes| - pc
  {
    if pc < |c.bytes| {
      assert InstructionOk(c, pc);
      NextIsBoundary(c, pc);
      DecodesToEnd(c, Next(c, pc));
    }
  }

  /** Blocks between consecutive starts, the block at each start, and the blocks that are handlers. */
  method MakeBlocks(c: Code, leaders: seq<bool>, starts: seq<nat>)
    returns (blocks: seq<Block>, blockAt: seq<int>, handlers: seq<nat>)
    requires WellFormed(c) && |leaders| == |c.bytes| && StartsOf(starts, leaders, |leaders|)
    requires forall q :: 0 <= q < |leaders| ==> (leaders[q] <==> Leader(c, q))
    ensures Blocked(c, starts, blocks) && |blocks| == |starts| && |blockAt| == |c.bytes|
    ensures forall q :: 0 <= q < |c.bytes| && Leader(c, q) ==>
      0 <= blockAt[q] < |blocks| && blocks[blockAt[q]].start == q
    ensures forall i :: 0 <= i < |blocks| ==> (i in handlers <==> blocks[i].start in c.handlers)
    ensures InRange(handlers, |blocks|)
  {
    blocks, handlers := [], [];
    blockAt := seq(|c.bytes|, _ => -1);
    var i := 0;
    while i < |starts|
      invariant 0 <= i <= |starts| && |blocks| == i && Blocked(c, starts, blocks) && |blockAt| == |c.bytes|
      invariant forall k :: 0 <= k < i ==> blockAt[starts[k]] == k
      invariant forall k :: 0 <= k < i ==> (k in handlers <==> starts[k] in c.handlers)
      invariant InRange(handlers, i)
    {
      BetweenLeaders(c, leaders, starts, i);
      var end := if i + 1 < |starts| then starts[i + 1] else |c.bytes|;
      blockAt := blockAt[starts[i] := i];
      blocks := blocks + [Block(i, starts[i], end, [], [])];
      if starts[i] in c.handlers {
        handlers := handlers + [i];
      }
      i := i + 1;
    }
    forall q | 0 <= q < |c.bytes| && Leader(c, q)
      ensures 0 <= blockAt[q] < |blocks| && blocks[blockAt[q]].start == q
    {
      var k :| 0 <= k < |starts| && starts[k] == q;
      assert blockAt[starts[k]] == k;
    }
  }

  lemma {:induction false} SuccessorIsLeader(c: Code, pc: nat, i: nat)
    requires WellFormed(c) && pc < |c.bytes| && Boundary(c, pc) && InstructionOk(c, pc) && i < |Successors(c, pc)|
    requires At(c, pc).flow == Sequential ==> Leader(c, Next(c, pc)) || Next(c, pc) == |c.bytes|
    ensures Leader(c, Successors(c, pc)[i])
  {
    assert At(c, pc).flow != Sequential ==> Marks(c, pc, Successors(c, pc)[i]);
  }

  /** The successors of one block: fall-through, then jump target. */
  method BlockSuccessors(c: Code, b: Block, blocks: seq<Block>, blockAt: seq<int>) returns (b': Block)
    requires WellFormed(c) && BlockOk(c, b) && |blockAt| == |c.bytes|
    requires b.end == |c.bytes| || Leader(c, b.end)
    requires forall q :: 0 <= q < |c.bytes| && Leader(c, q) ==>
      0 <= blockAt[q] < |blocks| && blocks[blockAt[q]].start == q
    ensures b' == b.(successors := b'.successors) && EdgesOk(c, blocks, b')
  {
    var last := FindLast(c, b.start, b.end);
    LastIsBoundary(c, b.start, b.end);
    ghost var pcs := Successors(c, last);
    forall i | 0 <= i < |pcs|
      ensures Leader(c, pcs[i])
    {
      SuccessorIsLeader(c, last, i);
    }
    var flow := At(c, last).flow;
    var successors := [];
    if flow == Sequential || flow == ConditionalJump {
      if b.end < |c.bytes| {
        assert pcs[0] == b.end;
        successors := successors + [blockAt[b.end]];
      }
    }
    if IsJump(flow) {
      var target := Target(c, last);
      assert pcs[|pcs| - 1] == target;
      successors := successors + [blockAt[target]];
    }
    b' := b.(successors := successors);
  }

  lemma BlockBounds(c: Code, starts: seq<nat>, blocks: seq<Block>, i: nat)
    requires WellFormed(c) && Blocked(c, starts, blocks) && i < |blocks| == |starts|
    requires forall i :: 0 <= i < |starts| ==> Leader(c, starts[i])
    ensures BlockOk(c, blocks[i]) && (blocks[i].end == |c.bytes| || Leader(c, blocks[i].end))
  {
    assert i + 1 < |starts| ==> Leader(c, starts[i + 1]);
  }

  method AddSuccessors(c: Code, starts: seq<nat>, blocks: seq<Block>, blockAt: seq<int>) returns (blocks': seq<Block>)
    requires WellFormed(c) && Blocked(c, starts, blocks) && |blocks| == |starts| && |blockAt| == |c.bytes|
    requires forall i, j :: 0 <= i < j < |starts| ==> starts[i] < starts[j]
    requires forall i :: 0 <= i < |starts| ==> Leader(c, starts[i])
    requires forall q :: 0 <= q < |c.bytes| && Leader(c, q) ==>
      0 <= blockAt[q] < |blocks| && blocks[blockAt[q]].start == q
    ensures |blocks'| == |blocks| && Faithful(c, blocks')
    ensures forall i :: 0 <= i < |blocks| ==> blocks'[i].start == blocks[i].start
  {
    blocks' := [];
    var i := 0;
    while i < |blocks|
      invariant 0 <= i <= |blocks| && |blocks'| == i
      invariant forall k :: 0 <= k < i ==> Linked(c, blocks, blocks[k], blocks'[k])
    {
      BlockBounds(c, starts, blocks, i);
      var b := BlockSuccessors(c, blocks[i], blocks, blockAt);
      blocks' := blocks' + [b];
      i := i + 1;
    }
    LinkedIsFaithful(c, starts, blocks, blocks');
  }

  /** b' is b with its successor edges, as block numbers of `blocks`. */
  ghost predicate Linked(c: Code, blocks: seq<Block>, b: Block, b': Block)
    requires WellFormed(c) && BlockOk(c, b)
  {
    b' == b.(successors := b'.successors) && EdgesOk(c, blocks, b')
  }

  /** Edges depend only on where the blocks start. */
  lemma EdgesByStarts(c: Code, blocks: seq<Block>, blocks': seq<Block>, b: Block)
    requires WellFormed(c) && BlockOk(c, b) && EdgesOk(c, blocks, b) && |blocks| == |blocks'|
    requires forall k :: 0 <= k < |blocks| ==> blocks'[k].start == blocks[k].start
    ensures EdgesOk(c, blocks', b)
  {}

  lemma LinkedExtent(c: Code, starts: seq<nat>, blocks: seq<Block>, blocks': seq<Block>, k: nat)
    requires WellFormed(c) && Blocked(c, starts, blocks) && k < |blocks| == |starts| == |blocks'|
    requires Linked(c, blocks, blocks[k], blocks'[k])
    ensures blocks'[k].id == k && blocks'[k].start == blocks[k].start == starts[k]
    ensures blocks'[k].end == EndOf(c, starts, k)
    ensures BlockOk(c, blocks'[k]) && EdgesOk(c, blocks, blocks'[k])
  {}

  lemma LinkedExtents(c: Code, starts: seq<nat>, blocks: seq<Block>, blocks': seq<Block>)
    requires WellFormed(c) && Blocked(c, starts, blocks) && |blocks| == |starts| == |blocks'|
    requires forall k :: 0 <= k < |blocks| ==> Linked(c, blocks, blocks[k], blocks'[k])
    ensures forall k :: 0 <= k < |blocks| ==> blocks'[k].start == blocks[k].start
    ensures forall k {:trigger blocks'[k]} :: 0 <= k < |blocks| ==> blocks'[k].start == starts[k]
    ensures forall k {:trigger blocks'[k]} :: 0 <= k < |blocks| ==> blocks'[k].end == EndOf(c, starts, k)
  {
    forall k | 0 <= k < |blocks|
      ensures blocks'[k].start == blocks[k].start == starts[k] && blocks'[k].end == EndOf(c, starts, k)
    {
      LinkedExtent(c, starts, blocks, blocks', k);
    }
  }

  /** Blocks between consecutive starts do not overlap. */
  lemma BlocksInOrder(c: Code, starts: seq<nat>, blocks: seq<Block>)
    requires |blocks| == |starts| && forall i, j :: 0 <= i < j < |starts| ==> starts[i] < starts[j]
    requires forall k {:trigger blocks[k]} :: 0 <= k < |blocks| ==> blocks[k].start == starts[k]
    requires forall k {:trigger blocks[k]} :: 0 <= k < |blocks| ==> blocks[k].end == EndOf(c, starts, k)
    ensures forall k, l :: 0 <= k < l < |blocks| ==> blocks[k].end <= blocks[l].start
  {
    forall k, l | 0 <= k < l < |blocks|
      ensures blocks[k].end <= blocks[l].start
    {
      assert k + 1 == l || starts[k + 1] < starts[l];
    }
  }

  lemma LinkedIsFaithful(c: Code, starts: seq<nat>, blocks: seq<Block>, blocks': seq<Block>)
    requires WellFormed(c) && Blocked(c, starts, blocks) && |blocks| == |starts| == |blocks'|
    requires forall i, j :: 0 <= i < j < |starts| ==> starts[i] < starts[j]
    requires forall k :: 0 <= k < |blocks| ==> Linked(c, blocks, blocks[k], blocks'[k])
    ensures Faithful(c, blocks')
  {
    LinkedExtents(c, starts, blocks, blocks');
    BlocksInOrder(c, starts, blocks');
    forall k | 0 <= k < |blocks|
      ensures blocks'[k].id == k && BlockOk(c, blocks'[k]) && EdgesOk(c, blocks', blocks'[k])
    {
      LinkedExtent(c, starts, blocks, blocks', k);
      EdgesByStarts(c, blocks, blocks', blocks'[k]);
    }
  }

  /** Predecessor lists are the transpose of successor lists, with multiplicity. */
  ghost predicate Transposed(blocks: seq<Block>) {
    && (forall b :: 0 <= b < |blocks| ==>
          InRange(blocks[b].successors, |blocks|) && InRange(blocks[b].predecessors, |blocks|))
    && forall a, b :: 0 <= a < |blocks| && 0 <= b < |blocks| ==>
      multiset(blocks[b].predecessors)[a] == multiset(blocks[a].successors)[b]
  }

  predicate InRange(ids: seq<nat>, n: nat) {
    forall i :: 0 <= i < |ids| ==> ids[i] < n
  }

  /** How often the edge from x to b was seen, after the blocks before a and the first k edges of a. */
  ghost function Seen(blocks: seq<Block>, a: nat, k: nat, x: nat, b: nat): nat
    requires x < |blocks| && (a < |blocks| ==> k <= |blocks[a].successors|)
  {
    if x < a then multiset(blocks[x].successors)[b]
    else if x == a then multiset(blocks[x].successors[..k])[b]
    else 0
  }

  ghost predicate TransposedUpTo(blocks: seq<Block>, preds: seq<seq<nat>>, a: nat, k: nat)
    requires a < |blocks| ==> k <= |blocks[a].successors|
  {
    && |preds| == |blocks|
    && (forall b :: 0 <= b < |preds| ==> InRange(preds[b], |blocks|))
    && forall x, b :: 0 <= x < |blocks| && 0 <= b < |blocks| ==> multiset(preds[b])[x] == Seen(blocks, a, k, x, b)
  }

  lemma TransposedEdge(blocks: seq<Block>, preds: seq<seq<nat>>, a: nat, k: nat)
    requires a < |blocks| && k < |blocks[a].successors| && blocks[a].successors[k] < |blocks|
    requires TransposedUpTo(blocks, preds, a, k)
    ensures var s := blocks[a].successors[k];
      TransposedUpTo(blocks, preds[s := preds[s] + [a]], a, k + 1)
  {
    var succ := blocks[a].successors;
    var s := succ[k];
    var preds' := preds[s := preds[s] + [a]];
    assert succ[..k + 1] == succ[..k] + [s];
    forall x, b | 0 <= x < |blocks| && 0 <= b < |blocks|
      ensures multiset(preds'[b])[x] == Seen(blocks, a, k + 1, x, b)
    {
      assert multiset(preds[b])[x] == Seen(blocks, a, k, x, b);
      assert b == s ==> multiset(preds'[b]) == multiset(preds[b]) + multiset{a};
    }
  }

  lemma TransposedBlock(blocks: seq<Block>, preds: seq<seq<nat>>, a: nat)
    requires a < |blocks| && TransposedUpTo(blocks, preds, a, |blocks[a].successors|)
    ensures TransposedUpTo(blocks, preds, a + 1, 0)
  {
    var succ := blocks[a].successors;
    assert succ[..|succ|] == succ;
    forall x, b | 0 <= x < |blocks| && 0 <= b < |blocks|
      ensures multiset(preds[b])[x] == Seen(blocks, a + 1, 0, x, b)
    {
      assert multiset(preds[b])[x] == Seen(blocks, a, |succ|, x, b);
      assert blocks[x].successors[..0] == [];
    }
  }

  lemma TransposedNone(blocks: seq<Block>, preds: seq<seq<nat>>)
    requires |preds| == |blocks| && forall b :: 0 <= b < |preds| ==> preds[b] == []
    ensures TransposedUpTo(blocks, preds, 0, 0)
  {
    assert forall x :: 0 <= x < |blocks| ==> blocks[x].successors[..0] == [];
  }

  lemma TransposedAll(blocks: seq<Block>, preds: seq<seq<nat>>, blocks': seq<Block>)
    requires TransposedUpTo(blocks, preds, |blocks|, 0) && |blocks'| == |blocks|
    requires forall b :: 0 <= b < |blocks| ==> InRange(blocks[b].successors, |blocks|)
    requires forall i :: 0 <= i < |blocks| ==> blocks'[i] == blocks[i].(predecessors := preds[i])
    ensures Transposed(blocks')
  {
    forall x, b | 0 <= x < |blocks| && 0 <= b < |blocks|
      ensures multiset(blocks'[b].predecessors)[x] == multiset(blocks'[x].successors)[b]
    {
      assert multiset(preds[b])[x] == Seen(blocks, |blocks|, 0, x, b);
    }
  }

  method AddPredecessors(blocks: seq<Block>) returns (blocks': seq<Block>)
    requires forall b :: 0 <= b < |blocks| ==> InRange(blocks[b].successors, |blocks|)
    ensures |blocks'| == |blocks| && Transposed(blocks')
    ensures forall i :: 0 <= i < |blocks| ==> blocks'[i] == blocks[i].(predecessors := blocks'[i].predecessors)
  {
    var preds: seq<seq<nat>> := seq(|blocks|, _ => []);
    TransposedNone(blocks, preds);
    var a := 0;
    while a < |blocks|
      invariant 0 <= a <= |blocks|
      invariant TransposedUpTo(blocks, preds, a, 0)
    {
      var k := 0;
      while k < |blocks[a].successors|
        invariant 0 <= k <= |blocks[a].successors|
        invariant TransposedUpTo(blocks, preds, a, k)
      {
        var s := blocks[a].successors[k];
        TransposedEdge(blocks, preds, a, k);
        preds := preds[s := preds[s] + [a]];
        k := k + 1;
      }
      TransposedBlock(blocks, preds, a);
      a := a + 1;
    }
    blocks' := seq(|blocks|,
      i requires 0 <= i < |blocks| && |preds| == |blocks| => blocks[i].(predecessors := preds[i]));
    TransposedAll(blocks, preds, blocks');
  }
}
