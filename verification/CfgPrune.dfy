/** Dropping unreachable blocks and renumbering the rest. */
module CfgPrune {
  import opened Bytecode
  import opened Cfg

  /** A path along successor edges that starts at a root. */
  ghost predicate Path(blocks: seq<Block>, roots: seq<nat>, p: seq<nat>) {
    && p != [] && p[0] in roots
    && (forall i :: 0 <= i < |p| ==> p[i] < |blocks|)
    && (forall i :: 0 <= i < |p| - 1 ==> p[i + 1] in blocks[p[i]].successors)
  }

  ghost predicate Reachable(blocks: seq<Block>, roots: seq<nat>, x: nat) {
    exists p :: Path(blocks, roots, p) && p[|p| - 1] == x
  }

  lemma ReachableRoot(blocks: seq<Block>, roots: seq<nat>, x: nat)
    requires x in roots && x < |blocks|
    ensures Reachable(blocks, roots, x)
  {
    assert Path(blocks, roots, [x]) && [x][|[x]| - 1] == x;
  }

  lemma ReachableNext(blocks: seq<Block>, roots: seq<nat>, x: nat, y: nat)
    requires x < |blocks| && Reachable(blocks, roots, x) && y in blocks[x].successors && y < |blocks|
    ensures Reachable(blocks, roots, y)
  {
    var p :| Path(blocks, roots, p) && p[|p| - 1] == x;
    var q := p + [y];
    assert Path(blocks, roots, q) && q[|q| - 1] == y;
  }

  /** A set that has the roots and is closed under edges has every path. */
  lemma {:induction false} ClosedHasPath(blocks: seq<Block>, roots: seq<nat>, reach: seq<bool>, p: seq<nat>)
    requires |reach| == |blocks| && Path(blocks, roots, p)
    requires forall x :: 0 <= x < |blocks| && x in roots ==> reach[x]
    requires forall x, y :: 0 <= x < |blocks| && reach[x] && 0 <= y < |blocks| && y in blocks[x].successors ==> reach[y]
    ensures reach[p[|p| - 1]]
  {
    if |p| > 1 {
      var init := p[..|p| - 1];
      assert Path(blocks, roots, init);
      ClosedHasPath(blocks, roots, reach, init);
      assert p[|p| - 2 + 1] in blocks[p[|p| - 2]].successors;
    }
  }

  /** The number of blocks kept before x: its new number. */
  function Rank(reach: seq<bool>, x: nat): nat
    requires x <= |reach|
  {
    if x == 0 then 0 else Rank(reach, x - 1) + if reach[x - 1] then 1 else 0
  }

  lemma {:induction false} RankMonotone(reach: seq<bool>, x: nat, y: nat)
    requires x <= y <= |reach|
    ensures Rank(reach, x) <= Rank(reach, y) <= y
    ensures x < y && reach[x] ==> Rank(reach, x) < Rank(reach, y)
    decreases y
  {
    if x < y {
      RankMonotone(reach, x, y - 1);
    } else if y > 0 {
      RankMonotone(reach, y - 1, y - 1);
    }
  }

  /** Every new number belongs to a kept block. */
  lemma {:induction false} RankOnto(reach: seq<bool>, n: nat, j: nat) returns (x: nat)
    requires n <= |reach| && j < Rank(reach, n)
    ensures x < n && reach[x] && Rank(reach, x) == j
  {
    if j < Rank(reach, n - 1) {
      x := RankOnto(reach, n - 1, j);
    } else {
      x := n - 1;
    }
  }

  lemma {:induction false} RankMark(reach: seq<bool>, x: nat, n: nat)
    requires x < |reach| && n <= |reach| && !reach[x]
    ensures Rank(reach[x := true], n) == Rank(reach, n) + if x < n then 1 else 0
  {
    if n > 0 {
      RankMark(reach, x, n - 1);
    }
  }

  /** What the worklist keeps: marked and pending blocks are reachable, roots and successors of
      marked blocks are marked or pending. */
  ghost predicate Marking(blocks: seq<Block>, roots: seq<nat>, reach: seq<bool>, pending: seq<nat>) {
    && |reach| == |blocks| && InRange(pending, |blocks|)
    && (forall i :: 0 <= i < |pending| ==> Reachable(blocks, roots, pending[i]))
    && (forall x :: 0 <= x < |blocks| && reach[x] ==> Reachable(blocks, roots, x))
    && (forall x :: 0 <= x < |blocks| && x in roots ==> reach[x] || x in pending)
    && (forall x, y :: 0 <= x < |blocks| && reach[x] && y in blocks[x].successors && 0 <= y < |blocks| ==>
          reach[y] || y in pending)
  }

  lemma MarkSkip(blocks: seq<Block>, roots: seq<nat>, reach: seq<bool>, pending: seq<nat>)
    requires Marking(blocks, roots, reach, pending) && pending != [] && reach[pending[|pending| - 1]]
    ensures Marking(blocks, roots, reach, pending[..|pending| - 1])
  {
    var rest := pending[..|pending| - 1];
    assert pending == rest + [pending[|pending| - 1]];
  }

  lemma MarkVisit(blocks: seq<Block>, roots: seq<nat>, reach: seq<bool>, pending: seq<nat>)
    requires Marking(blocks, roots, reach, pending) && pending != []
    requires InRange(blocks[pending[|pending| - 1]].successors, |blocks|)
    ensures var x := pending[|pending| - 1];
      Marking(blocks, roots, reach[x := true], pending[..|pending| - 1] + blocks[x].successors)
  {
    var x := pending[|pending| - 1];
    var rest := pending[..|pending| - 1];
    assert pending == rest + [x];
    var succ := blocks[x].successors;
    forall i | 0 <= i < |succ|
      ensures Reachable(blocks, roots, succ[i])
    {
      ReachableNext(blocks, roots, x, succ[i]);
    }
  }

  /** Depth-first marking. Each round marks a block or shortens the pending list. */
  method MarkReachable(blocks: seq<Block>, roots: seq<nat>) returns (reach: seq<bool>)
    requires forall b :: 0 <= b < |blocks| ==> InRange(blocks[b].successors, |blocks|)
    requires InRange(roots, |blocks|)
    ensures |reach| == |blocks|
    ensures forall x :: 0 <= x < |blocks| ==> (reach[x] <==> Reachable(blocks, roots, x))
  {
    reach := seq(|blocks|, _ => false);
    var pending: seq<nat> := roots;
    MarkStart(blocks, roots, reach);
    RankMonotone(reach, |blocks|, |blocks|);
    while pending != []
      invariant Marking(blocks, roots, reach, pending)
      invariant Rank(reach, |blocks|) <= |blocks|
      decreases |blocks| - Rank(reach, |blocks|), |pending|
    {
      var x := pending[|pending| - 1];
      if reach[x] {
        MarkSkip(blocks, roots, reach, pending);
        pending := pending[..|pending| - 1];
      } else {
        MarkVisit(blocks, roots, reach, pending);
        RankMark(reach, x, |blocks|);
        RankMonotone(reach[x := true], |blocks|, |blocks|);
        pending := pending[..|pending| - 1] + blocks[x].successors;
        reach := reach[x := true];
      }
    }
    MarkedIsReachable(blocks, roots, reach);
  }

  /** With nothing pending, exactly the reachable blocks are marked. */
  lemma MarkedIsReachable(blocks: seq<Block>, roots: seq<nat>, reach: seq<bool>)
    requires Marking(blocks, roots, reach, [])
    ensures forall x :: 0 <= x < |blocks| ==> (reach[x] <==> Reachable(blocks, roots, x))
  {
    forall x | 0 <= x < |blocks| && Reachable(blocks, roots, x)
      ensures reach[x]
    {
      var p :| Path(blocks, roots, p) && p[|p| - 1] == x;
      ClosedHasPath(blocks, roots, reach, p);
    }
  }

  lemma MarkStart(blocks: seq<Block>, roots: seq<nat>, reach: seq<bool>)
    requires InRange(roots, |blocks|) && |reach| == |blocks| && forall x :: 0 <= x < |reach| ==> !reach[x]
    ensures Marking(blocks, roots, reach, roots)
  {
    forall i | 0 <= i < |roots|
      ensures Reachable(blocks, roots, roots[i])
    {
      ReachableRoot(blocks, roots, roots[i]);
    }
  }

  function Renumbered(reach: seq<bool>, ids: seq<nat>): seq<nat>
    requires InRange(ids, |reach|)
  {
    seq(|ids|, i requires 0 <= i < |ids| => Rank(reach, ids[i]))
  }

  /** blocks' are the kept blocks under their new numbers, with all their edges. */
  ghost predicate Kept(blocks: seq<Block>, reach: seq<bool>, blocks': seq<Block>) {
    && |reach| == |blocks| && |blocks'| == Rank(reach, |blocks|)
    && forall x :: 0 <= x < |blocks| && reach[x] ==>
      && Rank(reach, x) < |blocks'| && InRange(blocks[x].successors, |blocks|)
      && var b := blocks'[Rank(reach, x)];
         b.id == Rank(reach, x) && b.start == blocks[x].start && b.end == blocks[x].end
         && b.successors == Renumbered(reach, blocks[x].successors)
  }

  /** The kept blocks, renumbered in order; the table of new numbers is -1 for dropped blocks. */
  method Renumber(blocks: seq<Block>, reach: seq<bool>) returns (kept: seq<Block>, newId: seq<int>)
    requires |reach| == |blocks|
    ensures |newId| == |blocks| && |kept| == Rank(reach, |blocks|)
    ensures forall x :: 0 <= x < |blocks| ==> newId[x] == if reach[x] then Rank(reach, x) else -1
    ensures forall x :: 0 <= x < |blocks| && reach[x] ==>
      && Rank(reach, x) < |kept|
      && kept[Rank(reach, x)] == Block(Rank(reach, x), blocks[x].start, blocks[x].end, [], blocks[x].successors)
  {
    newId := seq(|blocks|, _ => -1);
    kept := [];
    var x := 0;
    while x < |blocks|
      invariant 0 <= x <= |blocks| && |newId| == |blocks| && |kept| == Rank(reach, x)
      invariant forall y :: 0 <= y < |blocks| ==> newId[y] == if y < x && reach[y] then Rank(reach, y) else -1
      invariant forall y :: 0 <= y < x && reach[y] ==>
        && Rank(reach, y) < |kept|
        && kept[Rank(reach, y)] == Block(Rank(reach, y), blocks[y].start, blocks[y].end, [], blocks[y].successors)
    {
      if reach[x] {
        newId := newId[x := |kept|];
        kept := kept + [Block(|kept|, blocks[x].start, blocks[x].end, [], blocks[x].successors)];
      }
      x := x + 1;
    }
  }

  /** New numbers for a list of kept blocks. */
  method MapIds(newId: seq<int>, ids: seq<nat>, ghost reach: seq<bool>) returns (r: seq<nat>)
    requires |newId| == |reach| && InRange(ids, |reach|)
    requires forall i :: 0 <= i < |ids| ==> reach[ids[i]]
    requires forall x :: 0 <= x < |reach| && reach[x] ==> newId[x] == Rank(reach, x)
    ensures r == Renumbered(reach, ids)
  {
    r := [];
    var i := 0;
    while i < |ids|
      invariant 0 <= i <= |ids| && |r| == i
      invariant forall k :: 0 <= k < i ==> r[k] == Rank(reach, ids[k])
    {
      r := r + [newId[ids[i]]];
      i := i + 1;
    }
  }

  /** A kept block has only kept successors. */
  ghost predicate ClosedUnderEdges(blocks: seq<Block>, reach: seq<bool>) {
    |reach| == |blocks| && forall x, i :: 0 <= x < |blocks| && reach[x] && 0 <= i < |blocks[x].successors| ==>
      blocks[x].successors[i] < |blocks| && reach[blocks[x].successors[i]]
  }

  lemma ReachableIsClosed(blocks: seq<Block>, roots: seq<nat>, reach: seq<bool>)
    requires |reach| == |blocks| && forall b :: 0 <= b < |blocks| ==> InRange(blocks[b].successors, |blocks|)
    requires forall x :: 0 <= x < |blocks| ==> (reach[x] <==> Reachable(blocks, roots, x))
    ensures ClosedUnderEdges(blocks, reach)
  {
    forall x, i | 0 <= x < |blocks| && reach[x] && 0 <= i < |blocks[x].successors|
      ensures reach[blocks[x].successors[i]]
    {
      ReachableNext(blocks, roots, x, blocks[x].successors[i]);
    }
  }

  /** Drops what is not marked, keeping every edge between what is. */
  method Discard(blocks: seq<Block>, reach: seq<bool>) returns (blocks': seq<Block>, newId: seq<int>)
    requires ClosedUnderEdges(blocks, reach)
    ensures Kept(blocks, reach, blocks') && Transposed(blocks') && |newId| == |blocks|
    ensures forall x :: 0 <= x < |blocks| ==> newId[x] == if reach[x] then Rank(reach, x) else -1
  {
    var kept;
    kept, newId := Renumber(blocks, reach);
    ghost var plain := kept;
    var j := 0;
    while j < |kept|
      invariant 0 <= j <= |kept| == |plain|
      invariant forall k :: j <= k < |kept| ==> kept[k] == plain[k]
      invariant forall k :: 0 <= k < j ==>
        InRange(plain[k].successors, |reach|)
        && kept[k] == plain[k].(successors := Renumbered(reach, plain[k].successors))
    {
      ghost var x := RankOnto(reach, |blocks|, j);
      var successors := MapIds(newId, kept[j].successors, reach);
      kept := kept[j := kept[j].(successors := successors)];
      j := j + 1;
    }
    forall b | 0 <= b < |kept|
      ensures InRange(kept[b].successors, |kept|)
    {
      var x := RankOnto(reach, |blocks|, b);
      forall i | 0 <= i < |blocks[x].successors|
        ensures Rank(reach, blocks[x].successors[i]) < Rank(reach, |blocks|)
      {
        RankMonotone(reach, blocks[x].successors[i], |blocks|);
      }
    }
    blocks' := AddPredecessors(kept);
  }

  /** Pruning keeps the graph faithful. */
  lemma {:induction false} KeptIsFaithful(c: Code, blocks: seq<Block>, reach: seq<bool>, blocks': seq<Block>)
    requires WellFormed(c) && Faithful(c, blocks) && ClosedUnderEdges(blocks, reach) && Kept(blocks, reach, blocks')
    ensures Faithful(c, blocks')
  {
    forall j | 0 <= j < |blocks'|
      ensures blocks'[j].id == j && BlockOk(c, blocks'[j]) && EdgesOk(c, blocks', blocks'[j])
    {
      var x := RankOnto(reach, |blocks|, j);
      assert EdgesOk(c, blocks, blocks[x]);
    }
    forall i, j | 0 <= i < j < |blocks'|
      ensures blocks'[i].end <= blocks'[j].start
    {
      var x := RankOnto(reach, |blocks|, i);
      var y := RankOnto(reach, |blocks|, j);
      if y <= x {
        RankMonotone(reach, y, x);
      }
    }
  }

  /** A listed handler block starts at pc. */
  ghost predicate HandledAt(blocks: seq<Block>, handlers: seq<nat>, pc: nat) {
    exists i :: 0 <= i < |handlers| && handlers[i] < |blocks| && blocks[handlers[i]].start == pc
  }

  /** The entry is block 0, and the handler blocks are those that start at handlers. */
  ghost predicate Entered(c: Code, blocks: seq<Block>, handlers: seq<nat>) {
    && |blocks| > 0 && blocks[0].start == 0 && InRange(handlers, |blocks|)
    && (forall i :: 0 <= i < |handlers| ==> blocks[handlers[i]].start in c.handlers)
    && (forall h :: 0 <= h < |c.handlers| ==> HandledAt(blocks, handlers, c.handlers[h]))
  }

  /** Filling in predecessors does not touch what makes a graph faithful. */
  lemma PredecessorsKeepFaithful(c: Code, blocks: seq<Block>, blocks': seq<Block>)
    requires WellFormed(c) && Faithful(c, blocks) && |blocks'| == |blocks|
    requires forall i :: 0 <= i < |blocks| ==> blocks'[i] == blocks[i].(predecessors := blocks'[i].predecessors)
    ensures Faithful(c, blocks')
  {
    forall i | 0 <= i < |blocks|
      ensures EdgesOk(c, blocks', blocks'[i])
    {
      assert EdgesOk(c, blocks, blocks[i]);
    }
  }

  lemma EnteredByStarts(c: Code, blocks: seq<Block>, blocks': seq<Block>, handlers: seq<nat>)
    requires Entered(c, blocks, handlers) && |blocks'| == |blocks|
    requires forall i :: 0 <= i < |blocks| ==> blocks'[i].start == blocks[i].start
    ensures Entered(c, blocks', handlers)
  {
    forall h | 0 <= h < |c.handlers|
      ensures HandledAt(blocks', handlers, c.handlers[h])
    {
      assert HandledAt(blocks, handlers, c.handlers[h]);
      var i :| 0 <= i < |handlers| && handlers[i] < |blocks| && blocks[handlers[i]].start == c.handlers[h];
      assert blocks'[handlers[i]].start == c.handlers[h];
    }
  }

  lemma EdgesInRange(c: Code, blocks: seq<Block>)
    requires WellFormed(c) && Faithful(c, blocks)
    ensures forall b :: 0 <= b < |blocks| ==> InRange(blocks[b].successors, |blocks|)
  {
    forall b | 0 <= b < |blocks|
      ensures InRange(blocks[b].successors, |blocks|)
    {
      assert EdgesOk(c, blocks, blocks[b]);
    }
  }

  lemma EnteredAt(c: Code, blocks: seq<Block>, blockAt: seq<int>, handlers: seq<nat>, leaders: seq<bool>,
      starts: seq<nat>)
    requires WellFormed(c) && |leaders| == |c.bytes| == |blockAt| && StartsOf(starts, leaders, |leaders|) && leaders[0]
    requires |blocks| == |starts| && forall i :: 0 <= i < |blocks| ==> blocks[i].start == starts[i]
    requires forall q :: 0 <= q < |c.bytes| && Leader(c, q) ==>
      0 <= blockAt[q] < |blocks| && blocks[blockAt[q]].start == q
    requires forall i :: 0 <= i < |blocks| ==> (i in handlers <==> blocks[i].start in c.handlers)
    requires InRange(handlers, |blocks|)
    ensures Entered(c, blocks, handlers)
  {
    assert 0 in starts && starts[0] == 0;
    forall h | 0 <= h < |c.handlers|
      ensures HandledAt(blocks, handlers, c.handlers[h])
    {
      assert Leader(c, c.handlers[h]);
      var b := blockAt[c.handlers[h]];
      assert b in handlers;
      var i :| 0 <= i < |handlers| && handlers[i] == b;
      assert blocks[handlers[i]].start == c.handlers[h];
    }
  }

  /** Being entered depends only on where the blocks start. */
  lemma EnteredByPlain(c: Code, plain: seq<Block>, blocks: seq<Block>, blockAt: seq<int>, handlers: seq<nat>,
      leaders: seq<bool>, starts: seq<nat>)
    requires WellFormed(c) && |leaders| == |c.bytes| == |blockAt| && StartsOf(starts, leaders, |leaders|) && leaders[0]
    requires Blocked(c, starts, plain) && |plain| == |starts| == |blocks|
    requires forall i :: 0 <= i < |plain| ==> blocks[i].start == plain[i].start
    requires forall q :: 0 <= q < |c.bytes| && Leader(c, q) ==>
      0 <= blockAt[q] < |plain| && plain[blockAt[q]].start == q
    requires forall i :: 0 <= i < |plain| ==> (i in handlers <==> plain[i].start in c.handlers)
    requires InRange(handlers, |plain|)
    ensures Entered(c, blocks, handlers)
  {
    EnteredAt(c, blocks, blockAt, handlers, leaders, starts);
  }

  lemma StartsLead(c: Code, leaders: seq<bool>, starts: seq<nat>)
    requires WellFormed(c) && |leaders| == |c.bytes| && StartsOf(starts, leaders, |leaders|)
    requires forall q :: 0 <= q < |leaders| ==> (leaders[q] <==> Leader(c, q))
    ensures leaders[0] && forall i :: 0 <= i < |starts| ==> Leader(c, starts[i])
  {
    assert Leader(c, 0);
    assert forall i :: 0 <= i < |starts| ==> leaders[starts[i]];
  }

  /** All blocks with their successors. */
  method LinkedBlocks(c: Code) returns (blocks: seq<Block>, handlers: seq<nat>)
    requires WellFormed(c)
    ensures Faithful(c, blocks) && Entered(c, blocks, handlers)
  {
    var leaders := FindLeaders(c);
    var starts := BlockStarts(leaders);
    var plain, blockAt;
    plain, blockAt, handlers := MakeBlocks(c, leaders, starts);
    StartsLead(c, leaders, starts);
    blocks := AddSuccessors(c, starts, plain, blockAt);
    EnteredByPlain(c, plain, blocks, blockAt, handlers, leaders, starts);
  }

  /** All blocks, reachable or not. */
  method AllBlocks(c: Code) returns (blocks: seq<Block>, handlers: seq<nat>)
    requires WellFormed(c)
    ensures Faithful(c, blocks) && Transposed(blocks) && Entered(c, blocks, handlers)
  {
    var linked;
    linked, handlers := LinkedBlocks(c);
    EdgesInRange(c, linked);
    blocks := AddPredecessors(linked);
    PredecessorsKeepFaithful(c, linked, blocks);
    EnteredByStarts(c, linked, blocks, handlers);
  }

  lemma {:induction false} PathIsReachable(blocks: seq<Block>, roots: seq<nat>, p: seq<nat>, i: nat)
    requires Path(blocks, roots, p) && i < |p|
    ensures Reachable(blocks, roots, p[i])
  {
    assert Path(blocks, roots, p[..i + 1]) && p[..i + 1][|p[..i + 1]| - 1] == p[i];
  }

  /** A path along kept blocks is a path under the new numbers. */
  lemma {:induction false} KeptPath(blocks: seq<Block>, roots: seq<nat>, reach: seq<bool>, blocks': seq<Block>,
      roots': seq<nat>, p: seq<nat>)
    requires Kept(blocks, reach, blocks') && InRange(roots, |blocks|) && roots' == Renumbered(reach, roots)
    requires Path(blocks, roots, p) && forall i :: 0 <= i < |p| ==> reach[p[i]]
    ensures Path(blocks', roots', Renumbered(reach, p))
  {
    var q := Renumbered(reach, p);
    var r :| 0 <= r < |roots| && roots[r] == p[0];
    assert roots'[r] == q[0];
    forall i | 0 <= i < |q| - 1
      ensures q[i + 1] in blocks'[q[i]].successors
    {
      var k :| 0 <= k < |blocks[p[i]].successors| && blocks[p[i]].successors[k] == p[i + 1];
      assert blocks'[q[i]].successors[k] == q[i + 1];
    }
  }

  /** Everything in the graph can be reached from the entry or a handler. */
  ghost predicate AllReachable(blocks: seq<Block>, handlers: seq<nat>) {
    forall b :: 0 <= b < |blocks| ==> Reachable(blocks, handlers + [0], b)
  }

  lemma {:induction false} KeptAreReachable(blocks: seq<Block>, handlers: seq<nat>, reach: seq<bool>,
      blocks': seq<Block>, handlers': seq<nat>)
    requires Kept(blocks, reach, blocks') && InRange(handlers, |blocks|) && |blocks| > 0
    requires forall x :: 0 <= x < |blocks| ==> (reach[x] <==> Reachable(blocks, handlers + [0], x))
    requires handlers' == Renumbered(reach, handlers)
    ensures AllReachable(blocks', handlers')
  {
    var roots, roots' := handlers + [0], handlers' + [0];
    assert roots' == Renumbered(reach, roots);
    forall b | 0 <= b < |blocks'|
      ensures Reachable(blocks', roots', b)
    {
      var x := RankOnto(reach, |blocks|, b);
      var p :| Path(blocks, roots, p) && p[|p| - 1] == x;
      forall i | 0 <= i < |p|
        ensures reach[p[i]]
      {
        PathIsReachable(blocks, roots, p, i);
      }
      KeptPath(blocks, roots, reach, blocks', roots', p);
      var q := Renumbered(reach, p);
      assert q[|q| - 1] == b;
    }
  }

  lemma {:induction false} KeptIsEntered(c: Code, blocks: seq<Block>, handlers: seq<nat>, reach: seq<bool>,
      blocks': seq<Block>, handlers': seq<nat>)
    requires Entered(c, blocks, handlers) && Kept(blocks, reach, blocks') && handlers' == Renumbered(reach, handlers)
    requires reach[0] && forall i :: 0 <= i < |handlers| ==> reach[handlers[i]]
    ensures Entered(c, blocks', handlers')
  {
    forall h | 0 <= h < |c.handlers|
      ensures HandledAt(blocks', handlers', c.handlers[h])
    {
      assert HandledAt(blocks, handlers, c.handlers[h]);
      var i :| 0 <= i < |handlers| && handlers[i] < |blocks| && blocks[handlers[i]].start == c.handlers[h];
      assert blocks'[handlers'[i]].start == c.handlers[h];
    }
  }

  /** The result of pruning: exactly the reachable blocks, renumbered in order, with all their edges. */
  ghost predicate Pruned(blocks: seq<Block>, handlers: seq<nat>, reach: seq<bool>, blocks': seq<Block>,
      handlers': seq<nat>) {
    && Kept(blocks, reach, blocks')
    && (forall x :: 0 <= x < |blocks| ==> (reach[x] <==> Reachable(blocks, handlers + [0], x)))
    && InRange(handlers, |blocks|) && handlers' == Renumbered(reach, handlers)
  }

  lemma {:induction false} RankOfAll(reach: seq<bool>, x: nat)
    requires x <= |reach| && forall i :: 0 <= i < |reach| ==> reach[i]
    ensures Rank(reach, x) == x
  {
    if x > 0 {
      RankOfAll(reach, x - 1);
    }
  }

  /** Keeping everything changes nothing. */
  lemma {:induction false} AllKept(blocks: seq<Block>, reach: seq<bool>, ids: seq<nat>)
    requires |reach| == |blocks| && forall i :: 0 <= i < |reach| ==> reach[i]
    requires forall i :: 0 <= i < |blocks| ==> blocks[i].id == i && InRange(blocks[i].successors, |blocks|)
    requires InRange(ids, |blocks|)
    ensures Kept(blocks, reach, blocks) && Renumbered(reach, ids) == ids
  {
    forall x | 0 <= x <= |blocks|
      ensures Rank(reach, x) == x
    {
      RankOfAll(reach, x);
    }
    forall x | 0 <= x < |blocks|
      ensures Renumbered(reach, blocks[x].successors) == blocks[x].successors
    {
    }
  }

  lemma RootsAreReached(blocks: seq<Block>, handlers: seq<nat>, reach: seq<bool>)
    requires |reach| == |blocks| > 0 && InRange(handlers, |blocks|)
    requires forall x :: 0 <= x < |blocks| ==> (reach[x] <==> Reachable(blocks, handlers + [0], x))
    ensures reach[0] && forall i :: 0 <= i < |handlers| ==> reach[handlers[i]]
  {
    var roots := handlers + [0];
    assert roots[|handlers|] == 0;
    ReachableRoot(blocks, roots, 0);
    forall i | 0 <= i < |handlers|
      ensures reach[handlers[i]]
    {
      assert roots[i] == handlers[i];
      ReachableRoot(blocks, roots, handlers[i]);
    }
  }

  /** Drops the blocks that neither the entry nor a handler reaches. */
  method DiscardUnreachable(blocks: seq<Block>, handlers: seq<nat>)
    returns (blocks': seq<Block>, handlers': seq<nat>, ghost reach: seq<bool>)
    requires Transposed(blocks) && InRange(handlers, |blocks|) && |blocks| > 0
    requires forall i :: 0 <= i < |blocks| ==> blocks[i].id == i
    ensures Pruned(blocks, handlers, reach, blocks', handlers') && Transposed(blocks')
    ensures ClosedUnderEdges(blocks, reach)
  {
    var reached := MarkReachable(blocks, handlers + [0]);
    reach := reached;
    ReachableIsClosed(blocks, handlers + [0], reached);
    RootsAreReached(blocks, handlers, reached);
    if forall x :: 0 <= x < |reached| ==> reached[x] {
      AllKept(blocks, reached, handlers);
      return blocks, handlers, reached;
    }
    var newId;
    blocks', newId := Discard(blocks, reached);
    handlers' := MapIds(newId, handlers, reached);
  }

  /** The finished graph: faithful, with exact predecessor lists, entered at block 0 and at the
      handlers, and nothing in it that cannot be reached from there. */
  method BuildBlocks(c: Code) returns (blocks: seq<Block>, handlers: seq<nat>)
    requires WellFormed(c)
    ensures Faithful(c, blocks) && Transposed(blocks) && Entered(c, blocks, handlers) && AllReachable(blocks, handlers)
  {
    var all, allHandlers := AllBlocks(c);
    ghost var reach: seq<bool>;
    blocks, handlers, reach := DiscardUnreachable(all, allHandlers);
    RootsAreReached(all, allHandlers, reach);
    KeptIsFaithful(c, all, reach, blocks);
    KeptIsEntered(c, all, allHandlers, reach, blocks, handlers);
    KeptAreReachable(all, allHandlers, reach, blocks, handlers);
  }

  /** A run of the machine from the entry or a handler, exceptions aside. */
  ghost predicate Trace(c: Code, p: seq<nat>)
    requires WellFormed(c)
  {
    && p != []
    && if |p| == 1 then p[0] == 0 || p[0] in c.handlers
       else Trace(c, p[..|p| - 1]) && Step(c, p[|p| - 2], p[|p| - 1])
  }

  ghost predicate Runs(c: Code, pc: nat)
    requires WellFormed(c)
  {
    exists p :: Trace(c, p) && p[|p| - 1] == pc
  }

  lemma RunsFromRoot(c: Code, pc: nat)
    requires WellFormed(c) && (pc == 0 || pc in c.handlers)
    ensures Runs(c, pc)
  {
    assert Trace(c, [pc]) && [pc][|[pc]| - 1] == pc;
  }

  lemma RunsOn(c: Code, pc: nat, pc': nat)
    requires WellFormed(c) && Runs(c, pc) && Step(c, pc, pc')
    ensures Runs(c, pc')
  {
    var p :| Trace(c, p) && p[|p| - 1] == pc;
    var q := p + [pc'];
    assert q[..|q| - 1] == p;
    assert Trace(c, q) && q[|q| - 1] == pc';
  }

  /** Block b of the graph has the instruction at pc. */
  predicate Has(blocks: seq<Block>, b: int, pc: nat) {
    0 <= b < |blocks| && blocks[b].start <= pc < blocks[b].end
  }

  lemma CoveredRoot(c: Code, blocks: seq<Block>, handlers: seq<nat>, pc: nat) returns (b: nat)
    requires WellFormed(c) && Faithful(c, blocks) && Entered(c, blocks, handlers) && (pc == 0 || pc in c.handlers)
    ensures Has(blocks, b, pc)
  {
    if pc == 0 {
      b := 0;
    } else {
      var h :| 0 <= h < |c.handlers| && c.handlers[h] == pc;
      assert HandledAt(blocks, handlers, c.handlers[h]);
      var i :| 0 <= i < |handlers| && handlers[i] < |blocks| && blocks[handlers[i]].start == c.handlers[h];
      b := handlers[i];
    }
    assert BlockOk(c, blocks[b]);
  }

  lemma CoveredStep(c: Code, blocks: seq<Block>, b: nat, pc: nat, pc': nat) returns (b': nat)
    requires WellFormed(c) && Faithful(c, blocks) && Has(blocks, b, pc) && Step(c, pc, pc')
    ensures Has(blocks, b', pc')
  {
    StepsFollowEdges(c, blocks, blocks[b], pc, pc');
    if pc' == Next(c, pc) < blocks[b].end {
      b' := b;
    } else {
      var i :| 0 <= i < |blocks[b].successors| && blocks[blocks[b].successors[i]].start == pc';
      assert EdgesOk(c, blocks, blocks[b]);
      b' := blocks[b].successors[i];
      assert BlockOk(c, blocks[b']);
    }
  }

  lemma {:induction false} TraceIsCovered(c: Code, blocks: seq<Block>, handlers: seq<nat>, p: seq<nat>) returns (b: nat)
    requires WellFormed(c) && Faithful(c, blocks) && Entered(c, blocks, handlers) && Trace(c, p)
    ensures Has(blocks, b, p[|p| - 1])
  {
    if |p| == 1 {
      b := CoveredRoot(c, blocks, handlers, p[0]);
    } else {
      b := TraceIsCovered(c, blocks, handlers, p[..|p| - 1]);
      b := CoveredStep(c, blocks, b, p[|p| - 2], p[|p| - 1]);
    }
  }

  /** Inside a block control falls through, instruction by instruction. */
  lemma {:induction false} RunsAlong(c: Code, b: Block, q: nat, pc: nat)
    requires WellFormed(c) && BlockOk(c, b) && Runs(c, q)
    requires b.start <= q <= pc < b.end && Boundary(c, q) && Boundary(c, pc)
    ensures Runs(c, pc)
    decreases pc - q
  {
    if q < pc {
      NextIsBoundary(c, q);
      InsideIsSequential(c, b, q);
      RunsOn(c, q, Next(c, q));
      RunsAlong(c, b, Next(c, q), pc);
    }
  }

  /** From the start of a block, control reaches the start of each successor. */
  lemma {:induction false} EdgeRuns(c: Code, blocks: seq<Block>, x: nat, y: nat)
    requires WellFormed(c) && Faithful(c, blocks) && x < |blocks| && y in blocks[x].successors && y < |blocks|
    requires Runs(c, blocks[x].start)
    ensures Runs(c, blocks[y].start)
  {
    var b := blocks[x];
    assert BlockOk(c, b) && EdgesOk(c, blocks, b);
    var last := Last(c, b.start, b.end);
    RunsAlong(c, b, b.start, last);
    StepsFollowEdges(c, blocks, b, last, blocks[y].start);
    RunsOn(c, last, blocks[y].start);
  }

  lemma {:induction false} PathRuns(c: Code, blocks: seq<Block>, handlers: seq<nat>, p: seq<nat>)
    requires WellFormed(c) && Faithful(c, blocks) && Entered(c, blocks, handlers) && Path(blocks, handlers + [0], p)
    ensures Runs(c, blocks[p[|p| - 1]].start)
  {
    if |p| == 1 {
      var r :| 0 <= r < |handlers + [0]| && (handlers + [0])[r] == p[0];
      RunsFromRoot(c, blocks[p[0]].start);
    } else {
      var init := p[..|p| - 1];
      assert Path(blocks, handlers + [0], init);
      PathRuns(c, blocks, handlers, init);
      assert p[|p| - 2 + 1] in blocks[p[|p| - 2]].successors;
      EdgeRuns(c, blocks, p[|p| - 2], p[|p| - 1]);
    }
  }

  lemma {:induction false} BlockRuns(c: Code, blocks: seq<Block>, handlers: seq<nat>, b: nat, pc: nat)
    requires WellFormed(c) && Faithful(c, blocks) && Entered(c, blocks, handlers)
    requires Has(blocks, b, pc) && Boundary(c, pc) && Reachable(blocks, handlers + [0], b)
    ensures Runs(c, pc)
  {
    var p :| Path(blocks, handlers + [0], p) && p[|p| - 1] == b;
    PathRuns(c, blocks, handlers, p);
    assert BlockOk(c, blocks[b]);
    RunsAlong(c, blocks[b], blocks[b].start, pc);
  }

  /** The finished graph has exactly the instructions that the machine can execute. */
  lemma {:induction false} GraphIsWhatRuns(c: Code, blocks: seq<Block>, handlers: seq<nat>, pc: nat)
    requires WellFormed(c) && Faithful(c, blocks) && Entered(c, blocks, handlers) && AllReachable(blocks, handlers)
    requires Boundary(c, pc)
    ensures Runs(c, pc) <==> exists b :: Has(blocks, b, pc)
  {
    if Runs(c, pc) {
      var p :| Trace(c, p) && p[|p| - 1] == pc;
      var b := TraceIsCovered(c, blocks, handlers, p);
    }
    if b :| Has(blocks, b, pc) {
      BlockRuns(c, blocks, handlers, b, pc);
    }
  }

  /** A predecessor of the first block is a block whose last instruction runs and goes to offset 0. */
  lemma {:induction false} PredecessorRuns(c: Code, blocks: seq<Block>, handlers: seq<nat>) returns (last: nat)
    requires WellFormed(c) && Faithful(c, blocks) && Transposed(blocks)
    requires Entered(c, blocks, handlers) && AllReachable(blocks, handlers)
    requires blocks[0].predecessors != []
    ensures Runs(c, last) && Step(c, last, 0)
  {
    var a := blocks[0].predecessors[0];
    assert multiset(blocks[0].predecessors)[a] > 0;
    assert 0 in multiset(blocks[a].successors);
    var i :| 0 <= i < |blocks[a].successors| && blocks[a].successors[i] == 0;
    assert BlockOk(c, blocks[a]) && EdgesOk(c, blocks, blocks[a]);
    last := Last(c, blocks[a].start, blocks[a].end);
    StepsFollowEdges(c, blocks, blocks[a], last, 0);
    GraphIsWhatRuns(c, blocks, handlers, last);
    assert Has(blocks, a, last);
  }

  lemma {:induction false} RunnerIsPredecessor(c: Code, blocks: seq<Block>, handlers: seq<nat>, pc: nat)
    requires WellFormed(c) && Faithful(c, blocks) && Transposed(blocks)
    requires Entered(c, blocks, handlers) && AllReachable(blocks, handlers)
    requires Runs(c, pc) && Step(c, pc, 0)
    ensures blocks[0].predecessors != []
  {
    GraphIsWhatRuns(c, blocks, handlers, pc);
    var a :| Has(blocks, a, pc);
    StepsFollowEdges(c, blocks, blocks[a], pc, 0);
    var i :| 0 <= i < |blocks[a].successors| && blocks[blocks[a].successors[i]].start == 0;
    assert BlockOk(c, blocks[0]) && EdgesOk(c, blocks, blocks[a]);
    assert blocks[a].successors[i] == 0;
    assert multiset(blocks[a].successors)[0] > 0;
    assert a in multiset(blocks[0].predecessors);
  }

  /** The decoder's last assertion, that the entry block has no predecessor, holds exactly when no
      instruction that can run steps back to offset 0. */
  lemma {:induction false} EntryHasNoPredecessor(c: Code, blocks: seq<Block>, handlers: seq<nat>)
    requires WellFormed(c) && Faithful(c, blocks) && Transposed(blocks)
    requires Entered(c, blocks, handlers) && AllReachable(blocks, handlers)
    ensures blocks[0].predecessors == [] <==> !exists pc :: Runs(c, pc) && Step(c, pc, 0)
  {
    if blocks[0].predecessors != [] {
      var last := PredecessorRuns(c, blocks, handlers);
    }
    if pc :| Runs(c, pc) && Step(c, pc, 0) {
      RunnerIsPredecessor(c, blocks, handlers, pc);
    }
  }

  /** A single jump to itself: displacement -3 after a three-byte instruction at offset 0. */
  const BACK_JUMP: Code :=
    Code([1, 0xFD, 0xFF], seq(256, i => if i == 1 then Info(3, UnconditionalJump, 1) else Info(1, Sequential, -1)), [])

  lemma BackJumpIsWellFormed()
    ensures WellFormed(BACK_JUMP) && Successors(BACK_JUMP, 0) == [0]
  {
    var c := BACK_JUMP;
    assert At(c, 0) == Info(3, UnconditionalJump, 1) && Next(c, 0) == 3;
    assert Target(c, 0) == 0 && Boundary(c, 0);
    assert !Boundary(c, 1) && !Boundary(c, 2);
  }

  /** The decoder's last assertion fails on it: no graph that the builder may return meets it. */
  lemma {:induction false} BackJumpHasPredecessor(blocks: seq<Block>, handlers: seq<nat>)
    requires WellFormed(BACK_JUMP) && Faithful(BACK_JUMP, blocks) && Transposed(blocks)
    requires Entered(BACK_JUMP, blocks, handlers) && AllReachable(blocks, handlers)
    ensures blocks[0].predecessors != []
  {
    BackJumpIsWellFormed();
    RunsFromRoot(BACK_JUMP, 0);
    StepIsSuccessor(BACK_JUMP, 0, 0);
    EntryHasNoPredecessor(BACK_JUMP, blocks, handlers);
  }
}
