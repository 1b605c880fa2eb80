/**
  When the walk returns at all. The program has no check for cycles; these lemmas say exactly which
  files make it recurse for ever, and that any other file needs no more nested calls than the table has blocks.
 */
module Divergence {
  import opened Bytes
  import opened Records
  import opened Trees
  import opened Walks

  predicate Ends(data: seq<byte>, s: Loaded, block: uint32, depth: nat) {
    !WalkBlock(data, s, block, depth).status.TooDeep?
  }

  /** The walk of `block` recurses for ever. */
  ghost predicate Diverges(data: seq<byte>, s: Loaded, block: uint32) {
    forall depth: nat :: !Ends(data, s, block, depth)
  }

  // ----- more room never changes a walk that had enough -----

  lemma {:induction false} WalkBlockDeeper(data: seq<byte>, s: Loaded, block: uint32, depth: nat, more: nat)
    requires Ends(data, s, block, depth) && depth <= more
    ensures WalkBlock(data, s, block, more) == WalkBlock(data, s, block, depth)
    decreases depth, 0
  {
    hide ReadU32, DecodeRecord, WalkRecords, WalkChildren, BlockStart;
    if s.root < s.blockCount && block < |s.addresses| {
      var p := BlockStart(s.addresses[block]);
      var nodeType, count := ReadU32(data, p), ReadU32(data, p + 4);
      if depth > 0 && nodeType.Some? && count.Some? && nodeType.value != 0 {
        NodeWalk(data, s, block, depth);
        NodeWalk(data, s, block, more);
        WalkChildrenDeeper(data, s, p + 8, count.value, nodeType.value, depth - 1, more - 1);
      }
    }
  }

  lemma {:induction false} WalkChildrenDeeper(
    data: seq<byte>, s: Loaded, pos: nat, count: nat, last: uint32, depth: nat, more: nat)
    requires !WalkChildren(data, s, pos, count, last, depth).status.TooDeep? && depth <= more
    ensures WalkChildren(data, s, pos, count, last, more) == WalkChildren(data, s, pos, count, last, depth)
    decreases depth, 1 + count
  {
    hide ReadU32, DecodeRecord, WalkNode;
    if count == 0 {
      WalkBlockDeeper(data, s, last, depth, more);
    } else if ReadU32(data, pos).Some? {
      var block := ReadU32(data, pos).value;
      WalkBlockDeeper(data, s, block, depth, more);
      if WalkBlock(data, s, block, depth).status.Done? && DecodeRecord(data, pos + 4).Some? {
        WalkChildrenDeeper(data, s, DecodeRecord(data, pos + 4).value.1, count - 1, last, depth, more);
      }
    }
  }

  // ----- which calls a walk makes -----

  /** The walk of `block` calls itself for `child`: everything in the node before that call succeeds. */
  ghost predicate Calls(data: seq<byte>, s: Loaded, block: uint32, child: uint32) {
    s.root < s.blockCount && block < |s.addresses| &&
    var p := BlockStart(s.addresses[block]);
    var nodeType, count := ReadU32(data, p), ReadU32(data, p + 4);
    nodeType.Some? && count.Some? && nodeType.value != 0
    && CallsFrom(data, s, p + 8, count.value, nodeType.value, child)
  }

  ghost predicate Succeeds(data: seq<byte>, s: Loaded, block: uint32) {
    exists depth: nat :: WalkBlock(data, s, block, depth).status.Done?
  }

  ghost predicate CallsFrom(data: seq<byte>, s: Loaded, pos: nat, count: nat, last: uint32, child: uint32)
    decreases count
  {
    if count == 0 then child == last
    else
      var block := ReadU32(data, pos);
      block.Some? && (
        || child == block.value
        || (&& Succeeds(data, s, block.value) && DecodeRecord(data, pos + 4).Some?
            && CallsFrom(data, s, DecodeRecord(data, pos + 4).value.1, count - 1, last, child)))
  }

  /** Called walks need strictly less room. */
  lemma {:induction false} CalledEnds(data: seq<byte>, s: Loaded, block: uint32, child: uint32, depth: nat)
    requires Calls(data, s, block, child) && Ends(data, s, block, depth)
    ensures depth > 0 && Ends(data, s, child, depth - 1)
  {
    hide ReadU32, DecodeRecord, WalkChildren, CallsFrom, BlockStart;
    var p := BlockStart(s.addresses[block]);
    if depth > 0 { NodeWalk(data, s, block, depth); }
    CalledFromEnds(data, s, p + 8, ReadU32(data, p + 4).value, ReadU32(data, p).value, child, depth - 1);
  }

  lemma {:induction false} CalledFromEnds(
    data: seq<byte>, s: Loaded, pos: nat, count: nat, last: uint32, child: uint32, depth: nat)
    requires CallsFrom(data, s, pos, count, last, child)
    requires !WalkChildren(data, s, pos, count, last, depth).status.TooDeep?
    ensures Ends(data, s, child, depth)
    decreases count
  {
    hide ReadU32, DecodeRecord, WalkBlock;
    if count > 0 && child != ReadU32(data, pos).value {
      var block := ReadU32(data, pos).value;
      var d: nat :| WalkBlock(data, s, block, d).status.Done?;
      if d <= depth {
        WalkBlockDeeper(data, s, block, d, depth);
      } else {
        WalkBlockDeeper(data, s, block, depth, d);
      }
      CalledFromEnds(data, s, DecodeRecord(data, pos + 4).value.1, count - 1, last, child, depth);
    }
  }

  /** A walk that runs out of room does so in a walk that it calls. */
  lemma {:induction false} TooDeepCalls(data: seq<byte>, s: Loaded, block: uint32, depth: nat) returns (child: uint32)
    requires depth > 0 && !Ends(data, s, block, depth)
    ensures Calls(data, s, block, child) && !Ends(data, s, child, depth - 1)
  {
    hide ReadU32, DecodeRecord, WalkChildren, CallsFrom, BlockStart;
    var p := BlockStart(s.addresses[block]);
    NodeWalk(data, s, block, depth);
    NeverTooDeep(data, p + 8, ReadU32(data, p + 4).value);
    child := TooDeepCallsFrom(data, s, p + 8, ReadU32(data, p + 4).value, ReadU32(data, p).value, depth - 1);
  }

  lemma {:induction false} NeverTooDeep(data: seq<byte>, pos: nat, count: nat)
    ensures !WalkRecords(data, pos, count).status.TooDeep?
    decreases count
  {
    hide DecodeRecord;
    if count > 0 && DecodeRecord(data, pos).Some? {
      NeverTooDeep(data, DecodeRecord(data, pos).value.1, count - 1);
    }
  }

  lemma {:induction false} TooDeepCallsFrom(
    data: seq<byte>, s: Loaded, pos: nat, count: nat, last: uint32, depth: nat) returns (child: uint32)
    requires WalkChildren(data, s, pos, count, last, depth).status.TooDeep?
    ensures CallsFrom(data, s, pos, count, last, child) && !Ends(data, s, child, depth)
    decreases count
  {
    hide ReadU32, DecodeRecord, WalkBlock;
    if count == 0 {
      child := last;
    } else {
      var block := ReadU32(data, pos).value;
      if WalkBlock(data, s, block, depth).status.Done? {
        child := TooDeepCallsFrom(data, s, DecodeRecord(data, pos + 4).value.1, count - 1, last, depth);
      } else {
        child := block;
      }
    }
  }

  // ----- chains of nested calls -----

  /** Blocks on the call stack, outermost first. */
  ghost predicate CallChain(data: seq<byte>, s: Loaded, chain: seq<uint32>) {
    forall i {:trigger chain[i]} :: 0 < i < |chain| ==> Calls(data, s, chain[i - 1], chain[i])
  }

  /** A walk from `block` gets back to a block that is still on its call stack. */
  ghost predicate Reenters(data: seq<byte>, s: Loaded, block: uint32) {
    exists chain: seq<uint32>, i, j ::
      && CallChain(data, s, chain) && 0 <= i < j < |chain|
      && chain[0] == block && chain[i] == chain[j]
  }

  /** Along a chain that ends within `depth`, each further call needs one level less. */
  lemma {:induction false} ChainEnds(data: seq<byte>, s: Loaded, chain: seq<uint32>, i: nat, depth: nat)
    requires CallChain(data, s, chain) && i < |chain| && Ends(data, s, chain[0], depth)
    ensures i <= depth && Ends(data, s, chain[i], depth - i)
  {
    hide Ends, Calls;
    if i > 0 {
      ChainEnds(data, s, chain, i - 1, depth);
      CalledEnds(data, s, chain[i - 1], chain[i], depth - (i - 1));
    }
  }

  /** From a block where a walk needs more than `depth` levels, the stack grows `depth` calls higher. */
  lemma {:induction false} LongChain(data: seq<byte>, s: Loaded, block: uint32, depth: nat) returns (chain: seq<uint32>)
    requires !Ends(data, s, block, depth)
    ensures CallChain(data, s, chain) && |chain| == depth + 1 && chain[0] == block
    ensures forall i :: 0 <= i < |chain| ==> chain[i] < |s.addresses|
    decreases depth
  {
    if depth == 0 {
      chain := [block];
    } else {
      hide Calls, WalkNode;
      var child := TooDeepCalls(data, s, block, depth);
      var rest := LongChain(data, s, child, depth - 1);
      chain := [block] + rest;
      forall i | 0 < i < |chain|
        ensures Calls(data, s, chain[i - 1], chain[i])
      {
        if i > 1 { assert chain[i] == rest[i - 1] && chain[i - 1] == rest[i - 2]; }
      }
    }
  }

  lemma {:induction false} DistinctBound(xs: seq<uint32>, n: nat)
    requires forall i :: 0 <= i < |xs| ==> xs[i] < n
    requires forall i, j :: 0 <= i < j < |xs| ==> xs[i] != xs[j]
    ensures |xs| <= n
  {
    if xs != [] {
      assert xs[0] < n;
      if k :| 0 <= k < |xs| && xs[k] == n - 1 {
        DistinctBound(xs[..k] + xs[k + 1..], n - 1);
      } else {
        DistinctBound(xs, n - 1);
      }
    }
  }

  // ----- the theorems -----

  /** Whatever the file: a walk that returns needs no more nested calls than the table has entries. */
  lemma DepthBound(data: seq<byte>, s: Loaded, block: uint32)
    ensures Diverges(data, s, block) <==> !Ends(data, s, block, |s.addresses|)
  {
    hide Ends, Calls;
    if !Ends(data, s, block, |s.addresses|) {
      ReentersWhenTooDeep(data, s, block);
      DivergesWhenReenters(data, s, block);
    }
  }

  lemma ReentersWhenTooDeep(data: seq<byte>, s: Loaded, block: uint32)
    requires !Ends(data, s, block, |s.addresses|)
    ensures Reenters(data, s, block)
  {
    hide Ends, Calls;
    var chain := LongChain(data, s, block, |s.addresses|);
    if forall i, j :: 0 <= i < j < |chain| ==> chain[i] != chain[j] {
      DistinctBound(chain, |s.addresses|);
    }
  }

  lemma DivergesWhenReenters(data: seq<byte>, s: Loaded, block: uint32)
    requires Reenters(data, s, block)
    ensures Diverges(data, s, block)
  {
    hide Ends, Calls;
    var chain: seq<uint32>, i, j :|
      CallChain(data, s, chain) && 0 <= i < j < |chain| && chain[0] == block && chain[i] == chain[j];
    forall depth: nat
      ensures !Ends(data, s, block, depth)
    {
      if Ends(data, s, block, depth) {
        ChainEnds(data, s, chain, i, depth);
        CycleNeverEnds(data, s, chain[i..j + 1], depth - i);
      }
    }
  }

  lemma {:induction false} CycleNeverEnds(data: seq<byte>, s: Loaded, cycle: seq<uint32>, depth: nat)
    requires CallChain(data, s, cycle) && |cycle| > 1 && cycle[0] == cycle[|cycle| - 1]
    ensures !Ends(data, s, cycle[0], depth)
    decreases depth
  {
    hide Ends, Calls;
    if Ends(data, s, cycle[0], depth) {
      ChainEnds(data, s, cycle, |cycle| - 1, depth);
      CycleNeverEnds(data, s, cycle, depth - (|cycle| - 1));
    }
  }

  /** The walk recurses for ever exactly when it re-enters a block that it has not finished. */
  lemma DivergesIffReenters(data: seq<byte>, s: Loaded, block: uint32)
    ensures Diverges(data, s, block) <==> Reenters(data, s, block)
  {
    hide Ends, Calls, Reenters;
    if Diverges(data, s, block) {
      ReentersWhenTooDeep(data, s, block);
    }
    if Reenters(data, s, block) {
      DivergesWhenReenters(data, s, block);
    }
  }

  /** A root without records whose rightmost child is the root itself. */
  function SelfChildFile(root: uint32): seq<byte> {
    seq(36, i => 0) + (U32(root) + U32(0))
  }

  /** The program never returns from this file, whatever number in range the root has, except 0. */
  lemma SelfChildDiverges(s: Loaded)
    requires 0 < s.root < s.blockCount && s.root < |s.addresses| && s.addresses[s.root] == 32
    ensures Reenters(SelfChildFile(s.root), s, s.root) && Diverges(SelfChildFile(s.root), s, s.root)
  {
    var data := SelfChildFile(s.root);
    assert At(data, 36, U32(s.root)) && At(data, 40, U32(0));
    assert BlockStart(s.addresses[s.root]) == 36;
    hide At;
    assert ReadU32(data, 36) == Some(s.root) && ReadU32(data, 40) == Some(0);
    hide ReadU32, BlockStart;
    assert Calls(data, s, s.root, s.root);
    var chain: seq<uint32> := [s.root, s.root];
    assert CallChain(data, s, chain) && chain[0] == chain[1];
    DivergesIffReenters(data, s, s.root);
  }

  /** On an acyclic call graph the walk returns, with nesting bounded by any rank that falls along calls. */
  lemma {:induction false} AcyclicEnds(data: seq<byte>, s: Loaded, block: uint32, rank: uint32 -> nat)
    requires forall b: uint32, c: uint32 :: Calls(data, s, b, c) ==> rank(c) < rank(b)
    ensures Ends(data, s, block, rank(block) + 1)
    decreases rank(block)
  {
    hide Ends, Calls;
    if !Ends(data, s, block, rank(block) + 1) {
      var child := TooDeepCalls(data, s, block, rank(block) + 1);
      AcyclicEnds(data, s, child, rank);
      EndsDeeper(data, s, child, rank(child) + 1, rank(block));
    }
  }

  lemma EndsDeeper(data: seq<byte>, s: Loaded, block: uint32, depth: nat, more: nat)
    requires Ends(data, s, block, depth) && depth <= more
    ensures Ends(data, s, block, more)
  {
    WalkBlockDeeper(data, s, block, depth, more);
  }

  // ----- walks that leave the address table -----

  /**
    A walk from `block` gets to a block number outside the table. The program checks the root's number
    against the block count, on every call, but never the number of the block it visits.
   */
  ghost predicate Escapes(data: seq<byte>, s: Loaded, block: uint32) {
    s.root < s.blockCount && exists chain: seq<uint32> ::
      CallChain(data, s, chain) && |chain| > 0 && chain[0] == block && chain[|chain| - 1] >= |s.addresses|
  }

  predicate Leaves(data: seq<byte>, s: Loaded, block: uint32, depth: nat) {
    WalkBlock(data, s, block, depth).status.OutOfBounds?
  }

  /** A walk that leaves the table does so itself or in a walk that it calls. */
  lemma {:induction false} LeavingCalls(data: seq<byte>, s: Loaded, block: uint32, depth: nat) returns (child: uint32)
    requires Leaves(data, s, block, depth) && block < |s.addresses|
    ensures depth > 0 && Calls(data, s, block, child) && Leaves(data, s, child, depth - 1)
  {
    hide ReadU32, DecodeRecord, WalkChildren, WalkRecords, CallsFrom, BlockStart;
    var p := BlockStart(s.addresses[block]);
    NodeWalk(data, s, block, depth);
    NeverLeaves(data, p + 8, ReadU32(data, p + 4).value);
    child := LeavingCallsFrom(data, s, p + 8, ReadU32(data, p + 4).value, ReadU32(data, p).value, depth - 1);
  }

  lemma {:induction false} NeverLeaves(data: seq<byte>, pos: nat, count: nat)
    ensures !WalkRecords(data, pos, count).status.OutOfBounds?
    decreases count
  {
    hide DecodeRecord;
    if count > 0 && DecodeRecord(data, pos).Some? {
      NeverLeaves(data, DecodeRecord(data, pos).value.1, count - 1);
    }
  }

  lemma {:induction false} LeavingCallsFrom(
    data: seq<byte>, s: Loaded, pos: nat, count: nat, last: uint32, depth: nat) returns (child: uint32)
    requires WalkChildren(data, s, pos, count, last, depth).status.OutOfBounds?
    ensures CallsFrom(data, s, pos, count, last, child) && Leaves(data, s, child, depth)
    decreases count
  {
    hide ReadU32, DecodeRecord, WalkBlock;
    if count == 0 {
      child := last;
    } else {
      var block := ReadU32(data, pos).value;
      if WalkBlock(data, s, block, depth).status.Done? {
        child := LeavingCallsFrom(data, s, DecodeRecord(data, pos + 4).value.1, count - 1, last, depth);
      } else {
        child := block;
      }
    }
  }

  lemma {:induction false} LeavingChain(data: seq<byte>, s: Loaded, block: uint32, depth: nat)
    returns (chain: seq<uint32>)
    requires Leaves(data, s, block, depth)
    ensures CallChain(data, s, chain) && |chain| > 0 && chain[0] == block && chain[|chain| - 1] >= |s.addresses|
    decreases depth
  {
    hide Calls, Leaves;
    if block >= |s.addresses| {
      chain := [block];
    } else {
      var child := LeavingCalls(data, s, block, depth);
      var rest := LeavingChain(data, s, child, depth - 1);
      chain := [block] + rest;
      forall i | 0 < i < |chain|
        ensures Calls(data, s, chain[i - 1], chain[i])
      {
        if i > 1 { assert chain[i] == rest[i - 1] && chain[i - 1] == rest[i - 2]; }
      }
    }
  }

  /** A walk whose called walk leaves the table leaves it too, given enough room. */
  lemma {:induction false} CallerLeaves(data: seq<byte>, s: Loaded, block: uint32, child: uint32, depth: nat)
    returns (more: nat)
    requires Calls(data, s, block, child) && Leaves(data, s, child, depth)
    ensures Leaves(data, s, block, more)
  {
    hide ReadU32, DecodeRecord, WalkChildren, CallsFrom, BlockStart;
    var p := BlockStart(s.addresses[block]);
    var d := CallerFromLeaves(data, s, p + 8, ReadU32(data, p + 4).value, ReadU32(data, p).value, child, depth);
    more := d + 1;
    NodeWalk(data, s, block, more);
  }

  lemma {:induction false} CallerFromLeaves(
    data: seq<byte>, s: Loaded, pos: nat, count: nat, last: uint32, child: uint32, depth: nat) returns (more: nat)
    requires CallsFrom(data, s, pos, count, last, child) && Leaves(data, s, child, depth)
    ensures WalkChildren(data, s, pos, count, last, more).status.OutOfBounds?
    decreases count
  {
    hide ReadU32, DecodeRecord, WalkBlock;
    if count == 0 || child == ReadU32(data, pos).value {
      more := depth;
    } else {
      var block, next := ReadU32(data, pos).value, DecodeRecord(data, pos + 4).value.1;
      var d: nat :| WalkBlock(data, s, block, d).status.Done?;
      var rest := CallerFromLeaves(data, s, next, count - 1, last, child, depth);
      more := Max(d, rest);
      WalkBlockDeeper(data, s, block, d, more);
      WalkChildrenDeeper(data, s, next, count - 1, last, rest, more);
    }
  }

  lemma {:induction false} EscapingChain(data: seq<byte>, s: Loaded, chain: seq<uint32>) returns (depth: nat)
    requires s.root < s.blockCount && CallChain(data, s, chain) && |chain| > 0
    requires chain[|chain| - 1] >= |s.addresses|
    ensures Leaves(data, s, chain[0], depth)
    decreases |chain|
  {
    if |chain| == 1 {
      depth := 0;
    } else {
      hide Calls, Leaves;
      var rest := chain[1..];
      assert CallChain(data, s, rest) by {
        forall i | 0 < i < |rest|
          ensures Calls(data, s, rest[i - 1], rest[i])
        {
          assert rest[i] == chain[i + 1] && rest[i - 1] == chain[i];
        }
      }
      var d := EscapingChain(data, s, rest);
      assert Calls(data, s, chain[0], chain[1]);
      depth := CallerLeaves(data, s, chain[0], chain[1], d);
    }
  }

  lemma LeavesEnds(data: seq<byte>, s: Loaded, block: uint32, depth: nat)
    requires Leaves(data, s, block, depth)
    ensures Leaves(data, s, block, |s.addresses|) && s.root < s.blockCount
  {
    hide Calls;
    DepthBound(data, s, block);
    assert Ends(data, s, block, depth);
    hide WalkNode;
    if depth <= |s.addresses| {
      WalkBlockDeeper(data, s, block, depth, |s.addresses|);
    } else {
      WalkBlockDeeper(data, s, block, |s.addresses|, depth);
    }
  }

  /** The walk leaves the address table exactly when its calls get to a block number outside it. */
  lemma LeavesIffEscapes(data: seq<byte>, s: Loaded, block: uint32)
    ensures WalkBlock(data, s, block, |s.addresses|).status.OutOfBounds? <==> Escapes(data, s, block)
  {
    hide Calls, WalkBlock;
    if Leaves(data, s, block, |s.addresses|) {
      LeavesEnds(data, s, block, |s.addresses|);
      var chain := LeavingChain(data, s, block, |s.addresses|);
    }
    if Escapes(data, s, block) {
      var chain: seq<uint32> :|
        CallChain(data, s, chain) && |chain| > 0 && chain[0] == block && chain[|chain| - 1] >= |s.addresses|;
      var depth := EscapingChain(data, s, chain);
      LeavesEnds(data, s, block, depth);
    }
  }

  /**
    How every walk ends, told from the file alone. With as many nested calls as the table has blocks it is
    done exactly when a tree is there, still running exactly when it re-enters an unfinished block, out of
    bounds exactly when it gets to a number outside the table, and failed in all other cases; the four exclude
    each other. More room changes nothing.
   */
  lemma WalkSettled(data: seq<byte>, s: Loaded, block: uint32, more: nat)
    requires |s.addresses| <= more
    ensures var o := WalkBlock(data, s, block, |s.addresses|);
      && (o.status.Done? <==> s.root < s.blockCount && exists t :: TreeAt(data, s.addresses, block, t))
      && (o.status.TooDeep? <==> Reenters(data, s, block))
      && (o.status.OutOfBounds? <==> Escapes(data, s, block))
      && (o.status.Failed? <==>
            && !(s.root < s.blockCount && exists t :: TreeAt(data, s.addresses, block, t))
            && !Reenters(data, s, block) && !Escapes(data, s, block))
      && (!o.status.TooDeep? ==> WalkBlock(data, s, block, more) == o)
  {
    hide Calls, Reenters, Escapes, TreeAt, WalkBlock;
    DepthBound(data, s, block);
    DivergesIffReenters(data, s, block);
    LeavesIffEscapes(data, s, block);
    if Ends(data, s, block, |s.addresses|) {
      WalkBlockDeeper(data, s, block, |s.addresses|, more);
    }
    WalkDoneIff(data, s, block, |s.addresses|, WalkBlock(data, s, block, |s.addresses|).trace);
    if s.root < s.blockCount && exists t :: TreeAt(data, s.addresses, block, t) {
      var t :| TreeAt(data, s.addresses, block, t);
      StoredTreeEnds(data, s, block, t);
    }
  }

  /** The program survives the walk exactly when no chain of calls leaves the table or comes back to itself. */
  lemma SurvivesIff(data: seq<byte>, s: Loaded, block: uint32)
    ensures Survives(WalkBlock(data, s, block, |s.addresses|))
       <==> !Escapes(data, s, block) && !Reenters(data, s, block)
  {
    hide Escapes, Reenters, TreeAt, WalkBlock;
    WalkSettled(data, s, block, |s.addresses|);
  }

  /** A root in range, with a rightmost child whose number is outside the table, and no records. */
  function EscapingFile(child: uint32): seq<byte> {
    seq(36, i => 0) + (U32(child) + U32(0))
  }

  /** The check of the root's number does not help: this file makes the walk of its root leave the table. */
  lemma RangeCheckMissesChildren(s: Loaded, child: uint32)
    requires s.root == 0 < s.blockCount && 0 < |s.addresses| <= child && s.addresses[0] == 32
    ensures Escapes(EscapingFile(child), s, s.root)
    ensures WalkBlock(EscapingFile(child), s, s.root, |s.addresses|) == Outcome(OutOfBounds, [])
  {
    var data := EscapingFile(child);
    assert At(data, 36, U32(child));
    assert At(data, 40, U32(0));
    assert BlockStart(s.addresses[0]) == 36;
    hide At;
    assert ReadU32(data, 36) == Some(child) && ReadU32(data, 40) == Some(0);
    hide ReadU32, BlockStart;
    NodeWalk(data, s, 0, |s.addresses|);
    assert Calls(data, s, 0, child);
    var chain: seq<uint32> := [0, child];
    assert CallChain(data, s, chain);
  }

  /** No tree in a file is higher than the table is long. */
  lemma StoredTreeEnds(data: seq<byte>, s: Loaded, block: uint32, t: Tree)
    requires s.root < s.blockCount && TreeAt(data, s.addresses, block, t)
    ensures WalkBlock(data, s, block, |s.addresses|) == Outcome(Done, InOrder(t)) && Height(t) <= |s.addresses|
  {
    hide Calls, TreeAt, WalkBlock;
    WalkBlockComplete(data, s, block, t, Height(t));
    assert Ends(data, s, block, Height(t));
    DepthBound(data, s, block);
    if Height(t) <= |s.addresses| {
      WalkBlockDeeper(data, s, block, Height(t), |s.addresses|);
    } else {
      WalkBlockDeeper(data, s, block, |s.addresses|, Height(t));
      var t' := WalkBlockSound(data, s, block, |s.addresses|);
      TreeUnique(data, s.addresses, block, t, t');
    }
  }
}
