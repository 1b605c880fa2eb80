/**
  The recursive walk over the B-tree as a function of the file's bytes. It has no way to see where the
  cursor stood, so whatever is computed by it does not depend on that.
 */
module Walks {
  import opened Bytes
  import opened Addresses
  import opened Records
  import opened Trees

  /** What the walk uses of the loaded store: the address table, the block count and the root's number. */
  datatype Loaded = Loaded(addresses: seq<uint32>, blockCount: uint32, root: uint32)

  /**
    How a walk ends: Done is status 0 and Failed is status 1. The other two are runs the program does not
    survive: an index outside a buffer, such as a block number outside the address table, or more nested
    calls than `depth` allows.
   */
  datatype Status = Done | Failed | OutOfBounds | TooDeep

  /** The end of a run and the records passed to the callback so far. */
  datatype Outcome = Outcome(status: Status, trace: seq<RecordValue>)

  /** The program survives the run: it leaves neither a buffer nor the room for nested calls. */
  predicate Survives(o: Outcome) { o.status.Done? || o.status.Failed? }

  function Then(a: Outcome, b: Outcome): Outcome {
    if a.status.Done? then Outcome(b.status, a.trace + b.trace) else a
  }

  function WalkBlock(data: seq<byte>, s: Loaded, block: uint32, depth: nat): Outcome
    decreases depth, 0, 0
  {
    if s.root >= s.blockCount then Outcome(Failed, [])
    else if block >= |s.addresses| then Outcome(OutOfBounds, [])
    else if depth == 0 then Outcome(TooDeep, [])
    else WalkNode(data, s, BlockStart(s.addresses[block]), depth - 1)
  }

  /** The node at `pos`; its children may nest `depth` calls. */
  function WalkNode(data: seq<byte>, s: Loaded, pos: nat, depth: nat): Outcome
    decreases depth, 0x1_0000_0001
  {
    var nodeType, count := ReadU32(data, pos), ReadU32(data, pos + 4);
    if nodeType.None? || count.None? then Outcome(Failed, [])
    else if nodeType.value == 0 then WalkRecords(data, pos + 8, count.value)
    else WalkChildren(data, s, pos + 8, count.value, nodeType.value, depth)
  }

  function WalkRecords(data: seq<byte>, pos: nat, count: nat): Outcome
    decreases count
  {
    if count == 0 then Outcome(Done, [])
    else
      match DecodeRecord(data, pos)
      case None => Outcome(Failed, [])
      case Some((r, next)) => Then(Outcome(Done, [r]), WalkRecords(data, next, count - 1))
  }

  /** The children from `pos` on, each with its record; after the last record comes the rightmost child. */
  function WalkChildren(data: seq<byte>, s: Loaded, pos: nat, count: nat, last: uint32, depth: nat): Outcome
    decreases depth, 1 + count
  {
    if count == 0 then WalkBlock(data, s, last, depth)
    else
      var entry := WalkEntry(data, s, pos, depth);
      Then(entry.outcome, WalkChildren(data, s, entry.next, count - 1, last, depth))
  }

  datatype EntryOutcome = EntryOutcome(outcome: Outcome, next: nat)

  /** A child's block number, that child, and the record right after its number. */
  function WalkEntry(data: seq<byte>, s: Loaded, pos: nat, depth: nat): EntryOutcome
    decreases depth, 0, 1
  {
    match ReadU32(data, pos)
    case None => EntryOutcome(Outcome(Failed, []), pos)
    case Some(block) =>
      var child := WalkBlock(data, s, block, depth);
      if !child.status.Done? then EntryOutcome(child, pos)
      else
        match DecodeRecord(data, pos + 4)
        case None => EntryOutcome(Outcome(Failed, child.trace), pos)
        case Some((r, next)) => EntryOutcome(Outcome(Done, child.trace + [r]), next)
  }

  /** What a walk with room to start does with the node it finds. */
  lemma NodeWalk(data: seq<byte>, s: Loaded, block: uint32, depth: nat)
    requires s.root < s.blockCount && block < |s.addresses| && depth > 0
    ensures var p := BlockStart(s.addresses[block]);
      var nodeType, count := ReadU32(data, p), ReadU32(data, p + 4);
      WalkBlock(data, s, block, depth) ==
        if nodeType.None? || count.None? then Outcome(Failed, [])
        else if nodeType.value == 0 then WalkRecords(data, p + 8, count.value)
        else WalkChildren(data, s, p + 8, count.value, nodeType.value, depth - 1)
  {
    assert WalkBlock(data, s, block, depth) == WalkNode(data, s, BlockStart(s.addresses[block]), depth - 1);
  }

  lemma ChildrenWalk(data: seq<byte>, s: Loaded, pos: nat, count: nat, last: uint32, depth: nat)
    requires count > 0
    ensures var entry := WalkEntry(data, s, pos, depth);
      WalkChildren(data, s, pos, count, last, depth)
      == Then(entry.outcome, WalkChildren(data, s, entry.next, count - 1, last, depth))
  {
    hide WalkEntry, Then;
  }

  lemma ThenStart(a: Outcome)
    ensures Then(Outcome(Done, []), a) == a
  {
    assert [] + a.trace == a.trace;
  }

  lemma ThenFailed(trace: seq<RecordValue>)
    ensures Then(Outcome(Done, trace), Outcome(Failed, [])) == Outcome(Failed, trace)
  {
    assert trace + [] == trace;
  }

  lemma ThenEnd(trace: seq<RecordValue>)
    ensures Then(Outcome(Done, trace), Outcome(Done, [])) == Outcome(Done, trace)
  {
    assert trace + [] == trace;
  }

  lemma RecordsWalk(data: seq<byte>, pos: nat, count: nat)
    requires count > 0
    ensures WalkRecords(data, pos, count) ==
      match DecodeRecord(data, pos)
      case None => Outcome(Failed, [])
      case Some((r, next)) => Then(Outcome(Done, [r]), WalkRecords(data, next, count - 1))
  {
  }

  lemma RecordsEnd(data: seq<byte>, pos: nat)
    ensures WalkRecords(data, pos, 0) == Outcome(Done, [])
  {
  }

  lemma ThenThen(trace: seq<RecordValue>, a: Outcome, b: Outcome)
    ensures Then(Outcome(Done, trace), Then(a, b))
      == if a.status.Done? then Then(Outcome(Done, trace + a.trace), b) else Outcome(a.status, trace + a.trace)
  {
    assert trace + (a.trace + b.trace) == trace + a.trace + b.trace;
  }

  // ----- the walk finds the tree that is there -----

  lemma {:induction false} WalkRecordsComplete(data: seq<byte>, pos: nat, rs: seq<RecordValue>)
    requires RecordsAt(data, pos, rs)
    ensures WalkRecords(data, pos, |rs|) == Outcome(Done, rs)
    decreases rs
  {
    hide DecodeRecord, RecordAt;
    if rs != [] {
      DecodeRecordIff(data, pos, rs[0], pos + RecordLength(rs[0]));
      WalkRecordsComplete(data, pos + RecordLength(rs[0]), rs[1..]);
      assert rs == [rs[0]] + rs[1..];
    }
  }

  lemma {:induction false} WalkBlockComplete(data: seq<byte>, s: Loaded, block: uint32, t: Tree, depth: nat)
    requires s.root < s.blockCount && TreeAt(data, s.addresses, block, t) && Height(t) <= depth
    ensures WalkBlock(data, s, block, depth) == Outcome(Done, InOrder(t))
    decreases t
  {
    hide DecodeRecord, RecordAt, At, BlockOffset;
    var p := BlockStart(s.addresses[block]);
    match t
    case Leaf(records) =>
      assert ReadU32(data, p) == Some(0) && ReadU32(data, p + 4) == Some(|records|);
      WalkRecordsComplete(data, p + 8, records);
    case Inner(lastBlock, children) =>
      assert ReadU32(data, p) == Some(lastBlock) && ReadU32(data, p + 4) == Some(Count(children));
      WalkChildrenComplete(data, s, p + 8, lastBlock, children, depth - 1);
  }

  lemma {:induction false} WalkChildrenComplete(
    data: seq<byte>, s: Loaded, pos: nat, last: uint32, cs: Children, depth: nat)
    requires s.root < s.blockCount && ChildrenAt(data, s.addresses, pos, last, cs) && HeightChildren(cs) <= depth
    ensures WalkChildren(data, s, pos, Count(cs), last, depth) == Outcome(Done, InOrderChildren(cs))
    decreases cs
  {
    hide DecodeRecord, RecordAt, At, BlockOffset;
    match cs
    case Rightmost(child) => WalkBlockComplete(data, s, last, child, depth);
    case Next(block, child, record, rest) =>
      assert ReadU32(data, pos) == Some(block);
      WalkBlockComplete(data, s, block, child, depth);
      DecodeRecordIff(data, pos + 4, record, pos + 4 + RecordLength(record));
      WalkChildrenComplete(data, s, pos + 4 + RecordLength(record), last, rest, depth);
      assert InOrder(child) + [record] + InOrderChildren(rest) == InOrderChildren(cs);
  }

  // ----- where the walk succeeds there is a tree -----

  lemma {:induction false} WalkRecordsSound(data: seq<byte>, pos: nat, count: nat)
    requires WalkRecords(data, pos, count).status.Done?
    ensures var rs := WalkRecords(data, pos, count).trace; |rs| == count && RecordsAt(data, pos, rs)
    decreases count
  {
    hide DecodeRecord, RecordAt;
    if count > 0 {
      var (r, next) := DecodeRecord(data, pos).value;
      DecodeRecordIff(data, pos, r, next);
      WalkRecordsSound(data, next, count - 1);
      var rest := WalkRecords(data, next, count - 1).trace;
      assert ([r] + rest)[1..] == rest;
    }
  }

  lemma {:induction false} WalkBlockSound(data: seq<byte>, s: Loaded, block: uint32, depth: nat) returns (t: Tree)
    requires WalkBlock(data, s, block, depth).status.Done?
    ensures TreeAt(data, s.addresses, block, t) && Height(t) <= depth
    ensures InOrder(t) == WalkBlock(data, s, block, depth).trace
    decreases depth, 0
  {
    hide DecodeRecord, RecordAt, At, BlockOffset, WalkChildren, WalkRecords;
    var p := BlockStart(s.addresses[block]);
    var nodeType, count := ReadU32(data, p).value, ReadU32(data, p + 4).value;
    if nodeType == 0 {
      WalkRecordsSound(data, p + 8, count);
      t := Leaf(WalkRecords(data, p + 8, count).trace);
    } else {
      var cs := WalkChildrenSound(data, s, p + 8, count, nodeType, depth - 1);
      t := Inner(nodeType, cs);
    }
  }

  lemma {:induction false} WalkChildrenSound(data: seq<byte>, s: Loaded, pos: nat, count: nat, last: uint32, depth: nat)
    returns (cs: Children)
    requires WalkChildren(data, s, pos, count, last, depth).status.Done?
    ensures ChildrenAt(data, s.addresses, pos, last, cs) && Count(cs) == count && HeightChildren(cs) <= depth
    ensures InOrderChildren(cs) == WalkChildren(data, s, pos, count, last, depth).trace
    decreases depth, 1 + count
  {
    hide DecodeRecord, RecordAt, At, BlockOffset, WalkNode;
    if count == 0 {
      var t := WalkBlockSound(data, s, last, depth);
      cs := Rightmost(t);
    } else {
      var block := ReadU32(data, pos).value;
      var t := WalkBlockSound(data, s, block, depth);
      var (r, next) := DecodeRecord(data, pos + 4).value;
      DecodeRecordIff(data, pos + 4, r, next);
      var rest := WalkChildrenSound(data, s, next, count - 1, last, depth);
      cs := Next(block, t, r, rest);
      assert InOrder(t) + [r] + InOrderChildren(rest) == InOrderChildren(cs);
    }
  }

  /**
    Enumeration of a block returns 0 exactly when the file holds a tree there and the root's number is in
    range; then the callback saw the records of that tree in order, and the recursion was no deeper than it.
   */
  lemma WalkDoneIff(data: seq<byte>, s: Loaded, block: uint32, depth: nat, trace: seq<RecordValue>)
    ensures WalkBlock(data, s, block, depth) == Outcome(Done, trace)
       <==> && s.root < s.blockCount
            && exists t :: TreeAt(data, s.addresses, block, t) && Height(t) <= depth && InOrder(t) == trace
  {
    if WalkBlock(data, s, block, depth) == Outcome(Done, trace) {
      var t := WalkBlockSound(data, s, block, depth);
    }
    if s.root < s.blockCount
       && exists t :: TreeAt(data, s.addresses, block, t) && Height(t) <= depth && InOrder(t) == trace {
      var t :| TreeAt(data, s.addresses, block, t) && Height(t) <= depth && InOrder(t) == trace;
      WalkBlockComplete(data, s, block, t, depth);
    }
  }
}
