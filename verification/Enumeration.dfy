/** The recursive procedure that walks the tree: one file cursor, moved and put back by every call. */
module Enumeration {
  import opened Bytes
  import opened Addresses
  import opened Files
  import opened Records
  import opened Walks

  /** The callback: it sees each record in turn. */
  class Observer {
    var seen: seq<RecordValue>

    constructor ()
      ensures seen == []
    {
      seen := [];
    }

    method Call(record: Record)
      requires record.Value().Some?
      modifies this
      ensures seen == old(seen) + [record.Value().value]
    {
      seen := seen + [record.Value().value];
    }
  }

  ghost function Seen(observer: Observer?): seq<RecordValue>
    reads observer
  {
    if observer == null then [] else observer.seen
  }

  /** What the observer saw since it had seen `before`; without an observer nothing is seen. */
  ghost predicate Reported(observer: Observer?, before: seq<RecordValue>, trace: seq<RecordValue>)
    reads observer
  {
    observer != null ==> observer.seen == before + trace
  }

  /**
    Enumerates the records below `block`. The ghost argument bounds the nested calls; it is not computed
    with, and every bound under which the walk ends gives the same run. The length of the table is such a
    bound whenever no chain of calls leaves the table or comes back to itself.
   */
  method EnumBlocks(s: Loaded, block: uint32, observer: Observer?, file: File, ghost depth: nat) returns (ret: int)
    requires Survives(WalkBlock(file.data, s, block, depth))
    modifies file`pos, observer
    ensures ret == 0 <==> WalkBlock(file.data, s, block, depth).status.Done?
    ensures ret == 0 ==> file.pos == old(file.pos)
    ensures Reported(observer, old(Seen(observer)), WalkBlock(file.data, s, block, depth).trace)
    decreases depth, 0
  {
    hide ReadU32, WalkNode, WalkChildren, WalkRecords, BlockOffset;
    if s.root >= s.blockCount { return 1; }
    var addr := s.addresses[block];
    var streamOffset := file.Tell();
    file.Seek(4 + BlockOffset(addr));
    NodeWalk(file.data, s, block, depth);
    var n, nodeType := file.FreadUint32();
    if n != 1 { return 1; }
    var recordCount;
    n, recordCount := file.FreadUint32();
    if n != 1 { return 1; }
    if nodeType == 0 {
      ret := EnumLeaf(recordCount, observer, file);
    } else {
      ret := EnumInner(s, nodeType, recordCount, observer, file, depth - 1);
    }
    if ret == 0 {
      file.Seek(streamOffset);
    }
  }

  ghost function Decoded(data: seq<byte>, pos: nat): RecordValue {
    if DecodeRecord(data, pos).Some? then DecodeRecord(data, pos).value.0 else RecordValue([], 0, Bool(0))
  }

  /** One record at the cursor, read into a fresh object and shown to the observer. */
  method EnumRecord(observer: Observer?, file: File) returns (status: int)
    modifies file`pos, observer
    ensures status == 0 <==> DecodeRecord(file.data, old(file.pos)).Some?
    ensures status == 0 ==>
        DecodeRecord(file.data, old(file.pos)) == Some((Decoded(file.data, old(file.pos)), file.pos))
    ensures Reported(observer, old(Seen(observer)), if status == 0 then [Decoded(file.data, old(file.pos))] else [])
  {
    hide DecodeRecord;
    var record := new Record();
    status := record.Fread(file);
    if status == 0 && observer != null {
      observer.Call(record);
    }
  }

  method EnumLeaf(recordCount: uint32, observer: Observer?, file: File) returns (ret: int)
    modifies file`pos, observer
    ensures ret == 0 <==> WalkRecords(file.data, old(file.pos), recordCount).status.Done?
    ensures Reported(observer, old(Seen(observer)), WalkRecords(file.data, old(file.pos), recordCount).trace)
  {
    hide DecodeRecord, WalkRecords, Then;
    ghost var before, trace := Seen(observer), [];
    ghost var whole := WalkRecords(file.data, file.pos, recordCount);
    ThenStart(whole);
    for i := 0 to recordCount
      invariant whole == Then(Outcome(Done, trace), WalkRecords(file.data, file.pos, recordCount - i))
      invariant Reported(observer, before, trace)
    {
      ghost var r, at := Decoded(file.data, file.pos), file.pos;
      RecordsWalk(file.data, at, recordCount - i);
      var status := EnumRecord(observer, file);
      ThenFailed(trace);
      if status != 0 { return 1; }
      ThenThen(trace, Outcome(Done, [r]), WalkRecords(file.data, file.pos, recordCount - i - 1));
      assert before + trace + [r] == before + (trace + [r]);
      trace := trace + [r];
    }
    RecordsEnd(file.data, file.pos);
    ThenEnd(trace);
    ret := 0;
  }

  /** A child and the record after it: the child moves the cursor and puts it back behind the block number. */
  method EnumEntry(s: Loaded, observer: Observer?, file: File, ghost depth: nat) returns (ret: int)
    requires Survives(WalkEntry(file.data, s, file.pos, depth).outcome)
    modifies file`pos, observer
    ensures ret == 0 <==> WalkEntry(file.data, s, old(file.pos), depth).outcome.status.Done?
    ensures ret == 0 ==> file.pos == WalkEntry(file.data, s, old(file.pos), depth).next
    ensures Reported(observer, old(Seen(observer)), WalkEntry(file.data, s, old(file.pos), depth).outcome.trace)
    decreases depth, 1
  {
    hide ReadU32, DecodeRecord, WalkBlock;
    var n, block := file.FreadUint32();
    if n != 1 { return 1; }
    ret := EnumBlocks(s, block, observer, file, depth);
    if ret != 0 { return 1; }
    var status := EnumRecord(observer, file);
    if status != 0 { return 1; }
  }

  /** All the children that are followed by a record. */
  method EnumEntries(
    s: Loaded, ghost last: uint32, recordCount: uint32, observer: Observer?, file: File, ghost depth: nat)
    returns (ret: int, ghost trace: seq<RecordValue>)
    requires Survives(WalkChildren(file.data, s, file.pos, recordCount, last, depth))
    modifies file`pos, observer
    ensures Reported(observer, old(Seen(observer)), trace)
    ensures WalkChildren(file.data, s, old(file.pos), recordCount, last, depth)
         == if ret == 0 then Then(Outcome(Done, trace), WalkBlock(file.data, s, last, depth))
            else Outcome(Failed, trace)
    decreases depth, 2
  {
    hide WalkEntry, WalkBlock, WalkChildren, Then;
    ghost var data, before := file.data, Seen(observer);
    trace := [];
    ghost var rest := WalkChildren(data, s, file.pos, recordCount, last, depth);
    ghost var whole := rest;
    ThenStart(rest);
    for i := 0 to recordCount
      invariant rest == WalkChildren(data, s, file.pos, recordCount - i, last, depth)
      invariant whole == Then(Outcome(Done, trace), rest)
      invariant Reported(observer, before, trace)
    {
      ghost var entry := WalkEntry(data, s, file.pos, depth);
      ChildrenWalk(data, s, file.pos, recordCount - i, last, depth);
      rest := WalkChildren(data, s, entry.next, recordCount - i - 1, last, depth);
      ThenThen(trace, entry.outcome, rest);
      ret := EnumEntry(s, observer, file, depth);
      assert before + trace + entry.outcome.trace == before + (trace + entry.outcome.trace);
      trace := trace + entry.outcome.trace;
      if ret != 0 { return 1, trace; }
    }
    LastWalk(data, s, file.pos, last, depth);
    ret := 0;
  }

  method EnumInner(s: Loaded, last: uint32, recordCount: uint32, observer: Observer?, file: File, ghost depth: nat)
    returns (ret: int)
    requires Survives(WalkChildren(file.data, s, file.pos, recordCount, last, depth))
    modifies file`pos, observer
    ensures ret == 0 <==> WalkChildren(file.data, s, old(file.pos), recordCount, last, depth).status.Done?
    ensures Reported(observer, old(Seen(observer)),
                     WalkChildren(file.data, s, old(file.pos), recordCount, last, depth).trace)
    decreases depth, 3
  {
    hide WalkBlock, WalkChildren;
    ghost var trace;
    ret, trace := EnumEntries(s, last, recordCount, observer, file, depth);
    if ret != 0 { return 1; }
    ret := EnumBlocks(s, last, observer, file, depth);
  }

  lemma LastWalk(data: seq<byte>, s: Loaded, pos: nat, last: uint32, depth: nat)
    ensures WalkChildren(data, s, pos, 0, last, depth) == WalkBlock(data, s, last, depth)
  {
  }
}
