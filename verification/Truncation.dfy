/** What a walk reports of a file that was cut off. */
module Truncation {
  import opened Bytes
  import opened Records
  import opened Trees
  import opened Walks

  /** `a` is the run `b`, or it failed on the way. */
  predicate CutShort(a: Outcome, b: Outcome) {
    a == b || (a.status.Failed? && a.trace <= b.trace)
  }

  lemma WordExtend(short: seq<byte>, data: seq<byte>, pos: nat)
    requires short <= data && ReadU32(short, pos).Some?
    ensures ReadU32(data, pos) == ReadU32(short, pos)
  {
    AtExtend(short, data, pos, U32(ReadU32(short, pos).value));
  }

  lemma {:induction false} RecordsTruncated(short: seq<byte>, data: seq<byte>, pos: nat, count: nat)
    requires short <= data
    ensures CutShort(WalkRecords(short, pos, count), WalkRecords(data, pos, count))
    decreases count
  {
    hide DecodeRecord;
    if count > 0 && DecodeRecord(short, pos).Some? {
      DecodeExtend(short, data, pos);
      RecordsTruncated(short, data, DecodeRecord(short, pos).value.1, count - 1);
    }
  }

  /**
    With the same loaded state, walking a prefix of a file either does exactly what walking the whole file
    does, or it fails after reporting a prefix of the same records: it never reports anything else.
   */
  lemma {:induction false} BlockTruncated(short: seq<byte>, data: seq<byte>, s: Loaded, block: uint32, depth: nat)
    requires short <= data
    ensures CutShort(WalkBlock(short, s, block, depth), WalkBlock(data, s, block, depth))
    decreases depth, 0, 0
  {
    hide ReadU32, WalkRecords, WalkChildren, BlockStart;
    if s.root < s.blockCount && block < |s.addresses| && depth > 0 {
      var p := BlockStart(s.addresses[block]);
      assert WalkBlock(short, s, block, depth) == WalkNode(short, s, p, depth - 1);
      assert WalkBlock(data, s, block, depth) == WalkNode(data, s, p, depth - 1);
      var nodeType, count := ReadU32(short, p), ReadU32(short, p + 4);
      if nodeType.Some? && count.Some? {
        WordExtend(short, data, p);
        WordExtend(short, data, p + 4);
        if nodeType.value == 0 {
          RecordsTruncated(short, data, p + 8, count.value);
        } else {
          ChildrenTruncated(short, data, s, p + 8, count.value, nodeType.value, depth - 1);
        }
      }
    }
  }

  lemma {:induction false} ChildrenTruncated(
    short: seq<byte>, data: seq<byte>, s: Loaded, pos: nat, count: nat, last: uint32, depth: nat)
    requires short <= data
    ensures CutShort(WalkChildren(short, s, pos, count, last, depth), WalkChildren(data, s, pos, count, last, depth))
    decreases depth, 1 + count
  {
    hide WalkEntry, WalkBlock;
    if count == 0 {
      BlockTruncated(short, data, s, last, depth);
    } else {
      var entry := WalkEntry(short, s, pos, depth);
      EntryTruncated(short, data, s, pos, depth);
      ChildrenTruncated(short, data, s, entry.next, count - 1, last, depth);
    }
  }

  lemma {:induction false} EntryTruncated(short: seq<byte>, data: seq<byte>, s: Loaded, pos: nat, depth: nat)
    requires short <= data
    ensures var e, e' := WalkEntry(short, s, pos, depth), WalkEntry(data, s, pos, depth);
      CutShort(e.outcome, e'.outcome) && (e.outcome.status.Done? ==> e == e')
    decreases depth, 0, 1
  {
    hide ReadU32, DecodeRecord, WalkBlock;
    if ReadU32(short, pos).Some? {
      WordExtend(short, data, pos);
      BlockTruncated(short, data, s, ReadU32(short, pos).value, depth);
      if DecodeRecord(short, pos + 4).Some? {
        DecodeExtend(short, data, pos + 4);
      }
    }
  }
}
