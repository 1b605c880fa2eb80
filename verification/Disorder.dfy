/** A file whose tree has ordered neighbours and is enumerated out of order. */
module Disorder {
  import opened Bytes
  import opened Files
  import opened Records
  import opened Trees
  import opened Walks
  import opened Order

  /** Two records of the root, an empty leaf before each of them and one behind. */
  function EmptyLeafTree(high: RecordValue, low: RecordValue): Tree {
    Inner(1, Next(2, Leaf([]), high, Next(3, Leaf([]), low, Rightmost(Leaf([])))))
  }

  /** Blocks 1, 2 and 3 share the zeros at the beginning; the root follows them. */
  function EmptyLeafFile(high: RecordValue, low: RecordValue): seq<byte>
    requires RecordFits(high) && RecordFits(low)
  {
    Zeros(36) + (U32(1) + (U32(2) + (U32(2) + (EncodeRecord(high, 0) + (U32(3) + EncodeRecord(low, 0))))))
  }

  lemma EmptyLeafFileBytes(high: RecordValue, low: RecordValue)
    requires RecordFits(high) && RecordFits(low)
    ensures var data, p := EmptyLeafFile(high, low), 48 + RecordLength(high);
      && At(data, 0, Zeros(36)) && At(data, 36, U32(1)) && At(data, 40, U32(2)) && At(data, 44, U32(2))
      && At(data, 48, EncodeRecord(high, 0)) && At(data, p, U32(3)) && At(data, p + 4, EncodeRecord(low, 0))
  {
    var data := EmptyLeafFile(high, low);
    assert At(data, 0, data);
    hide At, Zeros, U32, EncodeRecord;
    var e := U32(3) + EncodeRecord(low, 0);
    var d := EncodeRecord(high, 0) + e;
    AtConcat(data, 0, Zeros(36), U32(1) + (U32(2) + (U32(2) + d)));
    AtConcat(data, 36, U32(1), U32(2) + (U32(2) + d));
    AtConcat(data, 40, U32(2), U32(2) + d);
    AtConcat(data, 44, U32(2), d);
    AtConcat(data, 48, EncodeRecord(high, 0), e);
    AtConcat(data, 48 + RecordLength(high), U32(3), EncodeRecord(low, 0));
  }

  lemma ZeroLeafAt(data: seq<byte>, addrs: seq<uint32>, block: uint32)
    requires At(data, 0, Zeros(36)) && block < |addrs| && addrs[block] == 0
    ensures TreeAt(data, addrs, block, Leaf([]))
  {
    assert forall i :: 0 <= i < 36 ==> data[i] == data[0..36][i] == 0;
    assert data[4..8] == U32(0) && data[8..12] == U32(0);
  }

  lemma EmptyLeafTreeAt(addrs: seq<uint32>, high: RecordValue, low: RecordValue)
    requires RecordFits(high) && RecordFits(low) && [32, 0, 0, 0] <= addrs
    ensures TreeAt(EmptyLeafFile(high, low), addrs, 0, EmptyLeafTree(high, low))
  {
    var data := EmptyLeafFile(high, low);
    EmptyLeafFileBytes(high, low);
    assert addrs[0] == 32 && addrs[1] == 0 && addrs[2] == 0 && addrs[3] == 0;
    ZeroLeafAt(data, addrs, 1);
    ZeroLeafAt(data, addrs, 2);
    ZeroLeafAt(data, addrs, 3);
    assert RecordAt(data, 48, high) && RecordAt(data, 48 + RecordLength(high) + 4, low);
    assert BlockStart(addrs[0]) == 36;
    hide At, RecordAt, BlockStart, Zeros, EncodeRecord, EmptyLeafFile;
    var last := Rightmost(Leaf([]));
    var inner := Next(3, Leaf([]), low, last);
    var p := 48 + RecordLength(high);
    assert ChildrenAt(data, addrs, p + 4 + RecordLength(low), 1, last);
    assert ChildrenAt(data, addrs, p, 1, inner);
    var outer := Next(2, Leaf([]), high, inner);
    assert ChildrenAt(data, addrs, 44, 1, outer);
    assert Count(inner) == 1;
    assert Count(outer) == 2;
    assert NodeAt(data, 36, 1, Count(outer));
    assert TreeAt(data, addrs, 0, Inner(1, outer));
  }

  /**
    The program accepts this file and reports the two records out of order, although every record of the
    tree is bounded by its neighbours: for any relation, with any two records in the wrong order.
   */
  lemma EmptyLeafFileDisorder(leq: Relation, s: Loaded, low: RecordValue, high: RecordValue)
    requires RecordFits(high) && RecordFits(low) && !leq(high, low)
    requires [32, 0, 0, 0] <= s.addresses && s.root == 0 < s.blockCount
    ensures Separated(leq, EmptyLeafTree(high, low))
    ensures WalkBlock(EmptyLeafFile(high, low), s, s.root, 2) == Outcome(Done, [high, low])
    ensures !Sorted(leq, [high, low])
  {
    EmptyLeafHidesDisorder(leq, low, high);
    EmptyLeafTreeAt(s.addresses, high, low);
    var t := EmptyLeafTree(high, low);
    assert Height(t) == 2 by {
      assert HeightChildren(t.children.rest.rest) == 1;
      assert HeightChildren(t.children.rest) == 1;
    }
    hide EmptyLeafFile, WalkBlock, TreeAt;
    WalkBlockComplete(EmptyLeafFile(high, low), s, 0, t, 2);
  }
}
