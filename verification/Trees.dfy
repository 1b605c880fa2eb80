/**
  The B-tree as data, and what it means for the bytes of a file to hold one. Nothing here reads a file:
  nodes are described by their encoding.
 */
module Trees {
  import opened Bytes
  import opened Addresses
  import opened Records

  datatype Tree = Leaf(records: seq<RecordValue>) | Inner(lastBlock: uint32, children: Children)

  /** The children of an inner node: all but the rightmost are followed by a record of the node itself. */
  datatype Children =
    | Rightmost(child: Tree)
    | Next(block: uint32, child: Tree, record: RecordValue, rest: Children)

  function InOrder(t: Tree): seq<RecordValue> {
    match t
    case Leaf(records) => records
    case Inner(_, children) => InOrderChildren(children)
  }

  function InOrderChildren(cs: Children): seq<RecordValue> {
    match cs
    case Rightmost(child) => InOrder(child)
    case Next(_, child, record, rest) => InOrder(child) + ([record] + InOrderChildren(rest))
  }

  function Max(a: nat, b: nat): nat { if a < b then b else a }

  /** Nodes on the longest way down. */
  function Height(t: Tree): nat {
    match t
    case Leaf(_) => 1
    case Inner(_, children) => 1 + HeightChildren(children)
  }

  function HeightChildren(cs: Children): nat {
    match cs
    case Rightmost(child) => Height(child)
    case Next(_, child, _, rest) => Max(Height(child), HeightChildren(rest))
  }

  /** The record count stored in an inner node. */
  function Count(cs: Children): nat {
    match cs
    case Rightmost(_) => 0
    case Next(_, _, _, rest) => 1 + Count(rest)
  }

  /** The record counts of all nodes added up, a node once for each way to it. */
  function CountSum(t: Tree): nat {
    match t
    case Leaf(records) => |records|
    case Inner(_, children) => Count(children) + CountSumChildren(children)
  }

  function CountSumChildren(cs: Children): nat {
    match cs
    case Rightmost(child) => CountSum(child)
    case Next(_, child, _, rest) => CountSum(child) + CountSumChildren(rest)
  }

  // ----- trees in files -----

  /** Where the block with address `a` begins: offsets do not count the four bytes of the version. */
  function BlockStart(a: uint32): nat { 4 + BlockOffset(a) }

  ghost predicate RecordsAt(data: seq<byte>, pos: nat, rs: seq<RecordValue>)
    decreases rs
  {
    rs == [] || (RecordAt(data, pos, rs[0]) && RecordsAt(data, pos + RecordLength(rs[0]), rs[1..]))
  }

  /** The two words a node begins with. The first is 0 in a leaf, else the rightmost child's block. */
  predicate NodeAt(data: seq<byte>, pos: nat, nodeType: uint32, count: nat) {
    count < 0x1_0000_0000 && At(data, pos, U32(nodeType)) && At(data, pos + 4, U32(count))
  }

  /** Block number `block` of the table holds the root node of `t`, and so on down the tree. */
  ghost predicate TreeAt(data: seq<byte>, addrs: seq<uint32>, block: uint32, t: Tree)
    decreases t
  {
    block < |addrs| &&
    match t
    case Leaf(records) =>
      NodeAt(data, BlockStart(addrs[block]), 0, |records|)
      && RecordsAt(data, BlockStart(addrs[block]) + 8, records)
    case Inner(lastBlock, children) =>
      lastBlock != 0 && NodeAt(data, BlockStart(addrs[block]), lastBlock, Count(children))
      && ChildrenAt(data, addrs, BlockStart(addrs[block]) + 8, lastBlock, children)
  }

  ghost predicate ChildrenAt(data: seq<byte>, addrs: seq<uint32>, pos: nat, lastBlock: uint32, cs: Children)
    decreases cs
  {
    match cs
    case Rightmost(child) => TreeAt(data, addrs, lastBlock, child)
    case Next(block, child, record, rest) =>
      && At(data, pos, U32(block)) && TreeAt(data, addrs, block, child)
      && RecordAt(data, pos + 4, record)
      && ChildrenAt(data, addrs, pos + 4 + RecordLength(record), lastBlock, rest)
  }

  // ----- a file holds at most one tree at a block -----

  lemma RecordUnique(data: seq<byte>, pos: nat, r: RecordValue, r': RecordValue)
    requires RecordAt(data, pos, r) && RecordAt(data, pos, r')
    ensures r == r'
  {
    DecodeRecordIff(data, pos, r, pos + RecordLength(r));
    DecodeRecordIff(data, pos, r', pos + RecordLength(r'));
  }

  lemma {:induction false} RecordsUnique(data: seq<byte>, pos: nat, rs: seq<RecordValue>, rs': seq<RecordValue>)
    requires RecordsAt(data, pos, rs) && RecordsAt(data, pos, rs') && |rs| == |rs'|
    ensures rs == rs'
    decreases rs
  {
    hide RecordAt;
    if rs != [] {
      RecordUnique(data, pos, rs[0], rs'[0]);
      RecordsUnique(data, pos + RecordLength(rs[0]), rs[1..], rs'[1..]);
      assert rs == [rs[0]] + rs[1..] && rs' == [rs'[0]] + rs'[1..];
    }
  }

  lemma NodeUnique(data: seq<byte>, pos: nat, m: uint32, c: nat, n: uint32, d: nat)
    requires NodeAt(data, pos, m, c) && NodeAt(data, pos, n, d)
    ensures m == n && c == d
  {
    assert ReadU32(data, pos) == Some(m) && ReadU32(data, pos + 4) == Some(c);
  }

  lemma {:induction false} TreeUnique(data: seq<byte>, addrs: seq<uint32>, block: uint32, t: Tree, t': Tree)
    requires TreeAt(data, addrs, block, t) && TreeAt(data, addrs, block, t')
    ensures t == t'
    decreases t
  {
    hide At, RecordAt, BlockOffset;
    var p := BlockStart(addrs[block]);
    match (t, t') {
      case (Leaf(rs), Leaf(rs')) =>
        NodeUnique(data, p, 0, |rs|, 0, |rs'|);
        RecordsUnique(data, p + 8, rs, rs');
      case (Inner(b, cs), Inner(b', cs')) =>
        NodeUnique(data, p, b, Count(cs), b', Count(cs'));
        ChildrenUnique(data, addrs, p + 8, b, cs, cs');
      case (Leaf(rs), Inner(b', cs')) =>
        NodeUnique(data, p, 0, |rs|, b', Count(cs'));
      case (Inner(b, cs), Leaf(rs')) =>
        NodeUnique(data, p, b, Count(cs), 0, |rs'|);
    }
  }

  lemma {:induction false} ChildrenUnique(
    data: seq<byte>, addrs: seq<uint32>, pos: nat, lastBlock: uint32, cs: Children, cs': Children)
    requires ChildrenAt(data, addrs, pos, lastBlock, cs) && ChildrenAt(data, addrs, pos, lastBlock, cs')
    requires Count(cs) == Count(cs')
    ensures cs == cs'
    decreases cs
  {
    hide At, RecordAt;
    match cs
    case Rightmost(child) => TreeUnique(data, addrs, lastBlock, child, cs'.child);
    case Next(block, child, record, rest) =>
      assert ReadU32(data, pos) == Some(block) && ReadU32(data, pos) == Some(cs'.block);
      TreeUnique(data, addrs, block, child, cs'.child);
      RecordUnique(data, pos + 4, record, cs'.record);
      ChildrenUnique(data, addrs, pos + 4 + RecordLength(record), lastBlock, rest, cs'.rest);
  }

  /** An enumeration of the tree has as many records as the nodes on its ways down count together. */
  lemma {:induction false} InOrderCount(t: Tree)
    ensures |InOrder(t)| == CountSum(t)
  {
    match t
    case Leaf(_) =>
    case Inner(_, children) => InOrderCountChildren(children);
  }

  lemma {:induction false} InOrderCountChildren(cs: Children)
    ensures |InOrderChildren(cs)| == Count(cs) + CountSumChildren(cs)
  {
    match cs
    case Rightmost(child) => InOrderCount(child);
    case Next(_, child, _, rest) =>
      InOrderCount(child);
      InOrderCountChildren(rest);
  }
}
