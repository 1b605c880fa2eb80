/**
  A serializer for trees and stores, the counterpart of opening and enumerating: it gives every node a block
  of its own, numbered and placed in the order of a walk that visits parents first, and lays the blocks out
  one behind the other. The sizes in the blocks' addresses are free.
 */
module Layouts {
  import opened Bytes
  import opened Files
  import opened Records
  import opened Trees
  import opened Walks
  import opened Allocators
  import opened AllocatorStates
  import opened Headers
  import opened Stores

  const OFFSET_LIMIT := 0x1_0000_0000

  // ----- sizes -----

  /** Blocks begin at multiples of 32. */
  predicate Aligned(n: nat) { n % 32 == 0 }

  lemma AlignedSum(m: nat, n: nat)
    requires Aligned(m) && Aligned(n)
    ensures Aligned(m + n)
  {
  }

  function RoundUp(n: nat): (m: nat)
    ensures n <= m < n + 32 && Aligned(m)
  {
    (n + 31) / 32 * 32
  }

  function Pad(bs: seq<byte>): (s: seq<byte>)
    ensures |s| == RoundUp(|bs|) && bs <= s
  {
    bs + Zeros(RoundUp(|bs|) - |bs|)
  }

  function RecordsLength(rs: seq<RecordValue>): nat {
    if rs == [] then 0 else RecordLength(rs[0]) + RecordsLength(rs[1..])
  }

  /** Block numbers and records of an inner node. */
  function EntriesLength(cs: Children): nat {
    match cs
    case Rightmost(_) => 0
    case Next(_, _, record, rest) => 4 + RecordLength(record) + EntriesLength(rest)
  }

  function NodeLength(t: Tree): nat {
    8 + match t case Leaf(records) => RecordsLength(records) case Inner(_, children) => EntriesLength(children)
  }

  function Nodes(t: Tree): (n: nat)
    ensures n > 0
  {
    match t
    case Leaf(_) => 1
    case Inner(_, children) => 1 + NodesBelow(children)
  }

  function NodesBelow(cs: Children): (n: nat)
    ensures n > 0
  {
    match cs
    case Rightmost(child) => Nodes(child)
    case Next(_, child, _, rest) => Nodes(child) + NodesBelow(rest)
  }

  function Size(t: Tree): nat {
    RoundUp(NodeLength(t)) + match t case Leaf(_) => 0 case Inner(_, children) => SizeBelow(children)
  }

  function SizeBelow(cs: Children): nat {
    match cs
    case Rightmost(child) => Size(child)
    case Next(_, child, _, rest) => Size(child) + SizeBelow(rest)
  }

  predicate AllFit(rs: seq<RecordValue>) {
    forall i :: 0 <= i < |rs| ==> RecordFits(rs[i])
  }

  predicate Storable(t: Tree) {
    match t
    case Leaf(records) => AllFit(records)
    case Inner(_, children) => StorableChildren(children)
  }

  predicate StorableChildren(cs: Children) {
    match cs
    case Rightmost(child) => Storable(child)
    case Next(_, child, record, rest) => Storable(child) && RecordFits(record) && StorableChildren(rest)
  }

  // ----- the bytes of a node -----

  function EncodeRecords(rs: seq<RecordValue>): (s: seq<byte>)
    requires AllFit(rs)
    ensures |s| == RecordsLength(rs)
  {
    if rs == [] then [] else EncodeRecord(rs[0], 0) + EncodeRecords(rs[1..])
  }

  function EncodeEntries(cs: Children): (s: seq<byte>)
    requires StorableChildren(cs)
    ensures |s| == EntriesLength(cs)
  {
    match cs
    case Rightmost(_) => []
    case Next(block, _, record, rest) => U32(block) + (EncodeRecord(record, 0) + EncodeEntries(rest))
  }

  lemma {:induction false} CountBound(cs: Children)
    ensures Count(cs) <= EntriesLength(cs)
  {
    if cs.Next? { CountBound(cs.rest); }
  }

  lemma {:induction false} LengthBound(rs: seq<RecordValue>)
    ensures |rs| <= RecordsLength(rs)
  {
    if rs != [] { LengthBound(rs[1..]); }
  }

  function EncodeNode(nodeType: uint32, count: nat, body: seq<byte>): (s: seq<byte>)
    requires count < 0x1_0000_0000
    ensures |s| == 8 + |body|
  {
    U32(nodeType) + (U32(count) + body)
  }

  // ----- placing -----

  type Low5 = n: nat | n < 32

  /** What the address table has in the low five bits of each block's address: its size, which may be any. */
  type SizeBits = bits: seq<Low5> | |bits| == TABLE_CAPACITY witness seq(TABLE_CAPACITY, _ => 0)

  function Address(offset: nat, bits: Low5): uint32
    requires Aligned(offset) && offset < OFFSET_LIMIT
  {
    offset + bits
  }

  /** A tree with the numbers of its blocks, the blocks, and their addresses. */
  datatype PlacedTree = PlacedTree(tree: Tree, bytes: seq<byte>, table: seq<uint32>)

  datatype PlacedChildren = PlacedChildren(children: Children, last: uint32, bytes: seq<byte>, table: seq<uint32>)

  /** There are numbers and offsets left for `nodes` blocks of `size` bytes together. */
  predicate Room(block: nat, offset: nat, nodes: nat, size: nat) {
    block + nodes <= TABLE_CAPACITY && Aligned(offset) && offset + size < OFFSET_LIMIT
  }

  function Place(t: Tree, block: nat, offset: nat, bits: SizeBits): (p: PlacedTree)
    requires Storable(t) && Room(block, offset, Nodes(t), Size(t))
    ensures |p.bytes| == Size(t) && |p.table| == Nodes(t)
    ensures Storable(p.tree) && p.table[0] == bits[block] as int + offset
    decreases t
  {
    match t
    case Leaf(records) =>
      LengthBound(records);
      PlacedTree(t, Pad(EncodeNode(0, |records|, EncodeRecords(records))), [Address(offset, bits[block])])
    case Inner(_, children) =>
      RoomBelow(t, block, offset);
      hide Room, RoundUp, NodeLength, NodesBelow, SizeBelow;
      var p := PlaceChildren(children, block + 1, offset + RoundUp(NodeLength(t)), bits);
      CountBound(children);
      PlacedTree(
        Inner(p.last, p.children),
        Pad(EncodeNode(p.last, Count(p.children), EncodeEntries(p.children))) + p.bytes,
        [Address(offset, bits[block])] + p.table)
  }

  function PlaceChildren(cs: Children, block: nat, offset: nat, bits: SizeBits): (p: PlacedChildren)
    requires StorableChildren(cs) && Room(block, offset, NodesBelow(cs), SizeBelow(cs))
    ensures |p.bytes| == SizeBelow(cs) && |p.table| == NodesBelow(cs) && block <= p.last < block + NodesBelow(cs)
    ensures StorableChildren(p.children)
    ensures Count(p.children) == Count(cs) && EntriesLength(p.children) == EntriesLength(cs)
    decreases cs
  {
    match cs
    case Rightmost(child) =>
      var p := Place(child, block, offset, bits);
      PlacedChildren(Rightmost(p.tree), block, p.bytes, p.table)
    case Next(_, child, record, rest) =>
      RoomNext(cs, block, offset);
      hide Room;
      var p := Place(child, block, offset, bits);
      var q := PlaceChildren(rest, block + Nodes(child), offset + Size(child), bits);
      PlacedChildren(Next(block, p.tree, record, q.children), q.last, p.bytes + q.bytes, p.table + q.table)
  }

  lemma RoomBelow(t: Tree, block: nat, offset: nat)
    requires t.Inner? && Room(block, offset, Nodes(t), Size(t))
    ensures Room(block + 1, offset + RoundUp(NodeLength(t)), NodesBelow(t.children), SizeBelow(t.children))
    ensures EntriesLength(t.children) < OFFSET_LIMIT
  {
    hide Aligned, RoundUp;
    AlignedSum(offset, RoundUp(NodeLength(t)));
  }

  lemma RoomNext(cs: Children, block: nat, offset: nat)
    requires cs.Next? && Room(block, offset, NodesBelow(cs), SizeBelow(cs))
    ensures Room(block, offset, Nodes(cs.child), Size(cs.child))
    ensures Room(block + Nodes(cs.child), offset + Size(cs.child), NodesBelow(cs.rest), SizeBelow(cs.rest))
  {
    hide Aligned, Nodes, Size;
    SizeAligned(cs.child);
    AlignedSum(offset, Size(cs.child));
  }

  lemma {:induction false} SizeAligned(t: Tree)
    ensures Aligned(Size(t))
    decreases t
  {
    hide Aligned, RoundUp, NodeLength, SizeBelow;
    if t.Inner? {
      SizeBelowAligned(t.children);
      AlignedSum(RoundUp(NodeLength(t)), SizeBelow(t.children));
    }
  }

  lemma {:induction false} SizeBelowAligned(cs: Children)
    ensures Aligned(SizeBelow(cs))
    decreases cs
  {
    hide Aligned, Size;
    SizeAligned(cs.child);
    if cs.Next? {
      SizeBelowAligned(cs.rest);
      AlignedSum(Size(cs.child), SizeBelow(cs.rest));
    }
  }

  // ----- a placed tree is stored -----

  /** The blocks stand at their offsets and the table gives their addresses. */
  ghost predicate Laid(
    data: seq<byte>, addrs: seq<uint32>, block: nat, offset: nat, bytes: seq<byte>, table: seq<uint32>)
  {
    At(data, 4 + offset, bytes) && block + |table| <= |addrs| && addrs[block..block + |table|] == table
  }

  lemma LaidSplit(
    data: seq<byte>, addrs: seq<uint32>, block: nat, offset: nat,
    a: seq<byte>, b: seq<byte>, s: seq<uint32>, t: seq<uint32>)
    requires Laid(data, addrs, block, offset, a + b, s + t)
    ensures Laid(data, addrs, block, offset, a, s) && Laid(data, addrs, block + |s|, offset + |a|, b, t)
  {
    AtConcat(data, 4 + offset, a, b);
    var all := addrs[block..block + |s + t|];
    assert all[..|s|] == addrs[block..block + |s|] && all[|s|..] == addrs[block + |s|..block + |s| + |t|];
    assert (s + t)[..|s|] == s && (s + t)[|s|..] == t;
  }

  lemma {:induction false} RecordsStored(data: seq<byte>, pos: nat, rs: seq<RecordValue>)
    requires AllFit(rs) && At(data, pos, EncodeRecords(rs))
    ensures RecordsAt(data, pos, rs)
    decreases rs
  {
    hide At, RecordFits;
    if rs != [] {
      AtConcat(data, pos, EncodeRecord(rs[0], 0), EncodeRecords(rs[1..]));
      RecordStored(data, pos, rs[0]);
      RecordsStored(data, pos + RecordLength(rs[0]), rs[1..]);
    }
  }

  lemma RecordStored(data: seq<byte>, pos: nat, r: RecordValue)
    requires RecordFits(r) && At(data, pos, EncodeRecord(r, 0))
    ensures RecordAt(data, pos, r)
  {
  }

  lemma NodeStored(
    data: seq<byte>, addrs: seq<uint32>, block: nat, offset: nat, bits: SizeBits,
    nodeType: uint32, count: nat, body: seq<byte>)
    requires count < 0x1_0000_0000 && Aligned(offset) && offset < OFFSET_LIMIT && block < TABLE_CAPACITY
    requires Laid(data, addrs, block, offset, Pad(EncodeNode(nodeType, count, body)), [Address(offset, bits[block])])
    ensures block < |addrs| && BlockStart(addrs[block]) == 4 + offset
    ensures NodeAt(data, 4 + offset, nodeType, count) && At(data, 4 + offset + 8, body)
  {
    assert addrs[block..block + 1][0] == addrs[block] == bits[block] as int + offset;
    hide At;
    var node := EncodeNode(nodeType, count, body);
    AtConcat(data, 4 + offset, node, Zeros(RoundUp(|node|) - |node|));
    AtConcat(data, 4 + offset, U32(nodeType), U32(count) + body);
    AtConcat(data, 4 + offset + 4, U32(count), body);
  }

  lemma LeafPlaced(data: seq<byte>, addrs: seq<uint32>, t: Tree, block: nat, offset: nat, bits: SizeBits)
    requires t.Leaf? && Storable(t) && Room(block, offset, Nodes(t), Size(t))
    requires var p := Place(t, block, offset, bits); Laid(data, addrs, block, offset, p.bytes, p.table)
    ensures TreeAt(data, addrs, block, Place(t, block, offset, bits).tree)
  {
    hide At, Laid, NodeAt, BlockStart, RecordAt, EncodeNode, Pad;
    LengthBound(t.records);
    NodeStored(data, addrs, block, offset, bits, 0, |t.records|, EncodeRecords(t.records));
    RecordsStored(data, 4 + offset + 8, t.records);
  }

  /** What stands behind the node of an inner tree, and where. */
  lemma InnerPlaced(data: seq<byte>, addrs: seq<uint32>, t: Tree, block: nat, offset: nat, bits: SizeBits)
    returns (p: PlacedChildren)
    requires t.Inner? && Storable(t) && Room(block, offset, Nodes(t), Size(t))
    requires var p := Place(t, block, offset, bits); Laid(data, addrs, block, offset, p.bytes, p.table)
    ensures var below := offset + RoundUp(NodeLength(t));
      && StorableChildren(t.children) && Room(block + 1, below, NodesBelow(t.children), SizeBelow(t.children))
      && p == PlaceChildren(t.children, block + 1, below, bits)
      && Laid(data, addrs, block + 1, below, p.bytes, p.table)
      && At(data, 4 + offset + 8, EncodeEntries(p.children))
      && Place(t, block, offset, bits).tree == Inner(p.last, p.children)
    ensures block < |addrs| && BlockStart(addrs[block]) == 4 + offset
    ensures NodeAt(data, 4 + offset, p.last, Count(p.children))
  {
    hide At, Laid, NodeAt, BlockStart, EncodeNode, Pad, EncodeEntries, PlaceChildren, NodesBelow, SizeBelow, RoundUp;
    RoomBelow(t, block, offset);
    p := PlaceChildren(t.children, block + 1, offset + RoundUp(NodeLength(t)), bits);
    CountBound(t.children);
    var body := EncodeEntries(p.children);
    LaidSplit(data, addrs, block, offset,
      Pad(EncodeNode(p.last, Count(p.children), body)), p.bytes, [Address(offset, bits[block])], p.table);
    NodeStored(data, addrs, block, offset, bits, p.last, Count(p.children), body);
  }

  lemma NextPlaced(cs: Children, block: nat, offset: nat, bits: SizeBits)
    returns (p: PlacedTree, q: PlacedChildren)
    requires cs.Next? && StorableChildren(cs) && Room(block, offset, NodesBelow(cs), SizeBelow(cs))
    ensures Storable(cs.child) && StorableChildren(cs.rest) && RecordFits(cs.record)
    ensures var next, after := block + Nodes(cs.child), offset + Size(cs.child);
      && Room(block, offset, Nodes(cs.child), Size(cs.child)) && p == Place(cs.child, block, offset, bits)
      && Room(next, after, NodesBelow(cs.rest), SizeBelow(cs.rest)) && q == PlaceChildren(cs.rest, next, after, bits)
    ensures PlaceChildren(cs, block, offset, bits) ==
      PlacedChildren(Next(block, p.tree, cs.record, q.children), q.last, p.bytes + q.bytes, p.table + q.table)
  {
    hide Room, Place, Storable, Size, SizeBelow, NodesBelow, Nodes, RecordFits, EntriesLength, RecordLength, Count;
    RoomNext(cs, block, offset);
    p := Place(cs.child, block, offset, bits);
    q := PlaceChildren(cs.rest, block + Nodes(cs.child), offset + Size(cs.child), bits);
  }

  lemma {:induction false} PlacedAt(
    data: seq<byte>, addrs: seq<uint32>, t: Tree, block: nat, offset: nat, bits: SizeBits)
    requires Storable(t) && Room(block, offset, Nodes(t), Size(t))
    requires var p := Place(t, block, offset, bits); Laid(data, addrs, block, offset, p.bytes, p.table)
    ensures TreeAt(data, addrs, block, Place(t, block, offset, bits).tree)
    decreases t
  {
    hide At, Laid, NodeAt, BlockStart, Place, PlaceChildren, Room, Nodes, Size, Storable, EncodeEntries;
    if t.Leaf? {
      LeafPlaced(data, addrs, t, block, offset, bits);
    } else {
      var p := InnerPlaced(data, addrs, t, block, offset, bits);
      ChildrenPlacedAt(data, addrs, t.children, block + 1, offset + RoundUp(NodeLength(t)), 4 + offset + 8, bits);
    }
  }

  lemma {:induction false} ChildrenPlacedAt(
    data: seq<byte>, addrs: seq<uint32>, cs: Children, block: nat, offset: nat, pos: nat, bits: SizeBits)
    requires StorableChildren(cs) && Room(block, offset, NodesBelow(cs), SizeBelow(cs))
    requires var p := PlaceChildren(cs, block, offset, bits);
      Laid(data, addrs, block, offset, p.bytes, p.table) && At(data, pos, EncodeEntries(p.children))
    ensures var p := PlaceChildren(cs, block, offset, bits);
      ChildrenAt(data, addrs, pos, p.last, p.children)
    decreases cs
  {
    if cs.Rightmost? {
      hide At, Laid, Place, Room, Nodes, Size, Storable, EncodeEntries, TreeAt;
      PlacedAt(data, addrs, cs.child, block, offset, bits);
    } else {
      hide At, Laid, RecordAt, TreeAt, Place, PlaceChildren, Room, Nodes, NodesBelow, Size, SizeBelow, RecordLength;
      hide EncodeEntries, Storable, StorableChildren, RecordFits;
      var p, q := NextPlaced(cs, block, offset, bits);
      LaidSplit(data, addrs, block, offset, p.bytes, q.bytes, p.table, q.table);
      PlacedAt(data, addrs, cs.child, block, offset, bits);
      EntryPlaced(data, pos, block, p.tree, cs.record, q.children);
      ChildrenPlacedAt(data, addrs, cs.rest, block + Nodes(cs.child), offset + Size(cs.child),
        pos + 4 + RecordLength(cs.record), bits);
    }
  }

  lemma EntryPlaced(data: seq<byte>, pos: nat, block: uint32, child: Tree, record: RecordValue, rest: Children)
    requires StorableChildren(Next(block, child, record, rest))
    requires At(data, pos, EncodeEntries(Next(block, child, record, rest)))
    ensures At(data, pos, U32(block)) && RecordAt(data, pos + 4, record)
    ensures At(data, pos + 4 + RecordLength(record), EncodeEntries(rest))
  {
    hide At, RecordAt;
    AtConcat(data, pos, U32(block), EncodeRecord(record, 0) + EncodeEntries(rest));
    AtConcat(data, pos + 4, EncodeRecord(record, 0), EncodeEntries(rest));
    RecordStored(data, pos + 4, record);
  }

  /** Placing changes numbers only. */
  lemma {:induction false} PlacedSame(t: Tree, block: nat, offset: nat, bits: SizeBits)
    requires Storable(t) && Room(block, offset, Nodes(t), Size(t))
    ensures var p := Place(t, block, offset, bits); InOrder(p.tree) == InOrder(t) && Height(p.tree) == Height(t)
    decreases t
  {
    hide Room, RoundUp, NodeLength, Pad, EncodeNode, EncodeEntries, PlaceChildren, NodesBelow, SizeBelow;
    if t.Inner? {
      RoomBelow(t, block, offset);
      ChildrenPlacedSame(t.children, block + 1, offset + RoundUp(NodeLength(t)), bits);
    }
  }

  lemma {:induction false} ChildrenPlacedSame(cs: Children, block: nat, offset: nat, bits: SizeBits)
    requires StorableChildren(cs) && Room(block, offset, NodesBelow(cs), SizeBelow(cs))
    ensures var p := PlaceChildren(cs, block, offset, bits).children;
      InOrderChildren(p) == InOrderChildren(cs) && HeightChildren(p) == HeightChildren(cs)
    decreases cs
  {
    if cs.Rightmost? {
      hide Place, Room, Nodes, Size, Storable;
      PlacedSame(cs.child, block, offset, bits);
    } else {
      hide Place, PlaceChildren, Room, Nodes, NodesBelow, Size, SizeBelow, Storable, StorableChildren, InOrder, Height;
      hide RecordFits;
      var p, q := NextPlaced(cs, block, offset, bits);
      PlacedSame(cs.child, block, offset, bits);
      ChildrenPlacedSame(cs.rest, block + Nodes(cs.child), offset + Size(cs.child), bits);
    }
  }

  // ----- a store for every tree that fits -----

  const TREE_OFFSET := 64

  /** Every record can be encoded, and block numbers and offsets suffice. */
  predicate Serializable(t: Tree) {
    Storable(t) && Room(1, TREE_OFFSET, Nodes(t), Size(t))
  }

  /** The numbers that no reader looks at are 0. Block 0 is the header block, block 1 the root. */
  function HeaderFor(t: Tree): HeaderValue
    requires Serializable(t)
  {
    HeaderValue(VERSION, BUD1, TREE_OFFSET + Size(t), 0, TREE_OFFSET + Size(t), Zeros(PADDING_SIZE))
  }

  const ROOT_BLOCK := HeaderBlockValue(1, 0, 0, 0, PAGE_SIZE)

  function TableFor(t: Tree, bits: SizeBits): (table: seq<uint32>)
    requires Serializable(t)
    ensures |table| == PaddedCount(1 + Nodes(t)) <= TABLE_CAPACITY
    ensures table[0] == bits[0] as int + 32 && table[1..1 + Nodes(t)] == Place(t, 1, TREE_OFFSET, bits).table
  {
    var used := [Address(32, bits[0])] + Place(t, 1, TREE_OFFSET, bits).table;
    PaddedCountLeast(|used|, TABLE_CAPACITY);
    used + seq(PaddedCount(|used|) - |used|, _ => 0)
  }

  function AllocatorFor(t: Tree, bits: SizeBits): (img: AllocatorImage)
    requires Serializable(t)
    ensures ImageFits(img)
  {
    AllocatorImage(1 + Nodes(t), 0, TableFor(t, bits), [NamedBlock(DSDB, 0)], seq(FREE_LISTS, _ => []))
  }

  function Serialize(t: Tree, bits: SizeBits): seq<byte>
    requires Serializable(t)
  {
    EncodeHeader(HeaderFor(t)) +
      (Pad(EncodeHeaderBlock(ROOT_BLOCK)) +
        (Place(t, 1, TREE_OFFSET, bits).bytes + EncodeAllocator(AllocatorFor(t, bits))))
  }

  function ImageFor(t: Tree, bits: SizeBits): StoreImage
    requires Serializable(t)
  {
    StoreImage(HeaderFor(t), AllocatorFor(t, bits), ROOT_BLOCK, Place(t, 1, TREE_OFFSET, bits).tree)
  }

  lemma SerializedParts(t: Tree, bits: SizeBits)
    requires Serializable(t)
    ensures var data := Serialize(t, bits);
      && At(data, 0, EncodeHeader(HeaderFor(t))) && At(data, 36, EncodeHeaderBlock(ROOT_BLOCK))
      && At(data, 4 + TREE_OFFSET, Place(t, 1, TREE_OFFSET, bits).bytes)
      && At(data, 4 + TREE_OFFSET + Size(t), EncodeAllocator(AllocatorFor(t, bits)))
  {
    hide At, EncodeHeaderBlock, EncodeAllocator, EncodeHeader, Pad, Place, Room, Storable, Size, TableFor, RoundUp;
    var block := EncodeHeaderBlock(ROOT_BLOCK);
    BlockLength(ROOT_BLOCK);
    var allocator := EncodeAllocator(AllocatorFor(t, bits));
    PartsAt(EncodeHeader(HeaderFor(t)), Pad(block), Place(t, 1, TREE_OFFSET, bits).bytes, allocator);
    PaddedAt(Serialize(t, bits), 36, block);
  }

  lemma PartsAt(a: seq<byte>, b: seq<byte>, c: seq<byte>, d: seq<byte>)
    ensures var data := a + (b + (c + d));
      At(data, 0, a) && At(data, |a|, b) && At(data, |a| + |b|, c) && At(data, |a| + |b| + |c|, d)
  {
    var data := a + (b + (c + d));
    assert At(data, 0, data);
    hide At;
    AtConcat(data, 0, a, b + (c + d));
    AtConcat(data, |a|, b, c + d);
    AtConcat(data, |a| + |b|, c, d);
  }

  lemma BlockLength(hb: HeaderBlockValue)
    ensures |EncodeHeaderBlock(hb)| == 20 && |Pad(EncodeHeaderBlock(hb))| == 32
  {
  }

  lemma PaddedAt(data: seq<byte>, pos: nat, bs: seq<byte>)
    requires At(data, pos, Pad(bs))
    ensures At(data, pos, bs)
  {
    AtConcat(data, pos, bs, Zeros(RoundUp(|bs|) - |bs|));
  }

  /** Every tree that fits is held by a file, for any block sizes; its directory names its header block. */
  lemma SerializeStores(t: Tree, bits: SizeBits)
    requires Serializable(t)
    ensures SelfContained(Serialize(t, bits), ImageFor(t, bits), 0)
    ensures InOrder(ImageFor(t, bits).tree) == InOrder(t) && Height(ImageFor(t, bits).tree) == Height(t)
  {
    hide At, EncodeHeaderBlock, EncodeAllocator, EncodeHeader, Place, Room, Storable, Size, Words, TreeAt, Encodable;
    hide Serialize;
    SerializedParts(t, bits);
    PlacedAt(Serialize(t, bits), TableFor(t, bits), t, 1, TREE_OFFSET, bits);
    PlacedSame(t, 1, TREE_OFFSET, bits);
  }

  /**
    Serializing a tree and enumerating the file gives the tree's records in order, whatever block sizes the low
    bits of the addresses stand for.
   */
  lemma SerializeEnumerates(t: Tree, bits: SizeBits, stale: AllocatorState)
    requires Serializable(t) && stale.Sized()
    ensures Enumerate(Serialize(t, bits), stale, Height(t)) == Outcome(Done, InOrder(t))
  {
    hide Serialize, SelfContained, Enumerate, Storable, Room;
    SerializeStores(t, bits);
    EndToEnd(Serialize(t, bits), ImageFor(t, bits), 0, stale);
  }
}
