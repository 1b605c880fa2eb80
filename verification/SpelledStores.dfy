/**
  A whole store, spelled out with the bytes it consists of: one inner node, two leaves, three records. Where the
  blocks lie, the sizes that their addresses give, and all numbers that nobody looks at are free.
 */
module SpelledStores {
  import opened Bytes
  import opened Files
  import opened Records
  import opened Trees
  import opened Walks
  import opened Allocators
  import opened AllocatorStates
  import opened Headers
  import opened Stores
  import opened Spellings
  import opened Layouts

  /** Where the blocks of a store lie, and the sizes its table gives for them. */
  datatype Block = Block(offset: nat, bits: nat) {
    predicate Fits() { offset % 32 == 0 && bits < 32 && offset < 0x1_0000_0000 }

    function Address(): uint32
      requires Fits()
    { offset + bits }
  }

  /** The file's header: nobody looks at the size and the last sixteen bytes. */
  predicate HeaderSpells(data: seq<byte>, offset: uint32, size: uint32, padding: seq<byte>) {
    && At(data, 0, [0, 0, 0, 1]) && At(data, 4, [0x42, 0x75, 0x64, 0x31]) && At(data, 8, U32(offset))
    && At(data, 12, U32(size)) && At(data, 16, U32(offset)) && |padding| == 16 && At(data, 20, padding)
  }

  /**
    The allocator: four blocks, a number nobody looks at, their addresses and 252 others, one directory entry
    "DSDB" for block 0, and 32 empty free lists.
   */
  predicate AllocatorSpells(
    data: seq<byte>, pos: nat, unknown: uint32, a: Block, b: Block, c: Block, d: Block, others: seq<uint32>)
    requires a.Fits() && b.Fits() && c.Fits() && d.Fits()
  {
    && At(data, pos, [0, 0, 0, 4]) && At(data, pos + 4, U32(unknown))
    && At(data, pos + 8, U32(a.Address())) && At(data, pos + 12, U32(b.Address()))
    && At(data, pos + 16, U32(c.Address())) && At(data, pos + 20, U32(d.Address()))
    && |others| == 252 && At(data, pos + 24, Words(others))
    && At(data, pos + 1032, [0, 0, 0, 1]) && At(data, pos + 1036, [4])
    && At(data, pos + 1037, [0x44, 0x53, 0x44, 0x42]) && At(data, pos + 1041, [0, 0, 0, 0])
    && At(data, pos + 1045, Zeros(128))
  }

  predicate HeaderBlockSpells(data: seq<byte>, pos: nat, levels: uint32, records: uint32, nodes: uint32) {
    && At(data, pos, [0, 0, 0, 1]) && At(data, pos + 4, U32(levels)) && At(data, pos + 8, U32(records))
    && At(data, pos + 12, U32(nodes)) && At(data, pos + 16, [0, 0, 0x10, 0])
  }

  ghost predicate LeafSpells(data: seq<byte>, pos: nat, r: RecordValue) {
    At(data, pos, [0, 0, 0, 0]) && At(data, pos + 4, [0, 0, 0, 1]) && RecordAt(data, pos + 8, r)
  }

  /** Rightmost child 3, one record, before it child 2. */
  ghost predicate RootSpells(data: seq<byte>, pos: nat, r: RecordValue) {
    && At(data, pos, [0, 0, 0, 3]) && At(data, pos + 4, [0, 0, 0, 1])
    && At(data, pos + 8, [0, 0, 0, 2]) && RecordAt(data, pos + 12, r)
  }

  lemma NumbersSpelled()
    ensures U32(0) == [0, 0, 0, 0] && U32(1) == [0, 0, 0, 1] && U32(2) == [0, 0, 0, 2] && U32(3) == [0, 0, 0, 3]
    ensures U32(4) == [0, 0, 0, 4] && U32(PAGE_SIZE) == [0, 0, 0x10, 0] && U32(BUD1) == [0x42, 0x75, 0x64, 0x31]
  {
    BigEndian32(0, 0, 0, 0);
    BigEndian32(0, 0, 0, 1);
    BigEndian32(0, 0, 0, 2);
    BigEndian32(0, 0, 0, 3);
    BigEndian32(0, 0, 0, 4);
    BigEndian32(0, 0, 0x10, 0);
    BigEndian32(0x42, 0x75, 0x64, 0x31);
  }

  function SpelledHeader(offset: uint32, size: uint32, padding: seq<byte>): HeaderValue {
    HeaderValue(1, BUD1, offset, size, offset, padding)
  }

  lemma SpelledHeaderAt(data: seq<byte>, offset: uint32, size: uint32, padding: seq<byte>)
    ensures var h := SpelledHeader(offset, size, padding);
      HeaderSpells(data, offset, size, padding) <==> Acceptable(h) && At(data, 0, EncodeHeader(h))
  {
    NumbersSpelled();
    hide At, U32, EncodeHeader;
    HeaderBytes(data, 0, SpelledHeader(offset, size, padding));
  }

  function SpelledAllocator(
    unknown: uint32, a: Block, b: Block, c: Block, d: Block, others: seq<uint32>): AllocatorImage
    requires a.Fits() && b.Fits() && c.Fits() && d.Fits()
  {
    AllocatorImage(4, unknown, [a.Address(), b.Address(), c.Address(), d.Address()] + others,
      [NamedBlock([0x44, 0x53, 0x44, 0x42], 0)], Empties(32))
  }

  lemma FourWords(data: seq<byte>, pos: nat, a: uint32, b: uint32, c: uint32, d: uint32, others: seq<uint32>)
    ensures At(data, pos, Words([a, b, c, d] + others))
       <==> && At(data, pos, U32(a)) && At(data, pos + 4, U32(b)) && At(data, pos + 8, U32(c))
            && At(data, pos + 12, U32(d)) && At(data, pos + 16, Words(others))
  {
    var s1, s2, s3 := [d] + others, [c, d] + others, [b, c, d] + others;
    hide At;
    assert s1[1..] == others && s2[1..] == s1 && s3[1..] == s2;
    assert ([a, b, c, d] + others)[1..] == s3;
    AtConcat(data, pos + 12, U32(d), Words(others));
    AtConcat(data, pos + 8, U32(c), Words(s1));
    AtConcat(data, pos + 4, U32(b), Words(s2));
    AtConcat(data, pos, U32(a), Words(s3));
  }

  lemma DirectoryAt(data: seq<byte>, pos: nat, name: seq<byte>)
    requires |name| == 4
    ensures |EncodeDirectory([NamedBlock(name, 0)])| == 13
    ensures At(data, pos, EncodeDirectory([NamedBlock(name, 0)]))
       <==> At(data, pos, U32(1)) && At(data, pos + 4, [4]) && At(data, pos + 5, name) && At(data, pos + 9, U32(0))
  {
    var e := NamedBlock(name, 0);
    hide At, U32;
    NameBytes(data, pos + 4, e);
    assert EncodeNames([e]) == EncodeName(e) + [] == EncodeName(e);
    AtConcat(data, pos, U32(1), EncodeName(e));
  }

  function Empties(n: nat): (ls: seq<seq<uint32>>)
    ensures |ls| == n && ListsFit(ls)
  {
    seq(n, _ => [])
  }

  lemma {:induction false} EmptyLists(n: nat)
    ensures EncodeLists(Empties(n)) == Zeros(4 * n)
  {
    if n > 0 {
      EmptyLists(n - 1);
      assert Empties(n)[1..] == Empties(n - 1);
      assert EncodeList([]) == [0, 0, 0, 0];
      assert [0, 0, 0, 0] + Zeros(4 * (n - 1)) == Zeros(4 * n);
    }
  }

  lemma SpelledFits(unknown: uint32, a: Block, b: Block, c: Block, d: Block, others: seq<uint32>)
    requires a.Fits() && b.Fits() && c.Fits() && d.Fits() && |others| == 252
    ensures ImageFits(SpelledAllocator(unknown, a, b, c, d, others))
  {
    assert PaddedCount(4) == 256;
  }

  lemma SpelledAllocatorAt(
    data: seq<byte>, pos: nat, unknown: uint32, a: Block, b: Block, c: Block, d: Block, others: seq<uint32>)
    requires a.Fits() && b.Fits() && c.Fits() && d.Fits()
    requires |others| == 252
    ensures var img := SpelledAllocator(unknown, a, b, c, d, others);
      && ImageFits(img)
      && (AllocatorSpells(data, pos, unknown, a, b, c, d, others) <==> At(data, pos, EncodeAllocator(img)))
  {
    hide At, U32, EncodeLists, EncodeDirectory, EncodeAllocator, Words, Encodable, PaddedCount, Empties;
    NumbersSpelled();
    EmptyLists(32);
    SpelledFits(unknown, a, b, c, d, others);
    var img := SpelledAllocator(unknown, a, b, c, d, others);
    FourWords(data, pos + 8, a.Address(), b.Address(), c.Address(), d.Address(), others);
    DirectoryAt(data, pos + 1032, [0x44, 0x53, 0x44, 0x42]);
    AllocatorBytes(data, pos, img);
  }

  lemma SpelledHeaderBlockAt(data: seq<byte>, pos: nat, levels: uint32, records: uint32, nodes: uint32)
    ensures HeaderBlockSpells(data, pos, levels, records, nodes)
       <==> At(data, pos, EncodeHeaderBlock(HeaderBlockValue(1, levels, records, nodes, PAGE_SIZE)))
  {
    NumbersSpelled();
    hide At, U32, Words;
    FiveWords(data, pos, 1, levels, records, nodes, PAGE_SIZE);
  }

  function SpelledTree(r1: RecordValue, r2: RecordValue, r3: RecordValue): Tree {
    Inner(3, Next(2, Leaf([r1]), r2, Rightmost(Leaf([r3]))))
  }

  lemma SpelledTreeAt(data: seq<byte>, addrs: seq<uint32>, r1: RecordValue, r2: RecordValue, r3: RecordValue)
    requires |addrs| >= 4
    ensures TreeAt(data, addrs, 1, SpelledTree(r1, r2, r3))
       <==> && RootSpells(data, BlockStart(addrs[1]), r2) && LeafSpells(data, BlockStart(addrs[2]), r1)
            && LeafSpells(data, BlockStart(addrs[3]), r3)
  {
    hide At, U32, RecordAt, BlockStart, LeafSpells;
    NumbersSpelled();
    LeafAt(data, addrs, 2, r1);
    LeafAt(data, addrs, 3, r3);
    var pos := BlockStart(addrs[1]) + 8;
    var right := Rightmost(Leaf([r3]));
    var children := Next(2, Leaf([r1]), r2, right);
    assert Count(right) == 0 && Count(children) == 1;
    hide TreeAt;
    assert ChildrenAt(data, addrs, pos + 4 + RecordLength(r2), 3, right) <==> TreeAt(data, addrs, 3, Leaf([r3]));
    assert ChildrenAt(data, addrs, pos, 3, children)
      <==> && At(data, pos, U32(2)) && TreeAt(data, addrs, 2, Leaf([r1])) && RecordAt(data, pos + 4, r2)
           && TreeAt(data, addrs, 3, Leaf([r3]));
    InnerAt(data, addrs, 3, children);
  }

  lemma InnerAt(data: seq<byte>, addrs: seq<uint32>, last: uint32, children: Children)
    requires |addrs| >= 4 && last != 0
    ensures TreeAt(data, addrs, 1, Inner(last, children))
       <==> && NodeAt(data, BlockStart(addrs[1]), last, Count(children))
            && ChildrenAt(data, addrs, BlockStart(addrs[1]) + 8, last, children)
  {
    hide At, RecordAt, BlockStart, NodeAt;
  }

  lemma LeafAt(data: seq<byte>, addrs: seq<uint32>, block: uint32, r: RecordValue)
    requires block < |addrs|
    ensures TreeAt(data, addrs, block, Leaf([r])) <==> LeafSpells(data, BlockStart(addrs[block]), r)
  {
    NumbersSpelled();
    hide At, U32, RecordAt, BlockStart;
    assert [r][1..] == [];
    assert RecordsAt(data, BlockStart(addrs[block]) + 8, [r]) <==> RecordAt(data, BlockStart(addrs[block]) + 8, r);
  }

  lemma BlockStarts(b: Block, a: uint32)
    requires b.Fits() && a == b.Address()
    ensures BlockStart(a) == 4 + b.offset
  {
  }

  lemma SpelledInOrder(r1: RecordValue, r2: RecordValue, r3: RecordValue)
    ensures InOrder(SpelledTree(r1, r2, r3)) == [r1, r2, r3] && Height(SpelledTree(r1, r2, r3)) == 2
  {
    var right := Rightmost(Leaf([r3]));
    assert InOrderChildren(right) == [r3] && HeightChildren(right) == 1;
    assert Height(Leaf([r1])) == 1 && HeightChildren(Next(2, Leaf([r1]), r2, right)) == 1;
    assert InOrderChildren(Next(2, Leaf([r1]), r2, right)) == [r1] + ([r2] + [r3]) == [r1, r2, r3];
  }

  /** What is free in the file. */
  datatype Spelling = Spelling(
    offset: uint32, size: uint32, padding: seq<byte>, unknown: uint32,
    a: Block, b: Block, c: Block, d: Block, others: seq<uint32>,
    levels: uint32, records: uint32, nodes: uint32,
    r1: RecordValue, r2: RecordValue, r3: RecordValue)

  ghost predicate StoreSpells(data: seq<byte>, s: Spelling) {
    && s.a.Fits() && s.b.Fits() && s.c.Fits() && s.d.Fits()
    && HeaderSpells(data, s.offset, s.size, s.padding)
    && AllocatorSpells(data, 4 + s.offset, s.unknown, s.a, s.b, s.c, s.d, s.others)
    && HeaderBlockSpells(data, 4 + s.a.offset, s.levels, s.records, s.nodes)
    && RootSpells(data, 4 + s.b.offset, s.r2)
    && LeafSpells(data, 4 + s.c.offset, s.r1) && LeafSpells(data, 4 + s.d.offset, s.r3)
  }

  function SpelledImage(s: Spelling): StoreImage
    requires s.a.Fits() && s.b.Fits() && s.c.Fits() && s.d.Fits()
  {
    StoreImage(
      SpelledHeader(s.offset, s.size, s.padding),
      SpelledAllocator(s.unknown, s.a, s.b, s.c, s.d, s.others),
      HeaderBlockValue(1, s.levels, s.records, s.nodes, PAGE_SIZE),
      SpelledTree(s.r1, s.r2, s.r3))
  }

  /** The bytes spell a store exactly when they are the encoding of its image. */
  lemma SpelledIff(data: seq<byte>, s: Spelling)
    requires s.a.Fits() && s.b.Fits() && s.c.Fits() && s.d.Fits() && |s.others| == 252
    ensures StoreSpells(data, s) <==> SelfContained(data, SpelledImage(s), 0)
  {
    hide At, RecordAt, RootSpells, LeafSpells, HeaderSpells, AllocatorSpells, HeaderBlockSpells, EncodeHeaderBlock;
    hide EncodeAllocator, EncodeHeader, TreeAt, BlockStart, Acceptable, ImageFits, NamesTree, SpelledTree, PaddedCount;
    hide Encodable, Block.Fits, AllocatorAt, SpelledHeader;
    AllocatorSpelledIff(data, s);
    SpelledAddresses(s);
    SpelledHeaderBlockAt(data, 4 + s.a.offset, s.levels, s.records, s.nodes);
    SpelledTreeIff(data, SpelledImage(s).allocator.addresses, s);
    NameSpelled();
  }

  lemma AllocatorSpelledIff(data: seq<byte>, s: Spelling)
    requires s.a.Fits() && s.b.Fits() && s.c.Fits() && s.d.Fits() && |s.others| == 252
    ensures var image := SpelledImage(s);
      AllocatorAt(data, image.header, image.allocator)
      <==> && HeaderSpells(data, s.offset, s.size, s.padding)
           && AllocatorSpells(data, 4 + s.offset, s.unknown, s.a, s.b, s.c, s.d, s.others)
  {
    hide At, HeaderSpells, AllocatorSpells, EncodeAllocator, EncodeHeader, Acceptable, ImageFits, Block.Fits;
    hide SpelledAllocator, SpelledTree;
    SpelledHeaderAt(data, s.offset, s.size, s.padding);
    SpelledAllocatorAt(data, 4 + s.offset, s.unknown, s.a, s.b, s.c, s.d, s.others);
  }

  lemma SpelledAddresses(s: Spelling)
    requires s.a.Fits() && s.b.Fits() && s.c.Fits() && s.d.Fits()
    ensures var addrs := SpelledImage(s).allocator.addresses;
      && |addrs| == 4 + |s.others| && addrs[0] == s.a.Address() && addrs[1] == s.b.Address()
      && addrs[2] == s.c.Address() && addrs[3] == s.d.Address()
  {
    hide Block.Fits, Block.Address, SpelledTree;
  }

  lemma SpelledTreeIff(data: seq<byte>, addrs: seq<uint32>, s: Spelling)
    requires s.a.Fits() && s.b.Fits() && s.c.Fits() && s.d.Fits() && |addrs| >= 4
    requires addrs[0] == s.a.Address() && addrs[1] == s.b.Address()
    requires addrs[2] == s.c.Address() && addrs[3] == s.d.Address()
    ensures BlockStart(addrs[0]) == 4 + s.a.offset
    ensures TreeAt(data, addrs, 1, SpelledTree(s.r1, s.r2, s.r3))
       <==> && RootSpells(data, 4 + s.b.offset, s.r2) && LeafSpells(data, 4 + s.c.offset, s.r1)
            && LeafSpells(data, 4 + s.d.offset, s.r3)
  {
    hide RootSpells, LeafSpells, TreeAt, BlockStart, SpelledTree, Block.Fits, Block.Address;
    BlockStarts(s.a, addrs[0]);
    BlockStarts(s.b, addrs[1]);
    BlockStarts(s.c, addrs[2]);
    BlockStarts(s.d, addrs[3]);
    SpelledTreeAt(data, addrs, s.r1, s.r2, s.r3);
  }

  lemma NameSpelled()
    ensures NamesTree([NamedBlock([0x44, 0x53, 0x44, 0x42], 0)], 0)
  {
  }

  /**
    Opening and enumerating a file with these bytes: the left leaf's record comes first, then the root's, then
    the right leaf's.
   */
  lemma StoreSpelled(data: seq<byte>, s: Spelling, stale: AllocatorState)
    requires StoreSpells(data, s) && stale.Sized()
    ensures Enumerate(data, stale, 2) == Outcome(Done, [s.r1, s.r2, s.r3])
  {
    assert |s.others| == 252;
    hide StoreSpells, SelfContained, Enumerate;
    SpelledIff(data, s);
    SpelledInOrder(s.r1, s.r2, s.r3);
    EndToEnd(data, SpelledImage(s), 0, stale);
  }

  // ----- such a file -----

  predicate Short(r: RecordValue) { RecordFits(r) && RecordLength(r) < 0x1000_0000 }

  lemma LeafPlace(r: RecordValue, block: nat, offset: nat, bits: SizeBits)
    requires Storable(Leaf([r])) && Room(block, offset, 1, Size(Leaf([r])))
    ensures var p := Place(Leaf([r]), block, offset, bits);
      p.tree == Leaf([r]) && p.table == [Address(offset, bits[block])]
  {
  }

  lemma RightmostPlace(r: RecordValue, block: nat, offset: nat, bits: SizeBits)
    requires Storable(Leaf([r])) && Room(block, offset, 1, Size(Leaf([r])))
    ensures var right := Rightmost(Leaf([r]));
      && StorableChildren(right) && NodesBelow(right) == 1 && SizeBelow(right) == Size(Leaf([r]))
      && var p := PlaceChildren(right, block, offset, bits);
         p.children == right && p.last == block && p.table == [Address(offset, bits[block])]
  {
    hide Room, Size, Place, Storable;
    assert Nodes(Leaf([r])) == 1;
    LeafPlace(r, block, offset, bits);
  }

  lemma InnerPlace(t: Tree, block: nat, offset: nat, bits: SizeBits)
    requires t.Inner? && Storable(t) && Room(block, offset, Nodes(t), Size(t))
    ensures var below := offset + RoundUp(NodeLength(t));
      && StorableChildren(t.children) && Room(block + 1, below, NodesBelow(t.children), SizeBelow(t.children))
      && var p, q := Place(t, block, offset, bits), PlaceChildren(t.children, block + 1, below, bits);
         p.tree == Inner(q.last, q.children) && p.table == [Address(offset, bits[block])] + q.table
  {
    hide Room, RoundUp, NodeLength, Pad, EncodeNode, EncodeEntries, PlaceChildren, NodesBelow, SizeBelow;
    hide Nodes, Size, Count, StorableChildren;
    RoomBelow(t, block, offset);
  }

  lemma RightmostSizes(r: RecordValue)
    requires Storable(Leaf([r]))
    ensures var right := Rightmost(Leaf([r]));
      StorableChildren(right) && NodesBelow(right) == 1 && SizeBelow(right) == Size(Leaf([r]))
  {
    hide Size, Storable;
    LeafNodes(Leaf([r]));
  }

  /** There is room for the three nodes. */
  lemma SpelledRoom(r1: RecordValue, r2: RecordValue, r3: RecordValue)
    requires Short(r1) && Short(r2) && Short(r3)
    ensures var left, right := Leaf([r1]), Rightmost(Leaf([r3]));
      var children := Next(2, left, r2, right);
      && Storable(left) && Storable(right.child) && StorableChildren(children) && NodesBelow(children) == 2
      && Serializable(Inner(3, children)) && Nodes(Inner(3, children)) == 3 && Size(left) > 0
      && 64 + RoundUp(NodeLength(Inner(3, children))) + Size(left) + Size(right.child) < OFFSET_LIMIT
      && Room(3, 64 + RoundUp(NodeLength(Inner(3, children))) + Size(left), 1, Size(right.child))
      && Aligned(64 + RoundUp(NodeLength(Inner(3, children)))) && RoundUp(NodeLength(Inner(3, children))) > 0
      && Aligned(64 + RoundUp(NodeLength(Inner(3, children))) + Size(left))
  {
    var left, right := Leaf([r1]), Rightmost(Leaf([r3]));
    var children := Next(2, left, r2, right);
    OneRecord(r1);
    OneRecord(r3);
    RightmostSizes(r3);
    hide RecordLength, RecordFits, AllFit, Aligned;
    assert EntriesLength(right) == 0 && EntriesLength(children) == 4 + RecordLength(r2);
    assert SizeBelow(children) == Size(left) + Size(right.child) && NodesBelow(children) == 2;
    assert Aligned(64);
    AlignedSum(64, RoundUp(NodeLength(Inner(3, children))));
    AlignedSum(64 + RoundUp(NodeLength(Inner(3, children))), Size(left));
  }

  /** The root, the left leaf and the right leaf, one behind the other. */
  lemma SpelledPlaces(r1: RecordValue, r2: RecordValue, r3: RecordValue, bits: SizeBits) returns (c: nat, d: nat)
    requires Short(r1) && Short(r2) && Short(r3)
    ensures var t := SpelledTree(r1, r2, r3);
      && Serializable(t) && Nodes(t) == 3 && 64 < c < d < 0x1_0000_0000 && Aligned(c) && Aligned(d)
      && Place(t, 1, 64, bits).tree == t
      && Place(t, 1, 64, bits).table == [Address(64, bits[1]), Address(c, bits[2]), Address(d, bits[3])]
  {
    var left, right := Leaf([r1]), Rightmost(Leaf([r3]));
    var children := Next(2, left, r2, right);
    var t := Inner(3, children);
    SpelledRoom(r1, r2, r3);
    hide Place, PlaceChildren, Storable, StorableChildren, NodesBelow, SizeBelow, Aligned, RoundUp, RecordFits, Size;
    hide NodeLength, Nodes, Room, EntriesLength, Count, RecordLength;
    c := 64 + RoundUp(NodeLength(t));
    d := c + Size(left);
    InnerPlace(t, 1, 64, bits);
    LeavesPlaces(r1, r2, r3, c, bits);
  }

  lemma LeavesPlaces(r1: RecordValue, r2: RecordValue, r3: RecordValue, c: nat, bits: SizeBits)
    requires Storable(Leaf([r1])) && Storable(Leaf([r3]))
    requires var children, d := Next(2, Leaf([r1]), r2, Rightmost(Leaf([r3]))), c + Size(Leaf([r1]));
      && StorableChildren(children) && Room(2, c, NodesBelow(children), SizeBelow(children)) && Aligned(c) && Aligned(d)
      && Room(3, d, 1, Size(Leaf([r3])))
    ensures var children, d := Next(2, Leaf([r1]), r2, Rightmost(Leaf([r3]))), c + Size(Leaf([r1]));
      d < OFFSET_LIMIT && c < OFFSET_LIMIT && var p := PlaceChildren(children, 2, c, bits);
      p.children == children && p.last == 3 && p.table == [Address(c, bits[2]), Address(d, bits[3])]
  {
    hide Place, PlaceChildren, Storable, StorableChildren, NodesBelow, SizeBelow, Aligned, RecordFits, Size, Nodes;
    var d := c + Size(Leaf([r1]));
    assert c < OFFSET_LIMIT && d < OFFSET_LIMIT;
    hide Room;
    var p, q := NextPlaced(Next(2, Leaf([r1]), r2, Rightmost(Leaf([r3]))), 2, c, bits);
    LeafNodes(Leaf([r1]));
    LeafPlace(r1, 2, c, bits);
    RightmostPlace(r3, 3, d, bits);
  }

  lemma LeafNodes(t: Tree)
    requires t.Leaf?
    ensures Nodes(t) == 1
  {
  }

  lemma OneRecord(r: RecordValue)
    requires Short(r)
    ensures Storable(Leaf([r])) && NodeLength(Leaf([r])) == 8 + RecordLength(r)
  {
    assert [r][1..] == [];
    assert RecordsLength([r]) == RecordLength(r) + RecordsLength([]);
  }

  function SpellingFor(
    size: nat, c: nat, d: nat, bits: SizeBits, r1: RecordValue, r2: RecordValue, r3: RecordValue): (s: Spelling)
    requires TREE_OFFSET + size < OFFSET_LIMIT && 64 < c < d < OFFSET_LIMIT && Aligned(c) && Aligned(d)
    ensures s.a.Fits() && s.b.Fits() && s.c.Fits() && s.d.Fits() && |s.others| == 252
  {
    Spelling(
      TREE_OFFSET + size, 0, Zeros(16), 0,
      Block(32, bits[0]), Block(64, bits[1]), Block(c, bits[2]), Block(d, bits[3]), seq(252, _ => 0),
      0, 0, 0, r1, r2, r3)
  }

  lemma SpelledTable(t: Tree, bits: SizeBits, s: Spelling)
    requires Serializable(t) && Nodes(t) == 3 && s.a.Fits() && s.b.Fits() && s.c.Fits() && s.d.Fits()
    requires s.a.Address() == bits[0] as int + 32 && s.others == seq(252, _ => 0)
    requires Place(t, 1, TREE_OFFSET, bits).table == [s.b.Address(), s.c.Address(), s.d.Address()]
    ensures TableFor(t, bits) == [s.a.Address(), s.b.Address(), s.c.Address(), s.d.Address()] + s.others
  {
    hide Place, Storable, Room, Size, Nodes;
    assert PaddedCount(4) == 256;
  }

  lemma SpelledImageFor(t: Tree, bits: SizeBits, c: nat, d: nat, r1: RecordValue, r2: RecordValue, r3: RecordValue)
    requires Serializable(t) && Nodes(t) == 3 && t == SpelledTree(r1, r2, r3)
    requires 64 < c < d < OFFSET_LIMIT && Aligned(c) && Aligned(d) && Place(t, 1, 64, bits).tree == t
    requires Place(t, 1, 64, bits).table == [Address(64, bits[1]), Address(c, bits[2]), Address(d, bits[3])]
    ensures ImageFor(t, bits) == SpelledImage(SpellingFor(Size(t), c, d, bits, r1, r2, r3))
  {
    hide Place, Storable, Nodes, TableFor, SpelledTree, Aligned;
    SpelledTable(t, bits, SpellingFor(Size(t), c, d, bits, r1, r2, r3));
  }

  /** For all short records and all block sizes the serializer writes such a file. */
  lemma SerializedSpells(r1: RecordValue, r2: RecordValue, r3: RecordValue, bits: SizeBits) returns (s: Spelling)
    requires Short(r1) && Short(r2) && Short(r3)
    ensures Serializable(SpelledTree(r1, r2, r3)) && s.r1 == r1 && s.r2 == r2 && s.r3 == r3
    ensures StoreSpells(Serialize(SpelledTree(r1, r2, r3), bits), s)
  {
    var t := SpelledTree(r1, r2, r3);
    var c, d := SpelledPlaces(r1, r2, r3, bits);
    SpelledImageFor(t, bits, c, d, r1, r2, r3);
    s := SpellingFor(Size(t), c, d, bits, r1, r2, r3);
    hide SpellingFor, SpelledImage, ImageFor, Serialize, SelfContained, StoreSpells, Place, Short, SpelledTree;
    SerializeStores(t, bits);
    SpelledIff(Serialize(t, bits), s);
  }
}
