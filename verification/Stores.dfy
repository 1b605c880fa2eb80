/** Opening a store, and what its file must hold for opening and enumerating it to succeed. */
module Stores {
  import opened Bytes
  import opened Records
  import opened Trees
  import opened Walks
  import opened Allocators
  import opened AllocatorStates
  import opened Headers
  import opened Divergence

  const DSDB: seq<byte> := [0x44, 0x53, 0x44, 0x42]
  const NO_BLOCK: uint32 := 0xFFFF_FFFF

  datatype OpenResult =
    | Opened(header: HeaderValue, allocator: AllocatorState, headerBlock: HeaderBlockValue)
    | Rejected
    | Overran

  /** The first of the directory's entries, from `i` on, whose name buffer starts with DSDB. */
  function FindFrom(es: seq<DirectoryEntry>, count: nat, i: nat): (block: uint32)
    requires i <= count <= |es|
    decreases count - i
  {
    if i == count then NO_BLOCK
    else if es[i].bytes[..4] == DSDB then es[i].blockNumber
    else FindFrom(es, count, i + 1)
  }

  /** The header block's number as the directory in memory gives it, or NO_BLOCK. */
  function HeaderBlockNumber(s: AllocatorState): uint32
    requires s.Writable()
  {
    FindFrom(s.directory, s.directoryCount, 0)
  }

  /** Opening the file at `pos`, into memory that held `stale` before. */
  function OpenStore(data: seq<byte>, pos: nat, stale: AllocatorState): OpenResult
    requires stale.Sized()
  {
    match DecodeHeader(data, pos)
    case None => Rejected
    case Some((h, _)) =>
      match DecodeAllocator(data, 4 + h.allocatorOffset)
      case Short => Rejected
      case Overrun => Overran
      case Parsed(img, _) =>
        DecodeAllocatorSound(data, 4 + h.allocatorOffset);
        OpenTree(data, h, Load(stale, img))
  }

  function OpenTree(data: seq<byte>, h: HeaderValue, s: AllocatorState): OpenResult
    requires s.Writable() && s.blockCount <= TABLE_CAPACITY
  {
    var block := HeaderBlockNumber(s);
    if block == NO_BLOCK || block >= s.blockCount then Rejected
    else
      match DecodeHeaderBlock(data, BlockStart(s.addresses[block]))
      case None => Rejected
      case Some(hb) => Opened(h, s, hb)
  }

  function LoadedOf(s: AllocatorState, hb: HeaderBlockValue): Loaded {
    Loaded(s.addresses, s.blockCount, hb.root)
  }

  /** Opening a file from its beginning and enumerating all its records. */
  function Enumerate(data: seq<byte>, stale: AllocatorState, depth: nat): Outcome
    requires stale.Sized()
  {
    match OpenStore(data, 0, stale)
    case Rejected => Outcome(Failed, [])
    case Overran => Outcome(OutOfBounds, [])
    case Opened(_, s, hb) => WalkBlock(data, LoadedOf(s, hb), hb.root, depth)
  }

  // ----- the bytes of a store -----

  datatype StoreImage = StoreImage(
    header: HeaderValue, allocator: AllocatorImage, headerBlock: HeaderBlockValue, tree: Tree)

  /** Header and allocator stand where they belong. */
  ghost predicate AllocatorAt(data: seq<byte>, h: HeaderValue, img: AllocatorImage) {
    && Acceptable(h) && At(data, 0, EncodeHeader(h))
    && ImageFits(img) && At(data, 4 + h.allocatorOffset, EncodeAllocator(img))
  }

  /** The directory of `s` names a block in range, which holds the header block of a tree. */
  ghost predicate TreeStoredAt(data: seq<byte>, s: AllocatorState, hb: HeaderBlockValue, t: Tree)
    requires s.Writable() && s.blockCount <= TABLE_CAPACITY
  {
    && HeaderBlockNumber(s) < s.blockCount
    && At(data, BlockStart(s.addresses[HeaderBlockNumber(s)]), EncodeHeaderBlock(hb)) && hb.pageSize == PAGE_SIZE
    && hb.root < s.blockCount && TreeAt(data, s.addresses, hb.root, t)
  }

  ghost predicate StoreAt(data: seq<byte>, stale: AllocatorState, image: StoreImage)
    requires stale.Sized()
  {
    AllocatorAt(data, image.header, image.allocator)
    && TreeStoredAt(data, Load(stale, image.allocator), image.headerBlock, image.tree)
  }

  // ----- opening accepts exactly the stores -----

  lemma OpenTreeIff(data: seq<byte>, h: HeaderValue, s: AllocatorState, hb: HeaderBlockValue)
    requires s.Writable() && s.blockCount <= TABLE_CAPACITY
    ensures OpenTree(data, h, s) == Opened(h, s, hb)
       <==> && HeaderBlockNumber(s) < s.blockCount && hb.pageSize == PAGE_SIZE
            && At(data, BlockStart(s.addresses[HeaderBlockNumber(s)]), EncodeHeaderBlock(hb))
  {
    hide DecodeHeaderBlock, EncodeHeaderBlock, At, HeaderBlockNumber, BlockStart;
    if HeaderBlockNumber(s) < s.blockCount {
      DecodeHeaderBlockIff(data, BlockStart(s.addresses[HeaderBlockNumber(s)]), hb);
    }
  }

  lemma OpenStoreAllocator(data: seq<byte>, stale: AllocatorState, h: HeaderValue, img: AllocatorImage)
    requires stale.Sized() && AllocatorAt(data, h, img)
    ensures OpenStore(data, 0, stale) == OpenTree(data, h, Load(stale, img))
  {
    hide DecodeHeader, DecodeAllocator, OpenTree, Encodable, Load, At, EncodeAllocator, EncodeHeader, Acceptable;
    DecodeHeaderIff(data, 0, h, HEADER_SIZE);
    DecodeAllocatorIff(data, 4 + h.allocatorOffset, img, 4 + h.allocatorOffset + |EncodeAllocator(img)|);
  }

  lemma OpenedAllocator(data: seq<byte>, stale: AllocatorState) returns (h: HeaderValue, img: AllocatorImage)
    requires stale.Sized() && OpenStore(data, 0, stale).Opened?
    ensures AllocatorAt(data, h, img)
  {
    hide DecodeHeader, DecodeAllocator, OpenTree, Encodable, Load, At, EncodeAllocator, EncodeHeader, Acceptable;
    h := DecodeHeader(data, 0).value.0;
    DecodeHeaderIff(data, 0, h, DecodeHeader(data, 0).value.1);
    img := DecodeAllocator(data, 4 + h.allocatorOffset).value;
    DecodeAllocatorSound(data, 4 + h.allocatorOffset);
  }

  lemma LoadCounts(stale: AllocatorState, img: AllocatorImage)
    requires stale.Sized() && ImageFits(img)
    ensures Load(stale, img).Writable() && Load(stale, img).blockCount == img.blockCount <= TABLE_CAPACITY
  {
    LoadWritable(stale, img);
  }

  lemma EnumerateOpened(data: seq<byte>, stale: AllocatorState, h: HeaderValue, img: AllocatorImage, depth: nat)
    requires stale.Sized() && AllocatorAt(data, h, img)
    ensures var s := Load(stale, img);
      s.Writable() && s.blockCount <= TABLE_CAPACITY
      && var result := OpenTree(data, h, s);
         Enumerate(data, stale, depth) ==
           if result.Opened? then WalkBlock(data, LoadedOf(s, result.headerBlock), result.headerBlock.root, depth)
           else Outcome(Failed, [])
  {
    hide OpenStore, Load, WalkBlock, DecodeHeaderBlock, At, Encodable, Acceptable, HeaderBlockNumber;
    LoadCounts(stale, img);
    OpenStoreAllocator(data, stale, h, img);
  }

  lemma EnumerateStored(data: seq<byte>, stale: AllocatorState, image: StoreImage, depth: nat)
    requires stale.Sized() && StoreAt(data, stale, image) && Height(image.tree) <= depth
    ensures Enumerate(data, stale, depth) == Outcome(Done, InOrder(image.tree))
  {
    hide Enumerate, OpenTree, WalkBlock, Load, TreeAt, At, HeaderBlockNumber, BlockStart, Encodable, Acceptable;
    var s := Load(stale, image.allocator);
    EnumerateOpened(data, stale, image.header, image.allocator, depth);
    OpenTreeIff(data, image.header, s, image.headerBlock);
    WalkBlockComplete(data, LoadedOf(s, image.headerBlock), image.headerBlock.root, image.tree, depth);
  }

  lemma StoredWhenEnumerated(data: seq<byte>, stale: AllocatorState, depth: nat) returns (image: StoreImage)
    requires stale.Sized() && Enumerate(data, stale, depth).status.Done?
    ensures StoreAt(data, stale, image) && Height(image.tree) <= depth
    ensures InOrder(image.tree) == Enumerate(data, stale, depth).trace
  {
    var h, img := OpenedAllocator(data, stale);
    hide Enumerate, OpenTree, WalkBlock, Load, TreeAt, At, HeaderBlockNumber, BlockStart, Encodable, Acceptable;
    EnumerateOpened(data, stale, h, img, depth);
    var s := Load(stale, img);
    var hb := OpenTree(data, h, s).headerBlock;
    OpenTreeOpened(data, h, s);
    OpenTreeIff(data, h, s, hb);
    var t := WalkBlockSound(data, LoadedOf(s, hb), hb.root, depth);
    RootInRange(data, LoadedOf(s, hb), hb.root, depth);
    image := StoreImage(h, img, hb, t);
  }

  lemma OpenTreeOpened(data: seq<byte>, h: HeaderValue, s: AllocatorState)
    requires s.Writable() && s.blockCount <= TABLE_CAPACITY && OpenTree(data, h, s).Opened?
    ensures OpenTree(data, h, s) == Opened(h, s, OpenTree(data, h, s).headerBlock)
  {
  }

  lemma RootInRange(data: seq<byte>, s: Loaded, block: uint32, depth: nat)
    requires WalkBlock(data, s, block, depth).status.Done?
    ensures s.root < s.blockCount
  {
  }

  /**
    Opening a file and enumerating its records succeeds exactly when the file is the image of a store that
    holds a tree, and then reports exactly that tree's records in order.
   */
  lemma EnumerateIff(data: seq<byte>, stale: AllocatorState, depth: nat, trace: seq<RecordValue>)
    requires stale.Sized()
    ensures Enumerate(data, stale, depth) == Outcome(Done, trace)
       <==> exists image :: StoreAt(data, stale, image) && Height(image.tree) <= depth && InOrder(image.tree) == trace
  {
    hide Enumerate, StoreAt;
    if Enumerate(data, stale, depth) == Outcome(Done, trace) {
      var image := StoredWhenEnumerated(data, stale, depth);
    }
    if exists image :: StoreAt(data, stale, image) && Height(image.tree) <= depth && InOrder(image.tree) == trace {
      var image :| StoreAt(data, stale, image) && Height(image.tree) <= depth && InOrder(image.tree) == trace;
      EnumerateStored(data, stale, image, depth);
    }
  }

  lemma OpenedSized(data: seq<byte>, pos: nat, stale: AllocatorState)
    requires stale.Sized() && OpenStore(data, pos, stale).Opened?
    ensures OpenStore(data, pos, stale).allocator.Sized()
  {
    hide DecodeHeader, DecodeAllocator, DecodeHeaderBlock, HeaderBlockNumber, BlockStart, LoadEntries, LoadLists;
    hide Encodable;
    var h := DecodeHeader(data, pos).value.0;
    DecodeAllocatorSound(data, 4 + h.allocatorOffset);
  }

  /** The same without a bound on the tree: none that is stored is higher than the table is long. */
  lemma EnumerateStoresIff(data: seq<byte>, stale: AllocatorState, trace: seq<RecordValue>)
    requires stale.Sized()
    ensures Enumerate(data, stale, TABLE_CAPACITY) == Outcome(Done, trace)
       <==> exists image :: StoreAt(data, stale, image) && InOrder(image.tree) == trace
  {
    hide Enumerate, StoreAt;
    if Enumerate(data, stale, TABLE_CAPACITY) == Outcome(Done, trace) {
      var image := StoredWhenEnumerated(data, stale, TABLE_CAPACITY);
    }
    if exists image :: StoreAt(data, stale, image) && InOrder(image.tree) == trace {
      var image :| StoreAt(data, stale, image) && InOrder(image.tree) == trace;
      StoredHeight(data, stale, image);
      EnumerateStored(data, stale, image, TABLE_CAPACITY);
    }
  }

  lemma StoredHeight(data: seq<byte>, stale: AllocatorState, image: StoreImage)
    requires stale.Sized() && StoreAt(data, stale, image)
    ensures Height(image.tree) <= TABLE_CAPACITY
  {
    hide TreeAt, At, HeaderBlockNumber, BlockStart, Encodable, Acceptable, LoadEntries, LoadLists;
    var s := Load(stale, image.allocator);
    StoredTreeEnds(data, LoadedOf(s, image.headerBlock), image.headerBlock.root, image.tree);
  }

  /** The program survives opening the file and enumerating it: no buffer is left, and no block re-entered. */
  ghost predicate Enumerable(data: seq<byte>, stale: AllocatorState)
    requires stale.Sized()
  {
    match OpenStore(data, 0, stale)
    case Rejected => true
    case Overran => false
    case Opened(_, s, hb) => !Escapes(data, LoadedOf(s, hb), hb.root) && !Reenters(data, LoadedOf(s, hb), hb.root)
  }

  lemma EnumerableIff(data: seq<byte>, stale: AllocatorState)
    requires stale.Sized()
    ensures Survives(Enumerate(data, stale, TABLE_CAPACITY)) <==> Enumerable(data, stale)
  {
    hide OpenStore, WalkBlock, Escapes, Reenters;
    var r := OpenStore(data, 0, stale);
    if r.Opened? {
      OpenedSized(data, 0, stale);
      SurvivesIff(data, LoadedOf(r.allocator, r.headerBlock), r.headerBlock.root);
    }
  }

  // ----- stores that do not depend on what memory held before -----

  /** The name is long enough to be DSDB, or differs from it where it is long enough to tell. */
  predicate Decided(name: seq<byte>) {
    |name| >= 4 || exists i :: 0 <= i < |name| && name[i] != DSDB[i]
  }

  /** Entry `k` of the directory is the DSDB entry, and no entry before it can be taken for one. */
  ghost predicate NamesTree(names: seq<NamedBlock>, k: nat) {
    k < |names| && |names[k].name| >= 4 && names[k].name[..4] == DSDB
    && forall j :: 0 <= j < k ==> Decided(names[j].name) && (|names[j].name| >= 4 ==> names[j].name[..4] != DSDB)
  }

  lemma {:induction false} FindNamed(es: seq<DirectoryEntry>, names: seq<NamedBlock>, k: nat, i: nat)
    requires |names| <= |es| && NamesFit(names) && NamesTree(names, k) && i <= k
    ensures FindFrom(LoadEntries(es, names), |names|, i) == names[k].block
    decreases k - i
  {
    var loaded := LoadEntries(es, names);
    BufferStart(es[i], names[i]);
    if i < k {
      FindNamed(es, names, k, i + 1);
    }
  }

  lemma BufferStart(e: DirectoryEntry, read: NamedBlock)
    requires |read.name| < 256 && Decided(read.name)
    ensures LoadEntry(e, read).bytes[..4] == DSDB <==> |read.name| >= 4 && read.name[..4] == DSDB
  {
    var bytes := LoadEntry(e, read).bytes;
    assert forall i :: 0 <= i < |read.name| ==> bytes[i] == read.name[i];
    if |read.name| >= 4 {
      assert bytes[..4] == read.name[..4];
    } else {
      var i :| 0 <= i < |read.name| && read.name[i] != DSDB[i];
      assert bytes[..4][i] != DSDB[i];
    }
  }

  // ----- stores without a DSDB entry -----

  /** Entry `k` of the directory in memory is the first whose name buffer starts with the four bytes of "DSDB". */
  predicate FirstDsdb(s: AllocatorState, k: nat)
    requires s.Writable()
  {
    && k < s.directoryCount && s.directory[k].bytes[..4] == [0x44, 0x53, 0x44, 0x42]
    && forall j :: 0 <= j < k ==> s.directory[j].bytes[..4] != [0x44, 0x53, 0x44, 0x42]
  }

  predicate NoDsdb(s: AllocatorState)
    requires s.Writable()
  {
    forall j :: 0 <= j < s.directoryCount ==> s.directory[j].bytes[..4] != [0x44, 0x53, 0x44, 0x42]
  }

  /** The directory is searched from its beginning, and to its end. */
  lemma FindFromFirst(s: AllocatorState)
    requires s.Writable()
    ensures || (exists k: nat :: FirstDsdb(s, k) && HeaderBlockNumber(s) == s.directory[k].blockNumber)
            || (NoDsdb(s) && HeaderBlockNumber(s) == 0xFFFF_FFFF)
  {
    FindFromRest(s, 0);
  }

  lemma {:induction false} FindFromRest(s: AllocatorState, i: nat)
    requires s.Writable() && i <= s.directoryCount
    requires forall j :: 0 <= j < i ==> s.directory[j].bytes[..4] != DSDB
    ensures var number := FindFrom(s.directory, s.directoryCount, i);
      || (exists k: nat :: FirstDsdb(s, k) && number == s.directory[k].blockNumber)
      || (NoDsdb(s) && number == 0xFFFF_FFFF)
    decreases s.directoryCount - i
  {
    if i < s.directoryCount {
      if s.directory[i].bytes[..4] == DSDB {
        assert FirstDsdb(s, i);
      } else {
        FindFromRest(s, i + 1);
      }
    }
  }

  /** One of the first four bytes of the name is there and is not the one "DSDB" has. */
  predicate Foreign(name: seq<byte>) {
    exists i :: 0 <= i < |name| && i < 4 && name[i] != [0x44, 0x53, 0x44, 0x42][i]
  }

  /** Without a DSDB entry the store is not opened, whatever memory held; this includes an empty directory. */
  lemma NoDsdbRejected(data: seq<byte>, h: HeaderValue, img: AllocatorImage, stale: AllocatorState, depth: nat)
    requires stale.Sized() && AllocatorAt(data, h, img)
    requires forall j :: 0 <= j < |img.directory| ==> Foreign(img.directory[j].name)
    ensures OpenStore(data, 0, stale) == Rejected && Enumerate(data, stale, depth) == Outcome(Failed, [])
  {
    hide Load, HeaderBlockNumber, OpenStore, WalkBlock, DecodeHeaderBlock, At, Encodable, Acceptable, FirstDsdb, NoDsdb;
    NoDsdbLoaded(img, stale);
    FindFromFirst(Load(stale, img));
    OpenStoreAllocator(data, stale, h, img);
  }

  lemma NoDsdbLoaded(img: AllocatorImage, stale: AllocatorState)
    requires stale.Sized() && ImageFits(img)
    requires forall j :: 0 <= j < |img.directory| ==> Foreign(img.directory[j].name)
    ensures var s := Load(stale, img);
      s.Writable() && s.blockCount <= TABLE_CAPACITY && NoDsdb(s) && forall k: nat :: !FirstDsdb(s, k)
  {
    LoadCounts(stale, img);
    hide Foreign, LoadLists, Fill;
    var s := Load(stale, img);
    forall j | 0 <= j < s.directoryCount
      ensures s.directory[j].bytes[..4] != [0x44, 0x53, 0x44, 0x42]
    {
      ForeignLoaded(stale.directory[j], img.directory[j]);
    }
  }

  lemma ForeignLoaded(e: DirectoryEntry, read: NamedBlock)
    requires |read.name| < 256 && Foreign(read.name)
    ensures LoadEntry(e, read).bytes[..4] != [0x44, 0x53, 0x44, 0x42]
  {
    var bytes := LoadEntry(e, read).bytes;
    var i :| 0 <= i < |read.name| && i < 4 && read.name[i] != [0x44, 0x53, 0x44, 0x42][i];
    assert bytes[..4][i] == bytes[..|read.name|][i] == read.name[i];
  }

  // ----- stores that lie in their file only -----

  /** A store laid out in a file with its own table only. */
  ghost predicate SelfContained(data: seq<byte>, image: StoreImage, k: nat) {
    var img, hb := image.allocator, image.headerBlock;
    && AllocatorAt(data, image.header, img) && NamesTree(img.directory, k)
    && img.directory[k].block < img.blockCount
    && At(data, BlockStart(img.addresses[img.directory[k].block]), EncodeHeaderBlock(hb)) && hb.pageSize == PAGE_SIZE
    && hb.root < img.blockCount && TreeAt(data, img.addresses, hb.root, image.tree)
  }

  lemma {:induction false} TreeInLargerTable(
    data: seq<byte>, addrs: seq<uint32>, more: seq<uint32>, block: uint32, t: Tree)
    requires addrs <= more && TreeAt(data, addrs, block, t)
    ensures TreeAt(data, more, block, t)
    decreases t
  {
    hide At, RecordAt, BlockStart;
    if t.Inner? {
      ChildrenInLargerTable(data, addrs, more, BlockStart(addrs[block]) + 8, t.lastBlock, t.children);
    }
  }

  lemma {:induction false} ChildrenInLargerTable(
    data: seq<byte>, addrs: seq<uint32>, more: seq<uint32>, pos: nat, last: uint32, cs: Children)
    requires addrs <= more && ChildrenAt(data, addrs, pos, last, cs)
    ensures ChildrenAt(data, more, pos, last, cs)
    decreases cs
  {
    hide At, RecordAt;
    match cs
    case Rightmost(child) => TreeInLargerTable(data, addrs, more, last, child);
    case Next(block, child, record, rest) =>
      TreeInLargerTable(data, addrs, more, block, child);
      ChildrenInLargerTable(data, addrs, more, pos + 4 + RecordLength(record), last, rest);
  }

  /** End to end: a tree laid out in a store is enumerated in order, whatever memory held before. */
  lemma EndToEnd(data: seq<byte>, image: StoreImage, k: nat, stale: AllocatorState)
    requires SelfContained(data, image, k) && stale.Sized()
    ensures Enumerate(data, stale, Height(image.tree)) == Outcome(Done, InOrder(image.tree))
  {
    var img := image.allocator;
    var s := Load(stale, img);
    LoadWritable(stale, img);
    assert HeaderBlockNumber(s) == img.directory[k].block by {
      FindNamed(stale.directory, img.directory, k, 0);
    }
    hide At, TreeAt, HeaderBlockNumber, NamesTree, BlockStart, Enumerate;
    assert img.addresses <= s.addresses;
    TreeInLargerTable(data, img.addresses, s.addresses, image.headerBlock.root, image.tree);
    assert StoreAt(data, stale, image);
    EnumerateStored(data, stale, image, Height(image.tree));
  }
}
