/**
  The allocator in memory: buffers of fixed capacity, of which reading fills only the beginning. What was
  in a buffer before stays behind what was read.
 */
module AllocatorStates {
  import opened Bytes
  import opened Allocators

  datatype EntryBuffer = EntryBuffer(count: byte, bytes: seq<byte>, blockNumber: uint32)
  type DirectoryEntry = e: EntryBuffer | |e.bytes| == 255 witness EntryBuffer(0, seq(255, i => 0), 0)

  datatype ListBuffer = ListBuffer(count: uint32, offsets: seq<uint32>)
  type FreeList = l: ListBuffer | |l.offsets| == FREE_LIST_CAPACITY
    witness ListBuffer(0, seq(FREE_LIST_CAPACITY, i => 0))

  /** All of an allocator's memory as one value. */
  datatype AllocatorState = AllocatorState(
    blockCount: uint32, unknown: uint32, addresses: seq<uint32>,
    directoryCount: uint32, directory: seq<DirectoryEntry>, freeLists: seq<FreeList>)
  {
    predicate Sized() {
      |addresses| == TABLE_CAPACITY && |directory| == DIRECTORY_CAPACITY && |freeLists| == FREE_LISTS
    }

    /** No count exceeds its buffer, so the writer stays inside it. */
    predicate Writable() {
      Sized() && directoryCount <= DIRECTORY_CAPACITY
      && forall i :: 0 <= i < FREE_LISTS ==> freeLists[i].count <= FREE_LIST_CAPACITY
    }
  }

  // ----- what reading leaves in memory -----

  function Fill<T>(buffer: seq<T>, read: seq<T>): (s: seq<T>)
    requires |read| <= |buffer|
    ensures |s| == |buffer| && s[..|read|] == read && s[|read|..] == buffer[|read|..]
  {
    read + buffer[|read|..]
  }

  function LoadEntry(e: DirectoryEntry, read: NamedBlock): DirectoryEntry
    requires |read.name| < 256
  {
    EntryBuffer(|read.name|, Fill(e.bytes, read.name), read.block)
  }

  function LoadList(l: FreeList, read: seq<uint32>): FreeList
    requires |read| <= FREE_LIST_CAPACITY
  {
    ListBuffer(|read|, Fill(l.offsets, read))
  }

  function LoadEntries(es: seq<DirectoryEntry>, read: seq<NamedBlock>): (s: seq<DirectoryEntry>)
    requires |read| <= |es| && NamesFit(read)
    ensures |s| == |es|
  {
    seq(|es|, i requires 0 <= i < |es| => if i < |read| then LoadEntry(es[i], read[i]) else es[i])
  }

  function LoadLists(ls: seq<FreeList>, read: seq<seq<uint32>>): (s: seq<FreeList>)
    requires |read| <= |ls| && ListsFit(read)
    ensures |s| == |ls|
  {
    seq(|ls|, i requires 0 <= i < |ls| => if i < |read| then LoadList(ls[i], read[i]) else ls[i])
  }

  function Load(s: AllocatorState, img: AllocatorImage): AllocatorState
    requires s.Sized() && ImageFits(img)
  {
    AllocatorState(
      img.blockCount, img.unknown, Fill(s.addresses, img.addresses),
      |img.directory|, LoadEntries(s.directory, img.directory), LoadLists(s.freeLists, img.freeLists))
  }

  // ----- what writing takes from memory: always the first 256 addresses -----

  const WRITTEN_ADDRESSES := 256

  function EntryImage(e: DirectoryEntry): NamedBlock {
    NamedBlock(e.bytes[..e.count], e.blockNumber)
  }

  function ListImage(l: FreeList): seq<uint32>
    requires l.count <= FREE_LIST_CAPACITY
  {
    l.offsets[..l.count]
  }

  function EntryImages(es: seq<DirectoryEntry>): (s: seq<NamedBlock>)
    ensures |s| == |es| && NamesFit(s)
    ensures forall i :: 0 <= i < |s| ==> s[i] == EntryImage(es[i])
  {
    seq(|es|, i requires 0 <= i < |es| => EntryImage(es[i]))
  }

  function ListImages(ls: seq<FreeList>): (s: seq<seq<uint32>>)
    requires forall i :: 0 <= i < |ls| ==> ls[i].count <= FREE_LIST_CAPACITY
    ensures |s| == |ls| && ListsFit(s)
    ensures forall i :: 0 <= i < |s| ==> s[i] == ListImage(ls[i])
  {
    seq(|ls|, i requires 0 <= i < |ls| => ListImage(ls[i]))
  }

  function Image(s: AllocatorState): (img: AllocatorImage)
    requires s.Writable()
    ensures Encodable(img) && |img.addresses| == WRITTEN_ADDRESSES
  {
    AllocatorImage(
      s.blockCount, s.unknown, s.addresses[..WRITTEN_ADDRESSES],
      EntryImages(s.directory[..s.directoryCount]), ListImages(s.freeLists))
  }

  // ----- reading and writing against each other -----

  /** The block counts for which the reader expects as many addresses as the writer writes. */
  predicate RoundTrips(blockCount: uint32) { 1 <= blockCount <= 256 }

  lemma RoundTripsIffPadded(blockCount: uint32)
    ensures RoundTrips(blockCount) <==> PaddedCount(blockCount) == WRITTEN_ADDRESSES
  {
  }

  lemma LoadWritable(s: AllocatorState, img: AllocatorImage)
    requires s.Sized() && ImageFits(img)
    ensures Load(s, img).Writable()
  {
  }

  lemma EntryImageInverse(e: DirectoryEntry, read: NamedBlock)
    requires |read.name| < 256
    ensures EntryImage(LoadEntry(e, read)) == read
  {
  }

  lemma ListImageInverse(l: FreeList, read: seq<uint32>)
    requires |read| <= FREE_LIST_CAPACITY
    ensures ListImage(LoadList(l, read)) == read
  {
  }

  /** Apart from the addresses, memory gives back what was loaded into it. */
  lemma ImageOfLoad(s: AllocatorState, img: AllocatorImage)
    requires s.Sized() && ImageFits(img)
    ensures Load(s, img).Writable()
    ensures Image(Load(s, img)).directory == img.directory && Image(Load(s, img)).freeLists == img.freeLists
    ensures |img.addresses| == WRITTEN_ADDRESSES ==> Image(Load(s, img)) == img
  {
    LoadWritable(s, img);
    var t := Load(s, img);
    hide EntryImage, LoadEntry, ListImage, LoadList;
    var names := EntryImages(t.directory[..t.directoryCount]);
    forall i | 0 <= i < |names|
      ensures names[i] == img.directory[i]
    {
      EntryImageInverse(s.directory[i], img.directory[i]);
    }
    assert names == img.directory;
    var lists := ListImages(t.freeLists);
    forall i | 0 <= i < |lists|
      ensures lists[i] == img.freeLists[i]
    {
      ListImageInverse(s.freeLists[i], img.freeLists[i]);
    }
    assert lists == img.freeLists;
  }

  /**
    What the writer writes is read back, to the last byte and no further, exactly when the block count is
    between 1 and 256: for the others the writer's 256 addresses are not what the reader expects.
   */
  lemma WriteReadIff(s: AllocatorState, data: seq<byte>, pos: nat)
    requires s.Writable() && At(data, pos, EncodeAllocator(Image(s)))
    ensures DecodeAllocator(data, pos) == Parsed(Image(s), pos + |EncodeAllocator(Image(s))|)
       <==> RoundTrips(s.blockCount)
  {
    hide DecodeAllocator, EncodeAllocator, At, Image, Encodable;
    var img := Image(s);
    ImageBlockCount(s);
    RoundTripsIffPadded(s.blockCount);
    DecodeAllocatorIff(data, pos, img, pos + |EncodeAllocator(img)|);
  }

  lemma ImageBlockCount(s: AllocatorState)
    requires s.Writable()
    ensures Image(s).blockCount == s.blockCount
  {
  }

  /** Writing a state that was just read reproduces the bytes it was read from exactly for the same block counts. */
  lemma ReadWriteIff(s: AllocatorState, data: seq<byte>, pos: nat, img: AllocatorImage, next: nat)
    requires s.Sized() && DecodeAllocator(data, pos) == Parsed(img, next)
    ensures ImageFits(img) && Load(s, img).Writable() && pos <= next <= |data|
    ensures EncodeAllocator(Image(Load(s, img))) == data[pos..next] <==> RoundTrips(img.blockCount)
  {
    hide DecodeAllocator, Image, Load, Encodable;
    DecodeAllocatorIff(data, pos, img, next);
    ImageOfLoad(s, img);
    RoundTripsIffPadded(img.blockCount);
    assert EncodeAllocator(img) == data[pos..next];
    hide EncodeAllocator, At;
  }
}
