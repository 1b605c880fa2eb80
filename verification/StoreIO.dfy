/** The store object: opening a file, enumerating its records, and writing header and allocator. */
module StoreIO {
  import opened Bytes
  import opened Addresses
  import opened Files
  import opened Records
  import opened Walks
  import opened Divergence
  import opened Allocators
  import opened AllocatorOverruns
  import opened AllocatorStates
  import opened AllocatorIO
  import opened Headers
  import opened Stores
  import opened Enumeration

  /** Loading the file at `pos` stays inside the allocator's buffers. */
  ghost predicate Loadable(data: seq<byte>, pos: nat) {
    forall h :: Acceptable(h) && At(data, pos, EncodeHeader(h)) ==> !Overflows(data, 4 + h.allocatorOffset)
  }

  lemma EnumerableLoadable(data: seq<byte>, stale: AllocatorState)
    requires stale.Sized() && Enumerable(data, stale)
    ensures Loadable(data, 0)
  {
    hide DecodeHeader, DecodeAllocator, OpenTree, Overflows, At, EncodeHeader, Acceptable, Escapes, Reenters;
    forall h | Acceptable(h) && At(data, 0, EncodeHeader(h))
      ensures !Overflows(data, 4 + h.allocatorOffset)
    {
      DecodeHeaderIff(data, 0, h, HEADER_SIZE);
      DecodeAllocatorOverrunIff(data, 4 + h.allocatorOffset);
    }
  }

  class Store {
    const file: File
    const header: Header
    const allocator: Allocator
    const headerBlock: HeaderBlock

    ghost predicate Valid()
      reads this, header, allocator
    {
      header.Valid() && allocator.Valid()
    }

    constructor (file: File)
      ensures Valid() && this.file == file
      ensures fresh(header) && fresh(header.padding) && Acceptable(header.Value())
      ensures fresh(allocator) && fresh(allocator.blockAddresses) && fresh(allocator.directoryEntries)
      ensures fresh(allocator.freeLists) && fresh(headerBlock)
    {
      this.file := file;
      header := new Header();
      allocator := new Allocator();
      headerBlock := new HeaderBlock();
    }

    /** Reads header, allocator and header block into this store's memory. */
    method Load() returns (status: int)
      requires Valid() && Loadable(file.data, file.pos)
      modifies header, header.padding, headerBlock, file`pos
      modifies allocator, allocator.blockAddresses, allocator.directoryEntries, allocator.freeLists
      ensures Valid()
      ensures var r := OpenStore(file.data, old(file.pos), old(allocator.State()));
        && (status == 0 <==> r.Opened?)
        && (status == 0 ==> r == Opened(header.Value(), allocator.State(), headerBlock.Value()))
    {
      hide DecodeHeader, DecodeAllocator, AllocatorStates.Load, DecodeHeaderBlock, HeaderBlockNumber, Encodable;
      hide Overflows, At, EncodeHeader, Acceptable;
      ghost var stale := allocator.State();
      status := header.Fread(file);
      if status != 0 { return; }
      DecodeHeaderIff(file.data, old(file.pos), header.Value(), file.pos);
      file.Seek(4 + header.allocatorOffset);
      status := allocator.Fread(file);
      if status != 0 { return; }
      ghost var img := DecodeAllocator(file.data, 4 + header.allocatorOffset).value;
      LoadCounts(stale, img);
      var number := FindHeaderBlock();
      if number == NO_BLOCK { return 1; }
      if number >= allocator.blockCount { return 1; }
      var addr := allocator.blockAddresses[number];
      file.Seek(4 + BlockOffset(addr));
      status := headerBlock.Fread(file);
    }

    /** The block number of the first directory entry whose name starts with DSDB. */
    method FindHeaderBlock() returns (number: uint32)
      requires Valid() && allocator.State().Writable()
      ensures number == HeaderBlockNumber(allocator.State())
      ensures var s := allocator.State();
        || (exists k: nat :: FirstDsdb(s, k) && number == s.directory[k].blockNumber)
        || (NoDsdb(s) && number == 0xFFFF_FFFF)
    {
      number := NO_BLOCK;
      ghost var es := allocator.directoryEntries[..];
      var i := 0;
      while i < allocator.directoryCount
        invariant 0 <= i <= allocator.directoryCount
        invariant FindFrom(es, allocator.directoryCount, 0) == FindFrom(es, allocator.directoryCount, i)
        invariant number == NO_BLOCK
      {
        if allocator.directoryEntries[i].bytes[..4] == DSDB {
          number := allocator.directoryEntries[i].blockNumber;
          break;
        }
        i := i + 1;
      }
      FindFromFirst(allocator.State());
    }

    /**
      Shows every record to the observer. The cursor need not be anywhere in particular, but the root's calls
      must neither leave the table nor come back to an unfinished block.
     */
    method EnumRecords(observer: Observer?) returns (ret: int)
      requires Valid()
      requires var s := LoadedOf(allocator.State(), headerBlock.Value());
        !Escapes(file.data, s, s.root) && !Reenters(file.data, s, s.root)
      modifies file`pos, observer
      ensures var s := LoadedOf(allocator.State(), headerBlock.Value());
        var o := WalkBlock(file.data, s, s.root, TABLE_CAPACITY);
        && (ret == 0 <==> o.status.Done?)
        && (ret == 0 ==> file.pos == old(file.pos))
        && Reported(observer, old(Seen(observer)), o.trace)
    {
      hide WalkBlock, Escapes, Reenters;
      var loaded := Loaded(allocator.blockAddresses[..], allocator.blockCount, headerBlock.root);
      SurvivesIff(file.data, loaded, loaded.root);
      ret := EnumBlocks(loaded, headerBlock.root, observer, file, TABLE_CAPACITY);
    }

    /** Writes header and allocator. It reports failure even so: the rest is not implemented. */
    method Fwrite(out: File) returns (status: int)
      requires Valid() && allocator.State().Writable()
      modifies out
      ensures status == 1
      ensures out.data == WrittenStore(old(out.data), old(out.pos), header.Value(), allocator.State())
    {
      hide Overwrite, EncodeHeader, EncodeAllocator, Image;
      status := header.Fwrite(out);
      if status != 0 { return 1; }
      out.Seek(4 + header.allocatorOffset);
      status := allocator.Fwrite(out);
      if status != 0 { return 1; }
      status := 1;
    }
  }

  /** Opens the file at the cursor; `stale` is what the new store's memory happened to hold. */
  method OpenFile(file: File) returns (store: Store?, ghost stale: AllocatorState)
    requires Loadable(file.data, file.pos)
    modifies file`pos
    ensures stale.Sized()
    ensures store != null <==> OpenStore(file.data, old(file.pos), stale).Opened?
    ensures store != null ==>
        fresh(store) && store.Valid() && store.file == file
        && OpenStore(file.data, old(file.pos), stale)
           == Opened(store.header.Value(), store.allocator.State(), store.headerBlock.Value())
  {
    hide OpenStore, Loadable;
    var s := new Store(file);
    stale := s.allocator.State();
    var status := s.Load();
    store := if status == 0 then s else null;
  }

  /**
    Collects all records of a file that was just opened, as the conversion to a property list does. The store
    is a new one, with whatever its memory happens to hold.
   */
  method AllRecords(store: Store) returns (ret: int, records: seq<RecordValue>)
    requires store.Valid() && store.file.pos == 0
    requires Enumerable(store.file.data, store.allocator.State())
    modifies store.header, store.header.padding, store.headerBlock, store.file`pos
    modifies store.allocator, store.allocator.blockAddresses, store.allocator.directoryEntries
    modifies store.allocator.freeLists
    ensures Enumerate(store.file.data, old(store.allocator.State()), TABLE_CAPACITY)
         == Outcome(if ret == 0 then Done else Failed, records)
  {
    hide OpenStore, WalkBlock, Loadable, Escapes, Reenters;
    EnumerableIff(store.file.data, store.allocator.State());
    EnumerableLoadable(store.file.data, store.allocator.State());
    var status := store.Load();
    if status != 0 { return 1, []; }
    var observer := new Observer();
    ret := store.EnumRecords(observer);
    records := observer.seen;
    if ret != 0 { return 1, records; }
  }

  // ----- what the writer leaves behind -----

  /**
    A store written to an empty file, with its allocator behind the header: header, zeros up to the allocator's
    offset, allocator, and nothing else.
   */
  lemma NewStoreFile(h: HeaderValue, s: AllocatorState)
    requires s.Writable() && |h.padding| == 16 && h.allocatorOffset >= 32
    ensures WrittenStore([], 0, h, s)
      == EncodeHeader(h) + seq(h.allocatorOffset - 32, i => 0) + EncodeAllocator(Image(s))
  {
    hide EncodeHeader, EncodeAllocator, Image, Encodable;
    var header, gap, allocator := EncodeHeader(h), seq(h.allocatorOffset - 32, i => 0), EncodeAllocator(Image(s));
    AppendAt([], header, 0);
    AppendAt(header, allocator, |gap|);
    assert [] + seq(0, i => 0) + header == header;
  }

  /** Writing behind the end leaves a gap of zeros. */
  lemma AppendAt(data: seq<byte>, bs: seq<byte>, gap: nat)
    requires bs != []
    ensures Overwrite(data, |data| + gap, bs) == data + seq(gap, i => 0) + bs
  {
    var out, pos := Overwrite(data, |data| + gap, bs), |data| + gap;
    hide Overwrite;
    assert out[pos..pos + |bs|] == bs;
    assert forall i :: pos <= i < |out| ==> out[i] == out[pos..pos + |bs|][i - pos];
  }

  function WrittenStore(data: seq<byte>, pos: nat, h: HeaderValue, s: AllocatorState): seq<byte>
    requires s.Writable()
  {
    Overwrite(Overwrite(data, pos, EncodeHeader(h)), 4 + h.allocatorOffset, EncodeAllocator(Image(s)))
  }

  /** Where the allocator's bytes overlap the header's, they repeat them. */
  predicate OverlapAgrees(h: HeaderValue, allocator: seq<byte>) {
    Agree(EncodeHeader(h), 4 + h.allocatorOffset, allocator)
  }

  predicate Agree(header: seq<byte>, start: nat, bs: seq<byte>) {
    forall i :: start <= i < |header| && i < start + |bs| ==> header[i] == bs[i - start]
  }

  lemma AtBeginning(data: seq<byte>, bs: seq<byte>)
    ensures At(data, 0, bs) <==> |bs| <= |data| && forall i :: 0 <= i < |bs| ==> data[i] == bs[i]
  {
    if |bs| <= |data| && forall i :: 0 <= i < |bs| ==> data[i] == bs[i] {
      assert data[0..|bs|] == bs;
    }
  }

  lemma BeginningSurvivesIff(data: seq<byte>, header: seq<byte>, start: nat, bs: seq<byte>)
    requires header != [] && bs != []
    ensures At(Overwrite(Overwrite(data, 0, header), start, bs), 0, header) <==> Agree(header, start, bs)
  {
    var d1 := Overwrite(data, 0, header);
    assert At(d1, 0, header);
    var d2 := Overwrite(d1, start, bs);
    hide Overwrite, At;
    AtBeginning(d1, header);
    AtBeginning(d2, header);
    forall i | 0 <= i < |header|
      ensures d2[i] == if start <= i < start + |bs| then bs[i - start] else header[i]
    {
      OverwriteIndex(d1, start, bs, i);
    }
    if !Agree(header, start, bs) {
      var i :| start <= i < |header| && i < start + |bs| && header[i] != bs[i - start];
      assert d2[i] != header[i];
    }
  }

  /**
    Reading back a store written from the beginning of a file: the header is recovered exactly when it is
    acceptable and the allocator did not overwrite it with something else, which an offset of 32 or more
    rules out; the allocator is recovered exactly when its block count is between 1 and 256.
   */
  lemma WrittenStoreIff(data: seq<byte>, h: HeaderValue, s: AllocatorState)
    requires s.Writable() && |h.padding| == PADDING_SIZE
    ensures var out, allocator := WrittenStore(data, 0, h, s), EncodeAllocator(Image(s));
      && (DecodeHeader(out, 0) == Some((h, HEADER_SIZE)) <==> Acceptable(h) && OverlapAgrees(h, allocator))
      && (h.allocatorOffset >= 32 ==> OverlapAgrees(h, allocator))
      && (DecodeAllocator(out, 4 + h.allocatorOffset) == Parsed(Image(s), 4 + h.allocatorOffset + |allocator|)
          <==> RoundTrips(s.blockCount))
  {
    hide DecodeHeader, DecodeAllocator, EncodeHeader, EncodeAllocator, Image, At, Encodable, RoundTrips;
    var allocator, start := EncodeAllocator(Image(s)), 4 + h.allocatorOffset;
    var d1 := Overwrite(data, 0, EncodeHeader(h));
    var out := Overwrite(d1, start, allocator);
    assert |allocator| >= 8 + 4 * WRITTEN_ADDRESSES;
    BeginningSurvivesIff(data, EncodeHeader(h), start, allocator);
    DecodeHeaderIff(out, 0, h, HEADER_SIZE);
    assert At(out, start, allocator);
    WriteReadIff(s, out, start);
  }
}
