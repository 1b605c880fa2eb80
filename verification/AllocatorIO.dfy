/** Reading the allocator into its buffers and writing it from them. */
module AllocatorIO {
  import opened Bytes
  import opened Files
  import opened Allocators
  import opened AllocatorOverruns
  import opened AllocatorStates

  /** `xs` was read already and `p` is what is still to come. */
  ghost function After<T>(xs: seq<T>, p: Parsed<seq<T>>): Parsed<seq<T>> {
    match p
    case Parsed(ys, next) => Parsed(xs + ys, next)
    case Short => Short
    case Overrun => Overrun
  }

  lemma AfterNone<T>(p: Parsed<seq<T>>)
    ensures After([], p) == p
  {
    if p.Parsed? { assert [] + p.value == p.value; }
  }

  lemma AfterOne<T>(xs: seq<T>, x: T, p: Parsed<seq<T>>)
    ensures After(xs, After([x], p)) == After(xs + [x], p)
  {
    if p.Parsed? { assert xs + ([x] + p.value) == xs + [x] + p.value; }
  }

  lemma FillIs<T>(buffer: seq<T>, read: seq<T>)
    requires |read| <= |buffer|
    ensures Fill(buffer, read) == read + buffer[|read|..]
  {
  }

  lemma FillOne<T>(buffer: seq<T>, read: seq<T>, x: T)
    requires |read| < |buffer|
    ensures Fill(buffer, read)[|read| := x] == Fill(buffer, read + [x])
  {
  }

  class Allocator {
    var blockCount: uint32
    var unknown: uint32
    const blockAddresses: array<uint32>
    var directoryCount: uint32
    const directoryEntries: array<DirectoryEntry>
    const freeLists: array<FreeList>

    ghost predicate Valid()
      reads this
    {
      && blockAddresses.Length == TABLE_CAPACITY
      && directoryEntries.Length == DIRECTORY_CAPACITY
      && freeLists.Length == FREE_LISTS
    }

    ghost function State(): (s: AllocatorState)
      requires Valid()
      reads this, blockAddresses, directoryEntries, freeLists
      ensures s.Sized()
    {
      AllocatorState(
        blockCount, unknown, blockAddresses[..], directoryCount, directoryEntries[..], freeLists[..])
    }

    /** Fresh memory; nothing is known about what it holds. */
    constructor ()
      ensures Valid() && fresh(blockAddresses) && fresh(directoryEntries) && fresh(freeLists)
    {
      blockAddresses := new uint32[TABLE_CAPACITY];
      directoryEntries := new DirectoryEntry[DIRECTORY_CAPACITY];
      freeLists := new FreeList[FREE_LISTS];
    }

    // ----- reading -----

    /** Reads the state at the cursor; files that would overrun a buffer are outside what is modelled. */
    method Fread(file: File) returns (status: int)
      requires Valid() && !Overflows(file.data, file.pos)
      modifies this, blockAddresses, directoryEntries, freeLists, file`pos
      ensures Valid()
      ensures status == 0 <==> DecodeAllocator(file.data, old(file.pos)).Parsed?
      ensures status == 0 ==>
          var r := DecodeAllocator(file.data, old(file.pos));
          ImageFits(r.value) && State() == Load(old(State()), r.value) && file.pos == r.next
    {
      hide DecodeWords, DecodeDirectory, DecodeLists, Overflows;
      ghost var data, start := file.data, file.pos;
      DecodeAllocatorOverrunIff(data, start);
      var n;
      n, blockCount := file.FreadUint32();
      if n != 1 { return 1; }
      n, unknown := file.FreadUint32();
      if n != 1 { return 1; }
      status := FreadAddresses(file, blockCount + 256 - 1 - (blockCount - 1) % 0x1_0000_0000 % 256);
      if status != 0 { return; }
      status := FreadDirectory(file);
      if status != 0 { return; }
      status := FreadFreeLists(file);
      if status != 0 { return; }
      DecodeAllocatorSound(data, start);
      ghost var img := DecodeAllocator(data, start).value;
      hide DecodeAllocator, Encodable;
      assert State() == Load(old(State()), img);
    }

    method FreadAddresses(file: File, count: nat) returns (status: int)
      requires Valid() && !DecodeWords(file.data, file.pos, count, TABLE_CAPACITY).Overrun?
      modifies blockAddresses, file`pos
      ensures status == 0 <==> DecodeWords(file.data, old(file.pos), count, TABLE_CAPACITY).Parsed?
      ensures status == 0 ==>
          var r := DecodeWords(file.data, old(file.pos), count, TABLE_CAPACITY);
          |r.value| <= TABLE_CAPACITY && blockAddresses[..] == Fill(old(blockAddresses[..]), r.value)
          && file.pos == r.next
    {
      hide ReadU32;
      ghost var data, start := file.data, file.pos;
      var i := 0;
      AfterNone(DecodeWords(data, start, count, TABLE_CAPACITY));
      assert blockAddresses[..0] == [];
      while i < count
        invariant 0 <= i <= count && i <= TABLE_CAPACITY
        invariant DecodeWords(data, start, count, TABLE_CAPACITY)
               == After(blockAddresses[..i], DecodeWords(data, file.pos, count - i, TABLE_CAPACITY - i))
        invariant forall j :: i <= j < TABLE_CAPACITY ==> blockAddresses[j] == old(blockAddresses[j])
      {
        var n, word := file.FreadUint32();
        ghost var read := blockAddresses[..i];
        blockAddresses[i] := word;
        if n != 1 { return 1; }
        AfterOne(read, word, DecodeWords(data, file.pos, count - i - 1, TABLE_CAPACITY - i - 1));
        i := i + 1;
        assert blockAddresses[..i] == read + [word];
      }
      assert blockAddresses[..i] + [] == blockAddresses[..i];
      assert blockAddresses[..] == Fill(old(blockAddresses[..]), blockAddresses[..i]);
      status := 0;
    }

    /**
      Count, name bytes, block number: the three reads that fill one entry of the directory. At the end of the
      file there is nothing to store, and the entry need not exist.
     */
    method FreadEntry(file: File, i: nat) returns (status: int)
      requires Valid() && (i < DIRECTORY_CAPACITY || file.pos >= |file.data|)
      modifies directoryEntries, file`pos
      ensures status == 0 <==> DecodeName(file.data, old(file.pos)).Parsed?
      ensures status == 0 ==>
          var r := DecodeName(file.data, old(file.pos));
          i < DIRECTORY_CAPACITY && |r.value.name| < 256
          && directoryEntries[i] == LoadEntry(old(directoryEntries[i]), r.value)
          && file.pos == r.next
      ensures forall j :: 0 <= j < DIRECTORY_CAPACITY && j != i ==> directoryEntries[j] == old(directoryEntries[j])
    {
      hide ReadU32, Fill;
      var n, count := file.FreadUint8();
      if n != 1 { return 1; }
      assert file.data[file.pos - 1..file.pos][0] == count;
      ghost var was := directoryEntries[i];
      directoryEntries[i] := directoryEntries[i].(count := count);
      var name := file.Read(count);
      directoryEntries[i] := directoryEntries[i].(bytes := name + directoryEntries[i].bytes[|name|..]);
      FillIs(was.bytes, name);
      if |name| != count { return 1; }
      var word;
      n, word := file.FreadUint32();
      directoryEntries[i] := directoryEntries[i].(blockNumber := word);
      if n != 1 { return 1; }
      status := 0;
    }

    method FreadDirectory(file: File) returns (status: int)
      requires Valid() && !DecodeDirectory(file.data, file.pos).Overrun?
      modifies this`directoryCount, directoryEntries, file`pos
      ensures status == 0 <==> DecodeDirectory(file.data, old(file.pos)).Parsed?
      ensures status == 0 ==>
          var r := DecodeDirectory(file.data, old(file.pos));
          |r.value| <= DIRECTORY_CAPACITY && NamesFit(r.value) && directoryCount == |r.value|
          && directoryEntries[..] == LoadEntries(old(directoryEntries[..]), r.value) && file.pos == r.next
    {
      hide DecodeNames, LoadEntries;
      var n;
      n, directoryCount := file.FreadUint32();
      if n != 1 { return 1; }
      status := FreadEntries(file, directoryCount);
    }

    method FreadEntries(file: File, count: nat) returns (status: int)
      requires Valid() && !DecodeNames(file.data, file.pos, count, DIRECTORY_CAPACITY).Overrun?
      modifies directoryEntries, file`pos
      ensures status == 0 <==> DecodeNames(file.data, old(file.pos), count, DIRECTORY_CAPACITY).Parsed?
      ensures status == 0 ==>
          var r := DecodeNames(file.data, old(file.pos), count, DIRECTORY_CAPACITY);
          |r.value| == count <= DIRECTORY_CAPACITY && NamesFit(r.value)
          && directoryEntries[..] == LoadEntries(old(directoryEntries[..]), r.value) && file.pos == r.next
    {
      hide DecodeName, LoadEntry;
      ghost var data, start, read := file.data, file.pos, [];
      AfterNone(DecodeNames(data, start, count, DIRECTORY_CAPACITY));
      var i := 0;
      while i < count
        invariant 0 <= i <= count && i == |read| <= DIRECTORY_CAPACITY && NamesFit(read)
        invariant DecodeNames(data, start, count, DIRECTORY_CAPACITY)
               == After(read, DecodeNames(data, file.pos, count - i, DIRECTORY_CAPACITY - i))
        invariant forall j :: 0 <= j < i ==> directoryEntries[j] == LoadEntry(old(directoryEntries[j]), read[j])
        invariant forall j :: i <= j < DIRECTORY_CAPACITY ==> directoryEntries[j] == old(directoryEntries[j])
      {
        ghost var e := DecodeName(data, file.pos);
        status := FreadEntry(file, i);
        if status != 0 { return 1; }
        AfterOne(read, e.value, DecodeNames(data, file.pos, count - i - 1, DIRECTORY_CAPACITY - i - 1));
        read := read + [e.value];
        i := i + 1;
      }
      assert read + [] == read;
      assert directoryEntries[..] == LoadEntries(old(directoryEntries[..]), read);
      status := 0;
    }

    method FreadFreeList(file: File, i: nat) returns (status: int)
      requires Valid() && i < FREE_LISTS && !DecodeList(file.data, file.pos).Overrun?
      modifies freeLists, file`pos
      ensures status == 0 <==> DecodeList(file.data, old(file.pos)).Parsed?
      ensures status == 0 ==>
          var r := DecodeList(file.data, old(file.pos));
          |r.value| <= FREE_LIST_CAPACITY && freeLists[i] == LoadList(old(freeLists[i]), r.value)
          && file.pos == r.next
      ensures forall j :: 0 <= j < FREE_LISTS && j != i ==> freeLists[j] == old(freeLists[j])
    {
      hide DecodeWords, Fill;
      var n, count := file.FreadUint32();
      freeLists[i] := freeLists[i].(count := count);
      if n != 1 { return 1; }
      status := FreadOffsets(file, i, count);
    }

    method FreadOffsets(file: File, i: nat, count: nat) returns (status: int)
      requires Valid() && i < FREE_LISTS && !DecodeWords(file.data, file.pos, count, FREE_LIST_CAPACITY).Overrun?
      modifies freeLists, file`pos
      ensures status == 0 <==> DecodeWords(file.data, old(file.pos), count, FREE_LIST_CAPACITY).Parsed?
      ensures status == 0 ==>
          var r := DecodeWords(file.data, old(file.pos), count, FREE_LIST_CAPACITY);
          |r.value| == count <= FREE_LIST_CAPACITY && file.pos == r.next
          && freeLists[i] == old(freeLists[i]).(offsets := Fill(old(freeLists[i]).offsets, r.value))
      ensures forall j :: 0 <= j < FREE_LISTS && j != i ==> freeLists[j] == old(freeLists[j])
    {
      hide ReadU32;
      ghost var data, start, was := file.data, file.pos, freeLists[i];
      ghost var read: seq<uint32> := [];
      AfterNone(DecodeWords(data, start, count, FREE_LIST_CAPACITY));
      var j := 0;
      while j < count
        invariant 0 <= j <= count && j == |read| <= FREE_LIST_CAPACITY
        invariant DecodeWords(data, start, count, FREE_LIST_CAPACITY)
               == After(read, DecodeWords(data, file.pos, count - j, FREE_LIST_CAPACITY - j))
        invariant freeLists[i] == was.(offsets := Fill(was.offsets, read))
        invariant forall k :: 0 <= k < FREE_LISTS && k != i ==> freeLists[k] == old(freeLists[k])
      {
        var n, word := file.FreadUint32();
        freeLists[i] := freeLists[i].(offsets := freeLists[i].offsets[j := word]);
        if n != 1 { return 1; }
        AfterOne(read, word, DecodeWords(data, file.pos, count - j - 1, FREE_LIST_CAPACITY - j - 1));
        FillOne(was.offsets, read, word);
        read := read + [word];
        j := j + 1;
      }
      assert read + [] == read;
      status := 0;
    }

    method FreadFreeLists(file: File) returns (status: int)
      requires Valid() && !DecodeLists(file.data, file.pos, FREE_LISTS).Overrun?
      modifies freeLists, file`pos
      ensures status == 0 <==> DecodeLists(file.data, old(file.pos), FREE_LISTS).Parsed?
      ensures status == 0 ==>
          var r := DecodeLists(file.data, old(file.pos), FREE_LISTS);
          |r.value| == FREE_LISTS && ListsFit(r.value)
          && freeLists[..] == LoadLists(old(freeLists[..]), r.value) && file.pos == r.next
    {
      hide DecodeList, LoadList;
      ghost var data, start, read := file.data, file.pos, [];
      AfterNone(DecodeLists(data, start, FREE_LISTS));
      for i := 0 to FREE_LISTS
        invariant |read| == i && ListsFit(read)
        invariant DecodeLists(data, start, FREE_LISTS) == After(read, DecodeLists(data, file.pos, FREE_LISTS - i))
        invariant forall j :: 0 <= j < i ==> freeLists[j] == LoadList(old(freeLists[j]), read[j])
        invariant forall j :: i <= j < FREE_LISTS ==> freeLists[j] == old(freeLists[j])
      {
        ghost var l := DecodeList(data, file.pos);
        status := FreadFreeList(file, i);
        if status != 0 { return 1; }
        AfterOne(read, l.value, DecodeLists(data, file.pos, FREE_LISTS - i - 1));
        read := read + [l.value];
      }
      assert read + [] == read;
      assert freeLists[..] == LoadLists(old(freeLists[..]), read);
      status := 0;
    }

    // ----- writing -----

    method Fwrite(file: File) returns (status: int)
      requires Valid() && State().Writable()
      modifies file
      ensures status == 0
      ensures file.data == Overwrite(old(file.data), old(file.pos), EncodeAllocator(Image(State())))
      ensures file.pos == old(file.pos) + |EncodeAllocator(Image(State()))|
    {
      hide Overwrite, U32, Words, EncodeDirectory, EncodeLists, EntryImages, ListImages;
      ghost var data, start, img := file.data, file.pos, Image(State());
      assert img.addresses == blockAddresses[..WRITTEN_ADDRESSES];
      assert img.directory == EntryImages(directoryEntries[..directoryCount]) by {
        assert directoryEntries[..][..directoryCount] == directoryEntries[..directoryCount];
      }
      file.FwriteUint32(blockCount);
      file.FwriteUint32(unknown);
      FwriteAddresses(file);
      FwriteDirectory(file);
      FwriteFreeLists(file);
      OverwriteFive(data, start, U32(blockCount), U32(unknown), Words(img.addresses),
                    EncodeDirectory(img.directory), EncodeLists(img.freeLists));
      status := 0;
    }

    method FwriteAddresses(file: File)
      requires Valid()
      modifies file
      ensures var bs := Words(blockAddresses[..WRITTEN_ADDRESSES]);
        file.data == Overwrite(old(file.data), old(file.pos), bs) && file.pos == old(file.pos) + |bs|
    {
      hide Overwrite, U32;
      ghost var data, start := file.data, file.pos;
      assert Overwrite(data, start, []) == data by { EmptyOverwrite(data, start); }
      for i := 0 to WRITTEN_ADDRESSES
        invariant file.data == Overwrite(data, start, Words(blockAddresses[..i]))
        invariant file.pos == start + 4 * i
      {
        file.FwriteUint32(blockAddresses[i]);
        ghost var w := blockAddresses[i];
        assert blockAddresses[..i + 1] == blockAddresses[..i] + [w];
        WordsConcat(blockAddresses[..i], [w]);
        WordsOne(w);
        OverwriteTwice(data, start, Words(blockAddresses[..i]), U32(w));
      }
    }

    method FwriteDirectory(file: File)
      requires Valid() && directoryCount <= DIRECTORY_CAPACITY
      modifies file
      ensures var bs := EncodeDirectory(EntryImages(directoryEntries[..directoryCount]));
        file.data == Overwrite(old(file.data), old(file.pos), bs) && file.pos == old(file.pos) + |bs|
    {
      hide Overwrite, U32, EncodeName, EntryImage;
      ghost var data, start, names := file.data, file.pos, EntryImages(directoryEntries[..directoryCount]);
      file.FwriteUint32(directoryCount);
      ghost var head := U32(directoryCount);
      assert head + EncodeNames(names[..0]) == head;
      for i := 0 to directoryCount
        invariant NamesFit(names[..i])
        invariant file.data == Overwrite(data, start, head + EncodeNames(names[..i]))
        invariant file.pos == start + 4 + |EncodeNames(names[..i])|
      {
        FwriteEntry(file, i);
        ghost var done := head + EncodeNames(names[..i]);
        EncodeNamesSnoc(names, i);
        OverwriteTwice(data, start, done, EncodeName(names[i]));
        assert done + EncodeName(names[i]) == head + EncodeNames(names[..i + 1]);
      }
      assert names[..directoryCount] == names;
    }

    method FwriteEntry(file: File, i: nat)
      requires Valid() && i < DIRECTORY_CAPACITY
      modifies file
      ensures var bs := EncodeName(EntryImage(directoryEntries[i]));
        file.data == Overwrite(old(file.data), old(file.pos), bs) && file.pos == old(file.pos) + |bs|
    {
      hide Overwrite;
      ghost var data, start := file.data, file.pos;
      var e := directoryEntries[i];
      file.Write([e.count]);
      file.Write(e.bytes[..e.count]);
      OverwriteTwice(data, start, [e.count], e.bytes[..e.count]);
      file.FwriteUint32(e.blockNumber);
      OverwriteTwice(data, start, [e.count] + e.bytes[..e.count], U32(e.blockNumber));
      assert [e.count] + e.bytes[..e.count] + U32(e.blockNumber) == EncodeName(EntryImage(e));
    }

    method FwriteFreeLists(file: File)
      requires Valid() && forall i :: 0 <= i < FREE_LISTS ==> freeLists[i].count <= FREE_LIST_CAPACITY
      modifies file
      ensures var bs := EncodeLists(ListImages(freeLists[..]));
        file.data == Overwrite(old(file.data), old(file.pos), bs) && file.pos == old(file.pos) + |bs|
    {
      hide Overwrite, EncodeList, ListImage;
      ghost var data, start, lists := file.data, file.pos, ListImages(freeLists[..]);
      assert Overwrite(data, start, []) == data by { EmptyOverwrite(data, start); }
      for i := 0 to FREE_LISTS
        invariant ListsFit(lists[..i])
        invariant file.data == Overwrite(data, start, EncodeLists(lists[..i]))
        invariant file.pos == start + |EncodeLists(lists[..i])|
      {
        FwriteFreeList(file, i);
        EncodeListsSnoc(lists, i);
        OverwriteTwice(data, start, EncodeLists(lists[..i]), EncodeList(lists[i]));
      }
      assert lists[..FREE_LISTS] == lists;
    }

    method FwriteFreeList(file: File, i: nat)
      requires Valid() && i < FREE_LISTS && freeLists[i].count <= FREE_LIST_CAPACITY
      modifies file
      ensures var bs := EncodeList(ListImage(freeLists[i]));
        file.data == Overwrite(old(file.data), old(file.pos), bs) && file.pos == old(file.pos) + |bs|
    {
      hide Overwrite, U32;
      ghost var data, start := file.data, file.pos;
      var l := freeLists[i];
      file.FwriteUint32(l.count);
      ghost var head := U32(l.count);
      assert head + Words(l.offsets[..0]) == head;
      for j := 0 to l.count
        invariant file.data == Overwrite(data, start, head + Words(l.offsets[..j]))
        invariant file.pos == start + 4 + 4 * j
      {
        file.FwriteUint32(l.offsets[j]);
        ghost var w := l.offsets[j];
        assert l.offsets[..j + 1] == l.offsets[..j] + [w];
        WordsConcat(l.offsets[..j], [w]);
        WordsOne(w);
        OverwriteTwice(data, start, head + Words(l.offsets[..j]), U32(w));
        assert head + Words(l.offsets[..j]) + U32(w) == head + Words(l.offsets[..j + 1]);
      }
    }
  }

  lemma OverwriteFive(
    data: seq<byte>, pos: nat, a: seq<byte>, b: seq<byte>, c: seq<byte>, d: seq<byte>, e: seq<byte>)
    ensures var d1 := Overwrite(data, pos, a);
      var d2 := Overwrite(d1, pos + |a|, b);
      var d3 := Overwrite(d2, pos + |a| + |b|, c);
      var d4 := Overwrite(d3, pos + |a| + |b| + |c|, d);
      Overwrite(d4, pos + |a| + |b| + |c| + |d|, e) == Overwrite(data, pos, a + (b + (c + (d + e))))
  {
    hide Overwrite, At;
    OverwriteTwice(data, pos, a, b);
    OverwriteTwice(data, pos, a + b, c);
    OverwriteTwice(data, pos, a + b + c, d);
    OverwriteTwice(data, pos, a + b + c + d, e);
    ConcatRight(a + b + c, d, e);
    ConcatRight(a + b, c, d + e);
    ConcatRight(a, b, c + (d + e));
  }

  lemma ConcatRight(a: seq<byte>, b: seq<byte>, c: seq<byte>)
    ensures a + b + c == a + (b + c)
  {
  }

  lemma EmptyOverwrite(data: seq<byte>, pos: nat)
    ensures Overwrite(data, pos, []) == data
  {
  }

  lemma WordsOne(w: uint32)
    ensures Words([w]) == U32(w)
  {
    assert Words([w]) == U32(w) + [];
  }

  lemma {:induction false} EncodeNamesConcat(a: seq<NamedBlock>, b: seq<NamedBlock>)
    requires NamesFit(a) && NamesFit(b)
    ensures NamesFit(a + b) && EncodeNames(a + b) == EncodeNames(a) + EncodeNames(b)
    decreases a
  {
    hide EncodeName;
    if a == [] {
      assert a + b == b;
    } else {
      EncodeNamesConcat(a[1..], b);
      assert (a + b)[1..] == a[1..] + b;
    }
  }

  lemma EncodeNamesSnoc(es: seq<NamedBlock>, i: nat)
    requires NamesFit(es) && i < |es|
    ensures NamesFit(es[..i]) && NamesFit(es[..i + 1])
    ensures EncodeNames(es[..i + 1]) == EncodeNames(es[..i]) + EncodeName(es[i])
  {
    assert es[..i + 1] == es[..i] + [es[i]];
    EncodeNamesConcat(es[..i], [es[i]]);
    assert EncodeNames([es[i]]) == EncodeName(es[i]) + [];
  }

  lemma {:induction false} EncodeListsConcat(a: seq<seq<uint32>>, b: seq<seq<uint32>>)
    requires ListsFit(a) && ListsFit(b)
    ensures ListsFit(a + b) && EncodeLists(a + b) == EncodeLists(a) + EncodeLists(b)
    decreases |a|
  {
    hide EncodeList;
    if a == [] {
      assert a + b == b;
    } else {
      EncodeListsConcat(a[1..], b);
      assert (a + b)[1..] == a[1..] + b;
    }
  }

  lemma EncodeListsSnoc(ls: seq<seq<uint32>>, i: nat)
    requires ListsFit(ls) && i < |ls|
    ensures ListsFit(ls[..i]) && ListsFit(ls[..i + 1])
    ensures EncodeLists(ls[..i + 1]) == EncodeLists(ls[..i]) + EncodeList(ls[i])
  {
    assert ls[..i + 1] == ls[..i] + [ls[i]];
    EncodeListsConcat(ls[..i], [ls[i]]);
    assert EncodeLists([ls[i]]) == EncodeList(ls[i]) + [];
  }
}
