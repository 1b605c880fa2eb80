/** Which files would make the allocator's reader write behind the end of one of its buffers. */
module AllocatorOverruns {
  import opened Bytes
  import opened Allocators

  /** What such a file holds up to the buffer that is too small, and the count that exceeds it. */
  datatype Overflow =
    | TooManyAddresses(blockCount: uint32, unknown: uint32)
    | TooManyEntries(blockCount: uint32, unknown: uint32, addresses: seq<uint32>,
                     count: uint32, entries: seq<NamedBlock>)
    | TooManyOffsets(blockCount: uint32, unknown: uint32, addresses: seq<uint32>,
                     directory: seq<NamedBlock>, freeLists: seq<seq<uint32>>, count: uint32)

  predicate PrefixAt(data: seq<byte>, pos: nat, blockCount: uint32, unknown: uint32, addresses: seq<uint32>) {
    && At(data, pos, U32(blockCount)) && At(data, pos + 4, U32(unknown))
    && |addresses| == PaddedCount(blockCount) <= 1024 && At(data, pos + 8, Words(addresses))
  }

  predicate ListOverflowAt(data: seq<byte>, pos: nat, count: uint32) {
    count > 256 && At(data, pos, U32(count)) && pos + 4 + 1024 <= |data|
  }

  predicate OverflowAt(data: seq<byte>, pos: nat, o: Overflow) {
    match o
    case TooManyAddresses(blockCount, unknown) =>
      && At(data, pos, U32(blockCount)) && At(data, pos + 4, U32(unknown))
      && blockCount > 1024 && pos + 8 + 4096 <= |data|
    case TooManyEntries(blockCount, unknown, addresses, count, entries) =>
      && PrefixAt(data, pos, blockCount, unknown, addresses)
      && DirectoryOverflowAt(data, pos + 8 + 4 * |addresses|, count, entries)
    case TooManyOffsets(blockCount, unknown, addresses, directory, freeLists, count) =>
      && PrefixAt(data, pos, blockCount, unknown, addresses)
      && |directory| <= 256 && NamesFit(directory)
      && At(data, pos + 8 + 4 * |addresses|, EncodeDirectory(directory))
      && ListsOverflowAt(data, pos + 8 + 4 * |addresses| + |EncodeDirectory(directory)|, 32, freeLists, count)
  }

  predicate DirectoryOverflowAt(data: seq<byte>, pos: nat, count: uint32, entries: seq<NamedBlock>) {
    && count > 256 && At(data, pos, U32(count))
    && |entries| == 256 && NamesFit(entries) && At(data, pos + 4, EncodeNames(entries))
    && pos + 4 + |EncodeNames(entries)| < |data|
  }

  predicate ListsOverflowAt(data: seq<byte>, pos: nat, lists: nat, before: seq<seq<uint32>>, count: uint32) {
    && |before| < lists && ListsFit(before) && At(data, pos, EncodeLists(before))
    && ListOverflowAt(data, pos + |EncodeLists(before)|, count)
  }

  /** The file at `pos` would make the reader overrun one of the allocator's buffers. */
  ghost predicate Overflows(data: seq<byte>, pos: nat) {
    exists o :: OverflowAt(data, pos, o)
  }

  lemma DecodeListOverrun(data: seq<byte>, pos: nat, count: uint32)
    ensures DecodeList(data, pos).Overrun? && DecodeWord(data, pos).value == count <==> ListOverflowAt(data, pos, count)
  {
    hide DecodeWords;
    if pos + 4 <= |data| {
      DecodeWordSound(data, pos);
      DecodeWordsOverrunIff(data, pos + 4, DecodeWord(data, pos).value, FREE_LIST_CAPACITY);
      DecodeWordIff(data, pos, count, pos + 4);
    }
  }

  lemma OverrunningList(data: seq<byte>, pos: nat) returns (count: uint32)
    requires DecodeList(data, pos).Overrun?
    ensures ListOverflowAt(data, pos, count)
  {
    hide DecodeWord;
    count := DecodeWord(data, pos).value;
    DecodeListOverrun(data, pos, count);
  }

  lemma {:induction false} DecodeListsOverrunSound(data: seq<byte>, pos: nat, lists: nat)
    returns (before: seq<seq<uint32>>, count: uint32)
    requires pos <= |data| && DecodeLists(data, pos, lists).Overrun?
    ensures ListsOverflowAt(data, pos, lists, before, count)
    decreases lists
  {
    hide At, DecodeList, EncodeList, ListOverflowAt;
    if DecodeList(data, pos).Overrun? {
      before := [];
      count := OverrunningList(data, pos);
      assert At(data, pos, EncodeLists([])) by { EmptyAt(data, pos); }
    } else {
      var l := DecodeList(data, pos);
      DecodeListSound(data, pos);
      var rest;
      rest, count := DecodeListsOverrunSound(data, l.next, lists - 1);
      before := [l.value] + rest;
      assert before[1..] == rest;
      ListsFitCons(l.value, rest);
      AtConcat(data, pos, EncodeList(l.value), EncodeLists(rest));
    }
  }

  lemma EmptyAt(data: seq<byte>, pos: nat)
    requires pos <= |data|
    ensures At(data, pos, [])
  {
  }

  lemma {:induction false} DecodeListsOverrunComplete(
    data: seq<byte>, pos: nat, lists: nat, before: seq<seq<uint32>>, count: uint32)
    requires ListsOverflowAt(data, pos, lists, before, count)
    ensures DecodeLists(data, pos, lists).Overrun?
    decreases lists
  {
    hide At, DecodeList, EncodeList, ListOverflowAt, ListsFit;
    if before == [] {
      DecodeListOverrun(data, pos, count);
    } else {
      var l, rest := before[0], before[1..];
      ListsFitTail(before);
      AtConcat(data, pos, EncodeList(l), EncodeLists(rest));
      DecodeListComplete(data, pos, l);
      DecodeListsOverrunComplete(data, pos + 4 + 4 * |l|, lists - 1, rest, count);
    }
  }

  lemma DecodeDirectoryOverrunSound(data: seq<byte>, pos: nat) returns (count: uint32, entries: seq<NamedBlock>)
    requires DecodeDirectory(data, pos).Overrun?
    ensures DirectoryOverflowAt(data, pos, count, entries)
  {
    hide DecodeNames;
    count := DecodeWord(data, pos).value;
    DecodeWordSound(data, pos);
    DecodeNamesOverrunIff(data, pos + 4, count, DIRECTORY_CAPACITY);
    DecodeNamesSound(data, pos + 4, DIRECTORY_CAPACITY, DIRECTORY_CAPACITY);
    entries := DecodeNames(data, pos + 4, DIRECTORY_CAPACITY, DIRECTORY_CAPACITY).value;
  }

  lemma DecodeDirectoryOverrunComplete(data: seq<byte>, pos: nat, count: uint32, entries: seq<NamedBlock>)
    requires DirectoryOverflowAt(data, pos, count, entries)
    ensures DecodeDirectory(data, pos).Overrun?
  {
    hide At, DecodeNames, EncodeNames, NamesFit, DecodeWord;
    DecodeWordIff(data, pos, count, pos + 4);
    DecodeNamesComplete(data, pos + 4, DIRECTORY_CAPACITY, entries);
    DecodeNamesOverrunIff(data, pos + 4, count, DIRECTORY_CAPACITY);
  }

  lemma OverrunSound(data: seq<byte>, pos: nat) returns (o: Overflow)
    requires DecodeAllocator(data, pos).Overrun?
    ensures OverflowAt(data, pos, o)
  {
    hide At, DecodeWord, DecodeWords, DecodeDirectory, DecodeLists, EncodeDirectory, EncodeLists, Words, PaddedCount;
    hide DirectoryOverflowAt, ListsOverflowAt;
    DecodeWordSound(data, pos);
    DecodeWordSound(data, pos + 4);
    var blockCount, unknown := DecodeWord(data, pos).value, DecodeWord(data, pos + 4).value;
    var words := DecodeWords(data, pos + 8, PaddedCount(blockCount), TABLE_CAPACITY);
    if words.Overrun? {
      AddressesOverrunIff(data, pos + 8, blockCount);
      o := TooManyAddresses(blockCount, unknown);
    } else {
      var addresses := words.value;
      DecodeWordsSound(data, pos + 8, PaddedCount(blockCount), TABLE_CAPACITY);
      var p := pos + 8 + 4 * |addresses|;
      var directory := DecodeDirectory(data, p);
      if directory.Overrun? {
        var count, entries := DecodeDirectoryOverrunSound(data, p);
        o := TooManyEntries(blockCount, unknown, addresses, count, entries);
      } else {
        DecodeDirectorySound(data, p);
        var before, count := DecodeListsOverrunSound(data, directory.next, FREE_LISTS);
        o := TooManyOffsets(blockCount, unknown, addresses, directory.value, before, count);
      }
    }
  }

  lemma PrefixDecodes(data: seq<byte>, pos: nat, blockCount: uint32, unknown: uint32, addresses: seq<uint32>)
    requires PrefixAt(data, pos, blockCount, unknown, addresses)
    ensures DecodeWord(data, pos) == Parsed(blockCount, pos + 4)
    ensures DecodeWord(data, pos + 4) == Parsed(unknown, pos + 8)
    ensures DecodeWords(data, pos + 8, PaddedCount(blockCount), TABLE_CAPACITY)
         == Parsed(addresses, pos + 8 + 4 * |addresses|)
  {
    hide At, DecodeWord, DecodeWords, PaddedCount;
    DecodeWordIff(data, pos, blockCount, pos + 4);
    DecodeWordIff(data, pos + 4, unknown, pos + 8);
    DecodeWordsComplete(data, pos + 8, TABLE_CAPACITY, addresses);
  }

  lemma OverrunComplete(data: seq<byte>, pos: nat, o: Overflow)
    requires OverflowAt(data, pos, o)
    ensures DecodeAllocator(data, pos).Overrun?
  {
    hide At, DecodeWord, DecodeWords, DecodeDirectory, DecodeLists, EncodeDirectory, EncodeLists, PaddedCount;
    hide PrefixAt, DirectoryOverflowAt, ListsOverflowAt, NamesFit;
    match o
    case TooManyAddresses(blockCount, unknown) =>
      DecodeWordIff(data, pos, blockCount, pos + 4);
      DecodeWordIff(data, pos + 4, unknown, pos + 8);
      AddressesOverrunIff(data, pos + 8, blockCount);
    case TooManyEntries(blockCount, unknown, addresses, count, entries) =>
      PrefixDecodes(data, pos, blockCount, unknown, addresses);
      DecodeDirectoryOverrunComplete(data, pos + 8 + 4 * |addresses|, count, entries);
    case TooManyOffsets(blockCount, unknown, addresses, directory, freeLists, count) =>
      PrefixDecodes(data, pos, blockCount, unknown, addresses);
      var p := pos + 8 + 4 * |addresses|;
      DecodeDirectoryComplete(data, p, directory);
      DecodeListsOverrunComplete(data, p + |EncodeDirectory(directory)|, FREE_LISTS, freeLists, count);
  }

  /**
    The reader leaves one of its buffers exactly when the file announces more addresses, directory entries or
    offsets of a free list than fit, everything before is well-formed, and the file goes on long enough.
   */
  lemma DecodeAllocatorOverrunIff(data: seq<byte>, pos: nat)
    ensures DecodeAllocator(data, pos).Overrun? <==> Overflows(data, pos)
  {
    hide DecodeAllocator, OverflowAt;
    if DecodeAllocator(data, pos).Overrun? {
      var o := OverrunSound(data, pos);
    }
    if Overflows(data, pos) {
      var o :| OverflowAt(data, pos, o);
      OverrunComplete(data, pos, o);
    }
  }

  /** More than 1024 blocks announced, and 1024 addresses to fill the table with. */
  function OverflowingFile(blockCount: uint32): seq<byte> {
    U32(blockCount) + U32(0) + seq(4096, i => 0)
  }

  lemma OverflowingFileOverruns(blockCount: uint32)
    requires blockCount > 1024
    ensures Overflows(OverflowingFile(blockCount), 0) && DecodeAllocator(OverflowingFile(blockCount), 0).Overrun?
  {
    var data := OverflowingFile(blockCount);
    assert At(data, 0, U32(blockCount)) && At(data, 4, U32(0));
    hide At, DecodeAllocator;
    assert OverflowAt(data, 0, TooManyAddresses(blockCount, 0));
    DecodeAllocatorOverrunIff(data, 0);
  }
}
