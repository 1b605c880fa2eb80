/** What opening and enumerating report of a file that was cut off anywhere. */
module StoreTruncation {
  import opened Bytes
  import opened Trees
  import opened Walks
  import opened Truncation
  import opened Allocators
  import opened AllocatorStates
  import opened Headers
  import opened Stores

  /** Reading from a prefix of the file gives `p` where the whole file gives `q`. */
  predicate CutOff<T(==)>(p: Parsed<T>, q: Parsed<T>) { p.Short? || p == q }

  lemma WordCutOff(short: seq<byte>, data: seq<byte>, pos: nat)
    requires short <= data
    ensures CutOff(DecodeWord(short, pos), DecodeWord(data, pos))
  {
    if DecodeWord(short, pos).Parsed? {
      DecodeWordSound(short, pos);
      AtExtend(short, data, pos, U32(DecodeWord(short, pos).value));
    }
  }

  lemma {:induction false} WordsCutOff(short: seq<byte>, data: seq<byte>, pos: nat, count: nat, capacity: nat)
    requires short <= data
    ensures CutOff(DecodeWords(short, pos, count, capacity), DecodeWords(data, pos, count, capacity))
    decreases count
  {
    hide DecodeWord;
    if count > 0 && capacity > 0 {
      WordCutOff(short, data, pos);
      if DecodeWord(short, pos).Parsed? {
        WordsCutOff(short, data, DecodeWord(short, pos).next, count - 1, capacity - 1);
      }
    }
  }

  lemma NameCutOff(short: seq<byte>, data: seq<byte>, pos: nat)
    requires short <= data
    ensures CutOff(DecodeName(short, pos), DecodeName(data, pos))
  {
    NeverOverruns(short, pos);
    if DecodeName(short, pos).Parsed? {
      hide DecodeName;
      DecodeNameSound(short, pos);
      var e := DecodeName(short, pos).value;
      AtExtend(short, data, pos, EncodeName(e));
      DecodeNameComplete(data, pos, e);
    }
  }

  lemma {:induction false} NamesCutOff(short: seq<byte>, data: seq<byte>, pos: nat, count: nat, capacity: nat)
    requires short <= data
    ensures CutOff(DecodeNames(short, pos, count, capacity), DecodeNames(data, pos, count, capacity))
    decreases count
  {
    hide DecodeName;
    if count > 0 && capacity > 0 {
      NameCutOff(short, data, pos);
      if DecodeName(short, pos).Parsed? {
        NamesCutOff(short, data, DecodeName(short, pos).next, count - 1, capacity - 1);
      }
    }
  }

  lemma DirectoryCutOff(short: seq<byte>, data: seq<byte>, pos: nat)
    requires short <= data
    ensures CutOff(DecodeDirectory(short, pos), DecodeDirectory(data, pos))
  {
    hide DecodeWord, DecodeNames;
    WordCutOff(short, data, pos);
    if DecodeWord(short, pos).Parsed? {
      var w := DecodeWord(short, pos);
      NamesCutOff(short, data, w.next, w.value, DIRECTORY_CAPACITY);
    }
  }

  lemma ListCutOff(short: seq<byte>, data: seq<byte>, pos: nat)
    requires short <= data
    ensures CutOff(DecodeList(short, pos), DecodeList(data, pos))
  {
    hide DecodeWord, DecodeWords;
    WordCutOff(short, data, pos);
    if DecodeWord(short, pos).Parsed? {
      var w := DecodeWord(short, pos);
      WordsCutOff(short, data, w.next, w.value, FREE_LIST_CAPACITY);
    }
  }

  lemma {:induction false} ListsCutOff(short: seq<byte>, data: seq<byte>, pos: nat, count: nat)
    requires short <= data
    ensures CutOff(DecodeLists(short, pos, count), DecodeLists(data, pos, count))
    decreases count
  {
    hide DecodeList;
    if count > 0 {
      ListCutOff(short, data, pos);
      if DecodeList(short, pos).Parsed? {
        ListsCutOff(short, data, DecodeList(short, pos).next, count - 1);
      }
    }
  }

  /** A truncated file gives the same allocator, or the same overrun, or it is too short. */
  lemma AllocatorCutOff(short: seq<byte>, data: seq<byte>, pos: nat)
    requires short <= data
    ensures CutOff(DecodeAllocator(short, pos), DecodeAllocator(data, pos))
  {
    hide DecodeWord, DecodeWords, DecodeDirectory, DecodeLists, PaddedCount;
    WordCutOff(short, data, pos);
    if DecodeWord(short, pos).Parsed? {
      var count := DecodeWord(short, pos);
      WordCutOff(short, data, count.next);
      if DecodeWord(short, count.next).Parsed? {
        var p2 := DecodeWord(short, count.next).next;
        WordsCutOff(short, data, p2, PaddedCount(count.value), TABLE_CAPACITY);
        var words := DecodeWords(short, p2, PaddedCount(count.value), TABLE_CAPACITY);
        if words.Parsed? {
          DirectoryCutOff(short, data, words.next);
          if DecodeDirectory(short, words.next).Parsed? {
            ListsCutOff(short, data, DecodeDirectory(short, words.next).next, FREE_LISTS);
          }
        }
      }
    }
  }

  lemma HeaderCutOff(short: seq<byte>, data: seq<byte>, pos: nat)
    requires short <= data && DecodeHeader(short, pos).Some?
    ensures DecodeHeader(data, pos) == DecodeHeader(short, pos)
  {
    hide DecodeHeader, EncodeHeader;
    var (h, next) := DecodeHeader(short, pos).value;
    DecodeHeaderIff(short, pos, h, next);
    AtExtend(short, data, pos, EncodeHeader(h));
    DecodeHeaderIff(data, pos, h, next);
  }

  lemma HeaderBlockCutOff(short: seq<byte>, data: seq<byte>, pos: nat)
    requires short <= data && DecodeHeaderBlock(short, pos).Some?
    ensures DecodeHeaderBlock(data, pos) == DecodeHeaderBlock(short, pos)
  {
    hide DecodeHeaderBlock, EncodeHeaderBlock;
    var hb := DecodeHeaderBlock(short, pos).value;
    DecodeHeaderBlockIff(short, pos, hb);
    AtExtend(short, data, pos, EncodeHeaderBlock(hb));
    DecodeHeaderBlockIff(data, pos, hb);
  }

  lemma OpenTreeCutOff(short: seq<byte>, data: seq<byte>, h: HeaderValue, s: AllocatorState)
    requires short <= data && s.Writable() && s.blockCount <= TABLE_CAPACITY
    ensures OpenTree(short, h, s).Rejected? || OpenTree(short, h, s) == OpenTree(data, h, s)
  {
    hide DecodeHeaderBlock, HeaderBlockNumber, BlockStart;
    var block := HeaderBlockNumber(s);
    if block < s.blockCount && DecodeHeaderBlock(short, BlockStart(s.addresses[block])).Some? {
      HeaderBlockCutOff(short, data, BlockStart(s.addresses[block]));
    }
  }

  lemma OpenStoreCutOff(short: seq<byte>, data: seq<byte>, stale: AllocatorState)
    requires short <= data && stale.Sized()
    ensures OpenStore(short, 0, stale).Rejected? || OpenStore(short, 0, stale) == OpenStore(data, 0, stale)
  {
    hide DecodeHeader, DecodeAllocator, OpenTree, Load, Encodable, At, EncodeAllocator;
    if DecodeHeader(short, 0).Some? {
      HeaderCutOff(short, data, 0);
      var h := DecodeHeader(short, 0).value.0;
      AllocatorCutOff(short, data, 4 + h.allocatorOffset);
      var r := DecodeAllocator(short, 4 + h.allocatorOffset);
      if r.Parsed? {
        DecodeAllocatorSound(short, 4 + h.allocatorOffset);
        LoadCounts(stale, r.value);
        OpenTreeCutOff(short, data, h, Load(stale, r.value));
      }
    }
  }

  /**
    Wherever a file is cut off, in its header, its allocator or its tree, opening and enumerating what is left
    either does exactly what it does with the whole file, or fails after reporting a prefix of its records.
   */
  lemma EnumerateTruncated(short: seq<byte>, data: seq<byte>, stale: AllocatorState, depth: nat)
    requires short <= data && stale.Sized()
    ensures CutShort(Enumerate(short, stale, depth), Enumerate(data, stale, depth))
  {
    hide OpenStore, WalkBlock;
    OpenStoreCutOff(short, data, stale);
    var r := OpenStore(short, 0, stale);
    if r.Opened? {
      BlockTruncated(short, data, LoadedOf(r.allocator, r.headerBlock), r.headerBlock.root, depth);
    }
  }
}
