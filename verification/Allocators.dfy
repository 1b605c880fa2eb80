/** The layout of the buddy allocator's state on disk, and the decoder for it. */
module Allocators {
  import opened Bytes

  /** What reading a counted list gives: too few bytes, more elements than memory holds, or a value. */
  datatype Parsed<+T> = Parsed(value: T, next: nat) | Short | Overrun {
    predicate IsFailure() { !Parsed? }

    function PropagateFailure<U>(): Parsed<U>
      requires !Parsed?
    { if Short? then Short else Overrun }

    function Extract(): (T, nat)
      requires Parsed?
    { (value, next) }
  }

  const TABLE_CAPACITY := 1024
  const DIRECTORY_CAPACITY := 256
  const FREE_LIST_CAPACITY := 256
  const FREE_LISTS := 32

  datatype NamedBlock = NamedBlock(name: seq<byte>, block: uint32)

  /** The serialized fields of an allocator. */
  datatype AllocatorImage = AllocatorImage(
    blockCount: uint32, unknown: uint32, addresses: seq<uint32>,
    directory: seq<NamedBlock>, freeLists: seq<seq<uint32>>)

  /**
    The number of addresses the reader expects. The subtraction of 1 wraps in 32 bits, the rest is done in
    64 bits.
   */
  function PaddedCount(blockCount: uint32): nat {
    blockCount + 256 - 1 - (blockCount - 1) % 0x1_0000_0000 % 256
  }

  /** It is the least multiple of 256 that is not below the block count, also for 0. */
  lemma PaddedCountLeast(blockCount: uint32, m: nat)
    requires m % 256 == 0 && blockCount <= m
    ensures PaddedCount(blockCount) % 256 == 0 && blockCount <= PaddedCount(blockCount) <= m
  {
    if blockCount == 0 {
      assert -1 % 0x1_0000_0000 == 0xFFFF_FFFF;
    } else {
      var q, r := (blockCount - 1) / 256, (blockCount - 1) % 256;
      assert blockCount == 256 * q + r + 1;
      assert PaddedCount(blockCount) == 256 * (q + 1);
      assert m == 256 * (m / 256);
    }
  }

  // ----- encoders -----

  function EncodeName(e: NamedBlock): (s: seq<byte>)
    requires |e.name| < 256
    ensures |s| == 5 + |e.name|
  {
    [|e.name|] + (e.name + U32(e.block))
  }

  predicate NamesFit(es: seq<NamedBlock>) {
    forall i :: 0 <= i < |es| ==> |es[i].name| < 256
  }

  function EncodeNames(es: seq<NamedBlock>): seq<byte>
    requires NamesFit(es)
  {
    if es == [] then [] else EncodeName(es[0]) + EncodeNames(es[1..])
  }

  predicate ListsFit(ls: seq<seq<uint32>>) {
    forall i :: 0 <= i < |ls| ==> |ls[i]| <= FREE_LIST_CAPACITY
  }

  function EncodeList(l: seq<uint32>): (s: seq<byte>)
    requires |l| <= FREE_LIST_CAPACITY
    ensures |s| == 4 + 4 * |l|
  {
    U32(|l|) + Words(l)
  }

  function EncodeLists(ls: seq<seq<uint32>>): seq<byte>
    requires ListsFit(ls)
  {
    if ls == [] then [] else EncodeList(ls[0]) + EncodeLists(ls[1..])
  }

  predicate Encodable(img: AllocatorImage) {
    && |img.directory| <= DIRECTORY_CAPACITY && NamesFit(img.directory)
    && |img.freeLists| == FREE_LISTS && ListsFit(img.freeLists)
  }

  function EncodeDirectory(es: seq<NamedBlock>): seq<byte>
    requires |es| <= DIRECTORY_CAPACITY && NamesFit(es)
  {
    U32(|es|) + EncodeNames(es)
  }

  function EncodeAllocator(img: AllocatorImage): (s: seq<byte>)
    requires Encodable(img)
    ensures |s| == 8 + 4 * |img.addresses| + |EncodeDirectory(img.directory)| + |EncodeLists(img.freeLists)|
  {
    U32(img.blockCount) + (U32(img.unknown) +
      (Words(img.addresses) + (EncodeDirectory(img.directory) + EncodeLists(img.freeLists))))
  }

  // ----- decoders -----

  function DecodeWord(data: seq<byte>, pos: nat): (r: Parsed<uint32>)
    ensures !r.Overrun?
  {
    match ReadU32(data, pos)
    case None => Short
    case Some(n) => Parsed(n, pos + 4)
  }

  function DecodeWords(data: seq<byte>, pos: nat, count: nat, capacity: nat): Parsed<seq<uint32>>
    decreases count
  {
    if count == 0 then Parsed([], pos)
    else if capacity == 0 then Overrun
    else
      var (w, next) :- DecodeWord(data, pos);
      var (ws, end) :- DecodeWords(data, next, count - 1, capacity - 1);
      Parsed([w] + ws, end)
  }

  function DecodeName(data: seq<byte>, pos: nat): Parsed<NamedBlock> {
    if pos >= |data| then Short
    else
      match ReadBytes(data, pos + 1, data[pos])
      case None => Short
      case Some(name) =>
        var (block, end) :- DecodeWord(data, pos + 1 + |name|);
        Parsed(NamedBlock(name, block), end)
  }

  /** Behind the buffer, an entry is stored as soon as there is a byte for its count; without one nothing is. */
  function DecodeNames(data: seq<byte>, pos: nat, count: nat, capacity: nat): Parsed<seq<NamedBlock>>
    decreases count
  {
    if count == 0 then Parsed([], pos)
    else if capacity == 0 then if pos < |data| then Overrun else Short
    else
      var (e, next) :- DecodeName(data, pos);
      var (es, end) :- DecodeNames(data, next, count - 1, capacity - 1);
      Parsed([e] + es, end)
  }

  function DecodeDirectory(data: seq<byte>, pos: nat): Parsed<seq<NamedBlock>> {
    var (count, next) :- DecodeWord(data, pos);
    DecodeNames(data, next, count, DIRECTORY_CAPACITY)
  }

  function DecodeList(data: seq<byte>, pos: nat): Parsed<seq<uint32>> {
    var (count, next) :- DecodeWord(data, pos);
    DecodeWords(data, next, count, FREE_LIST_CAPACITY)
  }

  function DecodeLists(data: seq<byte>, pos: nat, count: nat): Parsed<seq<seq<uint32>>>
    decreases count
  {
    if count == 0 then Parsed([], pos)
    else
      var (l, next) :- DecodeList(data, pos);
      var (ls, end) :- DecodeLists(data, next, count - 1);
      Parsed([l] + ls, end)
  }

  function DecodeAllocator(data: seq<byte>, pos: nat): Parsed<AllocatorImage> {
    var (blockCount, p1) :- DecodeWord(data, pos);
    var (unknown, p2) :- DecodeWord(data, p1);
    var (addresses, p3) :- DecodeWords(data, p2, PaddedCount(blockCount), TABLE_CAPACITY);
    var (directory, p4) :- DecodeDirectory(data, p3);
    var (freeLists, p5) :- DecodeLists(data, p4, FREE_LISTS);
    Parsed(AllocatorImage(blockCount, unknown, addresses, directory, freeLists), p5)
  }

  // ----- each decoder accepts exactly the encodings -----

  lemma DecodeWordIff(data: seq<byte>, pos: nat, w: uint32, next: nat)
    ensures DecodeWord(data, pos) == Parsed(w, next) <==> At(data, pos, U32(w)) && next == pos + 4
  {
  }

  lemma DecodeWordSound(data: seq<byte>, pos: nat)
    requires DecodeWord(data, pos).Parsed?
    ensures At(data, pos, U32(DecodeWord(data, pos).value))
    ensures DecodeWord(data, pos).next == pos + 4 <= |data|
  {
  }

  lemma {:induction false} DecodeWordsSound(data: seq<byte>, pos: nat, count: nat, capacity: nat)
    requires pos <= |data| && DecodeWords(data, pos, count, capacity).Parsed?
    ensures var r := DecodeWords(data, pos, count, capacity);
      |r.value| == count <= capacity && At(data, pos, Words(r.value)) && r.next == pos + 4 * count
    decreases count
  {
    if count > 0 {
      hide At, DecodeWord;
      DecodeWordSound(data, pos);
      DecodeWordsSound(data, pos + 4, count - 1, capacity - 1);
      var w, rest := DecodeWord(data, pos).value, DecodeWords(data, pos + 4, count - 1, capacity - 1).value;
      AtConcat(data, pos, U32(w), Words(rest));
      assert ([w] + rest)[1..] == rest;
    }
  }

  lemma {:induction false} DecodeWordsComplete(data: seq<byte>, pos: nat, capacity: nat, ws: seq<uint32>)
    requires |ws| <= capacity && At(data, pos, Words(ws))
    ensures DecodeWords(data, pos, |ws|, capacity) == Parsed(ws, pos + 4 * |ws|)
    decreases ws
  {
    if ws != [] {
      hide At, DecodeWord;
      AtConcat(data, pos, U32(ws[0]), Words(ws[1..]));
      DecodeWordIff(data, pos, ws[0], pos + 4);
      DecodeWordsComplete(data, pos + 4, capacity - 1, ws[1..]);
      assert ws == [ws[0]] + ws[1..];
    }
  }

  /** A list overruns its buffer exactly when it announces too many words and the file has enough to fill it. */
  lemma {:induction false} DecodeWordsOverrunIff(data: seq<byte>, pos: nat, count: nat, capacity: nat)
    requires pos <= |data|
    ensures DecodeWords(data, pos, count, capacity).Overrun? <==> count > capacity && pos + 4 * capacity <= |data|
    decreases count
  {
    if count > 0 && capacity > 0 && DecodeWord(data, pos).Parsed? {
      hide ReadU32;
      DecodeWordSound(data, pos);
      DecodeWordsOverrunIff(data, pos + 4, count - 1, capacity - 1);
    }
  }

  /** The addresses stay inside their table for up to 1024 blocks, and leave it for more if the file goes on. */
  lemma AddressesOverrunIff(data: seq<byte>, pos: nat, blockCount: uint32)
    requires pos <= |data|
    ensures DecodeWords(data, pos, PaddedCount(blockCount), TABLE_CAPACITY).Overrun?
       <==> blockCount > 1024 && pos + 4096 <= |data|
  {
    hide DecodeWords, PaddedCount;
    DecodeWordsOverrunIff(data, pos, PaddedCount(blockCount), TABLE_CAPACITY);
    PaddedCountLeast(blockCount, PaddedUp(blockCount));
    if blockCount <= TABLE_CAPACITY {
      PaddedCountLeast(blockCount, TABLE_CAPACITY);
    }
  }

  function PaddedUp(blockCount: uint32): (m: nat)
    ensures m % 256 == 0 && blockCount <= m
  {
    (blockCount as int + 255) / 256 * 256
  }

  lemma NameBytes(data: seq<byte>, pos: nat, e: NamedBlock)
    requires |e.name| < 256
    ensures At(data, pos, EncodeName(e))
       <==> && At(data, pos, [|e.name|]) && At(data, pos + 1, e.name)
            && At(data, pos + 1 + |e.name|, U32(e.block))
  {
    hide At;
    AtConcat(data, pos, [|e.name|], e.name + U32(e.block));
    AtConcat(data, pos + 1, e.name, U32(e.block));
  }

  lemma DecodeNameSound(data: seq<byte>, pos: nat)
    requires DecodeName(data, pos).Parsed?
    ensures var r := DecodeName(data, pos);
      |r.value.name| < 256 && At(data, pos, EncodeName(r.value)) && r.next == pos + 5 + |r.value.name| <= |data|
  {
    hide EncodeName;
    var e := DecodeName(data, pos).value;
    NameBytes(data, pos, e);
    DecodeWordSound(data, pos + 1 + |e.name|);
    assert data[pos..pos + 1] == [data[pos]];
  }

  lemma DecodeNameComplete(data: seq<byte>, pos: nat, e: NamedBlock)
    requires |e.name| < 256 && At(data, pos, EncodeName(e))
    ensures DecodeName(data, pos) == Parsed(e, pos + 5 + |e.name|)
  {
    hide EncodeName;
    NameBytes(data, pos, e);
    assert data[pos] == data[pos..pos + 1][0];
    DecodeWordIff(data, pos + 1 + |e.name|, e.block, pos + 5 + |e.name|);
  }

  lemma {:induction false} DecodeNamesParts(data: seq<byte>, pos: nat, count: nat, capacity: nat)
    returns (e: Parsed<NamedBlock>)
    requires count > 0 && DecodeNames(data, pos, count, capacity).Parsed?
    ensures capacity > 0 && e == DecodeName(data, pos) && e.Parsed?
    ensures var r := DecodeNames(data, e.next, count - 1, capacity - 1);
      r.Parsed? && DecodeNames(data, pos, count, capacity) == Parsed([e.value] + r.value, r.next)
  {
    hide DecodeName;
    e := DecodeName(data, pos);
  }

  lemma NamesFitCons(e: NamedBlock, es: seq<NamedBlock>)
    requires |e.name| < 256 && NamesFit(es)
    ensures NamesFit([e] + es)
  {
  }

  lemma {:induction false} DecodeNamesSound(data: seq<byte>, pos: nat, count: nat, capacity: nat)
    requires pos <= |data| && DecodeNames(data, pos, count, capacity).Parsed?
    ensures var r := DecodeNames(data, pos, count, capacity);
      |r.value| == count <= capacity && NamesFit(r.value)
      && At(data, pos, EncodeNames(r.value)) && r.next == pos + |EncodeNames(r.value)|
    decreases count
  {
    if count > 0 {
      hide At, DecodeName, DecodeNames, EncodeName, NamesFit;
      var e := DecodeNamesParts(data, pos, count, capacity);
      DecodeNameSound(data, pos);
      var rest := DecodeNames(data, e.next, count - 1, capacity - 1).value;
      DecodeNamesSound(data, e.next, count - 1, capacity - 1);
      AtConcat(data, pos, EncodeName(e.value), EncodeNames(rest));
      NamesFitCons(e.value, rest);
      assert ([e.value] + rest)[1..] == rest;
    }
  }

  lemma {:induction false} DecodeNamesStep(
    data: seq<byte>, pos: nat, capacity: nat, e: NamedBlock, next: nat, rest: seq<NamedBlock>, end: nat)
    requires capacity > 0 && DecodeName(data, pos) == Parsed(e, next)
    requires DecodeNames(data, next, |rest|, capacity - 1) == Parsed(rest, end)
    ensures DecodeNames(data, pos, |rest| + 1, capacity) == Parsed([e] + rest, end)
  {
    hide DecodeName;
  }

  lemma NamesFitTail(es: seq<NamedBlock>)
    requires NamesFit(es) && es != []
    ensures |es[0].name| < 256 && NamesFit(es[1..])
  {
  }

  lemma {:induction false} DecodeNamesComplete(data: seq<byte>, pos: nat, capacity: nat, es: seq<NamedBlock>)
    requires |es| <= capacity && NamesFit(es) && At(data, pos, EncodeNames(es))
    ensures DecodeNames(data, pos, |es|, capacity) == Parsed(es, pos + |EncodeNames(es)|)
    decreases es
  {
    hide At, DecodeName, EncodeName, NamesFit;
    if es != [] {
      hide DecodeNames;
      var e, rest := es[0], es[1..];
      NamesFitTail(es);
      AtConcat(data, pos, EncodeName(e), EncodeNames(rest));
      DecodeNameComplete(data, pos, e);
      var next := pos + 5 + |e.name|;
      DecodeNamesComplete(data, next, capacity - 1, rest);
      DecodeNamesStep(data, pos, capacity, e, next, rest, next + |EncodeNames(rest)|);
      assert es == [e] + rest;
    }
  }

  /**
    The directory overruns its buffer exactly when it announces more entries than fit, the file holds as many
    as fit, and it goes on behind them. A file that ends there is refused: no byte is read, so none is stored.
   */
  lemma {:induction false} DecodeNamesOverrunIff(data: seq<byte>, pos: nat, count: nat, capacity: nat)
    ensures DecodeNames(data, pos, count, capacity).Overrun?
       <==> && count > capacity && DecodeNames(data, pos, capacity, capacity).Parsed?
            && DecodeNames(data, pos, capacity, capacity).next < |data|
    decreases count
  {
    if capacity == 0 {
    } else if count > 0 {
      hide DecodeName;
      NeverOverruns(data, pos);
      if DecodeName(data, pos).Parsed? {
        DecodeNamesOverrunIff(data, DecodeName(data, pos).next, count - 1, capacity - 1);
      }
    }
  }

  lemma NeverOverruns(data: seq<byte>, pos: nat)
    ensures !DecodeName(data, pos).Overrun?
  {
  }

  lemma DecodeDirectorySound(data: seq<byte>, pos: nat)
    requires DecodeDirectory(data, pos).Parsed?
    ensures var r := DecodeDirectory(data, pos);
      |r.value| <= DIRECTORY_CAPACITY && NamesFit(r.value)
      && At(data, pos, EncodeDirectory(r.value)) && r.next == pos + |EncodeDirectory(r.value)| <= |data|
  {
    hide DecodeWord, DecodeNames;
    var count := DecodeWord(data, pos).value;
    DecodeWordSound(data, pos);
    DecodeNamesSound(data, pos + 4, count, DIRECTORY_CAPACITY);
    AtConcat(data, pos, U32(count), EncodeNames(DecodeDirectory(data, pos).value));
  }

  lemma DecodeDirectoryComplete(data: seq<byte>, pos: nat, es: seq<NamedBlock>)
    requires |es| <= DIRECTORY_CAPACITY && NamesFit(es) && At(data, pos, EncodeDirectory(es))
    ensures DecodeDirectory(data, pos) == Parsed(es, pos + |EncodeDirectory(es)|)
  {
    hide At, DecodeWord, DecodeNames, NamesFit;
    AtConcat(data, pos, U32(|es|), EncodeNames(es));
    DecodeWordIff(data, pos, |es|, pos + 4);
    DecodeNamesComplete(data, pos + 4, DIRECTORY_CAPACITY, es);
  }

  lemma DecodeListSound(data: seq<byte>, pos: nat)
    requires DecodeList(data, pos).Parsed?
    ensures var r := DecodeList(data, pos);
      |r.value| <= FREE_LIST_CAPACITY && At(data, pos, EncodeList(r.value))
      && r.next == pos + |EncodeList(r.value)| <= |data|
  {
    hide DecodeWord, DecodeWords;
    var count := DecodeWord(data, pos).value;
    DecodeWordSound(data, pos);
    DecodeWordsSound(data, pos + 4, count, FREE_LIST_CAPACITY);
    AtConcat(data, pos, U32(count), Words(DecodeList(data, pos).value));
  }

  lemma DecodeListComplete(data: seq<byte>, pos: nat, l: seq<uint32>)
    requires |l| <= FREE_LIST_CAPACITY && At(data, pos, EncodeList(l))
    ensures DecodeList(data, pos) == Parsed(l, pos + |EncodeList(l)|)
  {
    hide At, DecodeWord, DecodeWords;
    AtConcat(data, pos, U32(|l|), Words(l));
    DecodeWordIff(data, pos, |l|, pos + 4);
    DecodeWordsComplete(data, pos + 4, FREE_LIST_CAPACITY, l);
  }

  lemma {:induction false} DecodeListsParts(data: seq<byte>, pos: nat, count: nat) returns (l: Parsed<seq<uint32>>)
    requires count > 0 && DecodeLists(data, pos, count).Parsed?
    ensures l == DecodeList(data, pos) && l.Parsed?
    ensures var r := DecodeLists(data, l.next, count - 1);
      r.Parsed? && DecodeLists(data, pos, count) == Parsed([l.value] + r.value, r.next)
  {
    hide DecodeList;
    l := DecodeList(data, pos);
  }

  lemma ListsFitCons(l: seq<uint32>, ls: seq<seq<uint32>>)
    requires |l| <= FREE_LIST_CAPACITY && ListsFit(ls)
    ensures ListsFit([l] + ls)
  {
  }

  lemma {:induction false} DecodeListsSound(data: seq<byte>, pos: nat, count: nat)
    requires pos <= |data| && DecodeLists(data, pos, count).Parsed?
    ensures var r := DecodeLists(data, pos, count);
      |r.value| == count && ListsFit(r.value)
      && At(data, pos, EncodeLists(r.value)) && r.next == pos + |EncodeLists(r.value)|
    decreases count
  {
    if count > 0 {
      hide At, DecodeList, DecodeLists, EncodeList, ListsFit;
      var l := DecodeListsParts(data, pos, count);
      DecodeListSound(data, pos);
      var rest := DecodeLists(data, l.next, count - 1).value;
      DecodeListsSound(data, l.next, count - 1);
      AtConcat(data, pos, EncodeList(l.value), EncodeLists(rest));
      ListsFitCons(l.value, rest);
      assert ([l.value] + rest)[1..] == rest;
    }
  }

  lemma {:induction false} DecodeListsStep(
    data: seq<byte>, pos: nat, l: seq<uint32>, next: nat, rest: seq<seq<uint32>>, end: nat)
    requires DecodeList(data, pos) == Parsed(l, next) && DecodeLists(data, next, |rest|) == Parsed(rest, end)
    ensures DecodeLists(data, pos, |rest| + 1) == Parsed([l] + rest, end)
  {
    hide DecodeList;
  }

  lemma ListsFitTail(ls: seq<seq<uint32>>)
    requires ListsFit(ls) && ls != []
    ensures |ls[0]| <= FREE_LIST_CAPACITY && ListsFit(ls[1..])
  {
  }

  lemma {:induction false} DecodeListsComplete(data: seq<byte>, pos: nat, ls: seq<seq<uint32>>)
    requires ListsFit(ls) && At(data, pos, EncodeLists(ls))
    ensures DecodeLists(data, pos, |ls|) == Parsed(ls, pos + |EncodeLists(ls)|)
    decreases |ls|
  {
    hide At, DecodeList, EncodeList, ListsFit;
    if ls != [] {
      hide DecodeLists;
      var l, rest := ls[0], ls[1..];
      ListsFitTail(ls);
      AtConcat(data, pos, EncodeList(l), EncodeLists(rest));
      DecodeListComplete(data, pos, l);
      var next := pos + 4 + 4 * |l|;
      DecodeListsComplete(data, next, rest);
      DecodeListsStep(data, pos, l, next, rest, next + |EncodeLists(rest)|);
      assert ls == [l] + rest;
    }
  }

  lemma AllocatorBytes(data: seq<byte>, pos: nat, img: AllocatorImage)
    requires Encodable(img)
    ensures var p := pos + 8 + 4 * |img.addresses|;
      At(data, pos, EncodeAllocator(img))
      <==> && At(data, pos, U32(img.blockCount)) && At(data, pos + 4, U32(img.unknown))
           && At(data, pos + 8, Words(img.addresses))
           && At(data, p, EncodeDirectory(img.directory))
           && At(data, p + |EncodeDirectory(img.directory)|, EncodeLists(img.freeLists))
  {
    hide At, EncodeDirectory, EncodeLists, Words;
    var lists := EncodeLists(img.freeLists);
    var tail := EncodeDirectory(img.directory) + lists;
    AtConcat(data, pos, U32(img.blockCount), U32(img.unknown) + (Words(img.addresses) + tail));
    AtConcat(data, pos + 4, U32(img.unknown), Words(img.addresses) + tail);
    AtConcat(data, pos + 8, Words(img.addresses), tail);
    AtConcat(data, pos + 8 + 4 * |img.addresses|, EncodeDirectory(img.directory), lists);
  }

  /** An image that the reader accepts: everything fits in memory, and the address list is padded. */
  predicate ImageFits(img: AllocatorImage) {
    Encodable(img) && |img.addresses| == PaddedCount(img.blockCount) <= TABLE_CAPACITY
  }

  lemma DecodeAllocatorSound(data: seq<byte>, pos: nat)
    requires DecodeAllocator(data, pos).Parsed?
    ensures var r := DecodeAllocator(data, pos);
      ImageFits(r.value) && At(data, pos, EncodeAllocator(r.value)) && r.next == pos + |EncodeAllocator(r.value)|
  {
    hide At, DecodeWord, DecodeWords, DecodeDirectory, DecodeLists, EncodeDirectory, EncodeLists, Words, PaddedCount;
    var img := DecodeAllocator(data, pos).value;
    DecodeWordSound(data, pos);
    DecodeWordSound(data, pos + 4);
    DecodeWordsSound(data, pos + 8, PaddedCount(img.blockCount), TABLE_CAPACITY);
    var p := pos + 8 + 4 * |img.addresses|;
    DecodeDirectorySound(data, p);
    DecodeListsSound(data, p + |EncodeDirectory(img.directory)|, FREE_LISTS);
    AllocatorBytes(data, pos, img);
  }

  lemma DecodeAllocatorComplete(data: seq<byte>, pos: nat, img: AllocatorImage)
    requires ImageFits(img) && At(data, pos, EncodeAllocator(img))
    ensures DecodeAllocator(data, pos) == Parsed(img, pos + |EncodeAllocator(img)|)
  {
    hide At, DecodeWord, DecodeWords, DecodeDirectory, DecodeLists, EncodeDirectory, EncodeLists, Words, PaddedCount;
    AllocatorBytes(data, pos, img);
    DecodeWordIff(data, pos, img.blockCount, pos + 4);
    DecodeWordIff(data, pos + 4, img.unknown, pos + 8);
    DecodeWordsComplete(data, pos + 8, TABLE_CAPACITY, img.addresses);
    var p := pos + 8 + 4 * |img.addresses|;
    DecodeDirectoryComplete(data, p, img.directory);
    DecodeListsComplete(data, p + |EncodeDirectory(img.directory)|, img.freeLists);
  }

  /** The reader accepts exactly the encodings of images that fit, and consumes exactly their bytes. */
  lemma DecodeAllocatorIff(data: seq<byte>, pos: nat, img: AllocatorImage, next: nat)
    ensures DecodeAllocator(data, pos) == Parsed(img, next)
       <==> ImageFits(img) && At(data, pos, EncodeAllocator(img)) && next == pos + |EncodeAllocator(img)|
  {
    hide DecodeAllocator, EncodeAllocator, At, Encodable;
    if DecodeAllocator(data, pos) == Parsed(img, next) {
      DecodeAllocatorSound(data, pos);
    }
    if ImageFits(img) && At(data, pos, EncodeAllocator(img)) {
      DecodeAllocatorComplete(data, pos, img);
    }
  }
}
