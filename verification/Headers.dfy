/** The file header and the header block of the B-tree. */
module Headers {
  import opened Bytes
  import opened Files

  const BUD1: uint32 := 0x4275_6431
  const VERSION: uint32 := 1
  const PADDING_SIZE := 16
  const HEADER_SIZE := 36
  const PAGE_SIZE: uint32 := 0x1000

  datatype HeaderValue = HeaderValue(
    version: uint32, magic: uint32, allocatorOffset: uint32, allocatorSize: uint32, allocatorOffsetCheck: uint32,
    padding: seq<byte>)

  /** What the reader insists on. */
  predicate Acceptable(h: HeaderValue) {
    && h.version == VERSION && h.magic == BUD1
    && h.allocatorOffset == h.allocatorOffsetCheck && |h.padding| == PADDING_SIZE
  }

  function HeaderWords(h: HeaderValue): seq<uint32> {
    [h.version, h.magic, h.allocatorOffset, h.allocatorSize, h.allocatorOffsetCheck]
  }

  function EncodeHeader(h: HeaderValue): (s: seq<byte>)
    ensures |s| == 20 + |h.padding|
  {
    Words(HeaderWords(h)) + h.padding
  }

  function DecodeHeader(data: seq<byte>, pos: nat): Option<(HeaderValue, nat)> {
    var version :- ReadU32(data, pos);
    if version != VERSION then None else
    var magic :- ReadU32(data, pos + 4);
    if magic != BUD1 then None else
    var allocatorOffset :- ReadU32(data, pos + 8);
    var allocatorSize :- ReadU32(data, pos + 12);
    var check :- ReadU32(data, pos + 16);
    if allocatorOffset != check then None else
    var padding :- ReadBytes(data, pos + 20, PADDING_SIZE);
    Some((HeaderValue(version, magic, allocatorOffset, allocatorSize, check, padding), pos + HEADER_SIZE))
  }

  /** Five consecutive words. */
  lemma FiveWords(data: seq<byte>, pos: nat, a: uint32, b: uint32, c: uint32, d: uint32, e: uint32)
    ensures At(data, pos, Words([a, b, c, d, e]))
       <==> && At(data, pos, U32(a)) && At(data, pos + 4, U32(b)) && At(data, pos + 8, U32(c))
            && At(data, pos + 12, U32(d)) && At(data, pos + 16, U32(e))
  {
    hide At;
    AtConcat(data, pos, U32(a), Words([b, c, d, e]));
    AtConcat(data, pos + 4, U32(b), Words([c, d, e]));
    AtConcat(data, pos + 8, U32(c), Words([d, e]));
    AtConcat(data, pos + 12, U32(d), Words([e]));
    assert [a, b, c, d, e][1..] == [b, c, d, e];
    assert [b, c, d, e][1..] == [c, d, e];
    assert [c, d, e][1..] == [d, e];
    assert [d, e][1..] == [e];
    assert Words([e]) == U32(e) + [] == U32(e);
  }

  lemma HeaderBytes(data: seq<byte>, pos: nat, h: HeaderValue)
    ensures At(data, pos, EncodeHeader(h))
       <==> && At(data, pos, U32(h.version)) && At(data, pos + 4, U32(h.magic))
            && At(data, pos + 8, U32(h.allocatorOffset)) && At(data, pos + 12, U32(h.allocatorSize))
            && At(data, pos + 16, U32(h.allocatorOffsetCheck)) && At(data, pos + 20, h.padding)
  {
    hide At, Words;
    AtConcat(data, pos, Words(HeaderWords(h)), h.padding);
    FiveWords(data, pos, h.version, h.magic, h.allocatorOffset, h.allocatorSize, h.allocatorOffsetCheck);
  }

  /** The reader accepts exactly the encodings of acceptable headers. */
  lemma DecodeHeaderIff(data: seq<byte>, pos: nat, h: HeaderValue, next: nat)
    ensures DecodeHeader(data, pos) == Some((h, next))
       <==> Acceptable(h) && At(data, pos, EncodeHeader(h)) && next == pos + HEADER_SIZE
  {
    hide EncodeHeader, U32;
    HeaderBytes(data, pos, h);
    hide At;
    if Acceptable(h) && At(data, pos, EncodeHeader(h)) {
      PaddingRead(data, pos + 20, h.padding);
    }
  }

  lemma PaddingRead(data: seq<byte>, pos: nat, bs: seq<byte>)
    requires At(data, pos, bs)
    ensures ReadBytes(data, pos, |bs|) == Some(bs)
  {
  }

  class Header {
    var version: uint32
    var magic: uint32
    var allocatorOffset: uint32
    var allocatorSize: uint32
    var allocatorOffsetCheck: uint32
    const padding: array<byte>

    ghost predicate Valid()
    {
      padding.Length == PADDING_SIZE
    }

    function Value(): HeaderValue
      reads this, padding
    {
      HeaderValue(version, magic, allocatorOffset, allocatorSize, allocatorOffsetCheck, padding[..])
    }

    /** A new header is one that the reader would accept, with no allocator yet. */
    constructor ()
      ensures Valid() && fresh(padding) && Acceptable(Value()) && allocatorOffset == 0 && allocatorSize == 0
    {
      version, magic := VERSION, BUD1;
      allocatorOffset, allocatorSize, allocatorOffsetCheck := 0, 0, 0;
      padding := new byte[PADDING_SIZE];
    }

    method Fread(file: File) returns (status: int)
      requires Valid()
      modifies this, padding, file`pos
      ensures status == 0 <==> DecodeHeader(file.data, old(file.pos)).Some?
      ensures status == 0 ==> DecodeHeader(file.data, old(file.pos)) == Some((Value(), file.pos))
    {
      hide ReadU32;
      var n;
      n, version := file.FreadUint32();
      if n != 1 || version != VERSION { return 1; }
      var word;
      n, word := file.FreadUint32();
      if n != 1 { return 1; }
      magic := word;
      if magic != BUD1 { return 1; }
      n, allocatorOffset := file.FreadUint32();
      if n != 1 { return 1; }
      n, allocatorSize := file.FreadUint32();
      if n != 1 { return 1; }
      n, allocatorOffsetCheck := file.FreadUint32();
      if n != 1 { return 1; }
      if allocatorOffset != allocatorOffsetCheck { return 1; }
      var got := file.Read(padding.Length);
      forall i | 0 <= i < |got| { padding[i] := got[i]; }
      if |got| != padding.Length { return 1; }
      assert padding[..] == got;
      status := 0;
    }

    method Fwrite(file: File) returns (status: int)
      requires Valid()
      modifies file
      ensures status == 0
      ensures file.data == Overwrite(old(file.data), old(file.pos), EncodeHeader(Value()))
      ensures file.pos == old(file.pos) + HEADER_SIZE
    {
      hide Overwrite, U32;
      ghost var data, start := file.data, file.pos;
      file.FwriteUint32(version);
      file.FwriteUint32(magic);
      file.FwriteUint32(allocatorOffset);
      file.FwriteUint32(allocatorSize);
      file.FwriteUint32(allocatorOffsetCheck);
      OverwriteWords(data, start, version, magic, allocatorOffset, allocatorSize, allocatorOffsetCheck);
      file.Write(padding[..]);
      OverwriteTwice(data, start, Words(HeaderWords(Value())), padding[..]);
      status := 0;
    }
  }

  lemma OverwriteWords(data: seq<byte>, pos: nat, a: uint32, b: uint32, c: uint32, d: uint32, e: uint32)
    ensures var d1 := Overwrite(data, pos, U32(a));
      var d2 := Overwrite(d1, pos + 4, U32(b));
      var d3 := Overwrite(d2, pos + 8, U32(c));
      var d4 := Overwrite(d3, pos + 12, U32(d));
      Overwrite(d4, pos + 16, U32(e)) == Overwrite(data, pos, Words([a, b, c, d, e]))
  {
    hide Overwrite;
    OverwriteTwice(data, pos, U32(a), U32(b));
    OverwriteTwice(data, pos, U32(a) + U32(b), U32(c));
    OverwriteTwice(data, pos, U32(a) + U32(b) + U32(c), U32(d));
    OverwriteTwice(data, pos, U32(a) + U32(b) + U32(c) + U32(d), U32(e));
    FiveWordsBytes(a, b, c, d, e);
  }

  lemma FiveWordsBytes(a: uint32, b: uint32, c: uint32, d: uint32, e: uint32)
    ensures Words([a, b, c, d, e]) == U32(a) + U32(b) + U32(c) + U32(d) + U32(e)
  {
    var s := U32(a) + U32(b) + U32(c) + U32(d) + U32(e);
    assert s[0..4] == U32(a) && s[4..8] == U32(b) && s[8..12] == U32(c) && s[12..16] == U32(d) && s[16..20] == U32(e);
    FiveWords(s, 0, a, b, c, d, e);
    assert s[0..20] == s;
  }

  // ----- the header block -----

  datatype HeaderBlockValue = HeaderBlockValue(
    root: uint32, nodeLevels: uint32, recordCount: uint32, nodeCount: uint32, pageSize: uint32)

  function EncodeHeaderBlock(hb: HeaderBlockValue): seq<byte> {
    Words([hb.root, hb.nodeLevels, hb.recordCount, hb.nodeCount, hb.pageSize])
  }

  function DecodeHeaderBlock(data: seq<byte>, pos: nat): Option<HeaderBlockValue> {
    var root :- ReadU32(data, pos);
    var nodeLevels :- ReadU32(data, pos + 4);
    var recordCount :- ReadU32(data, pos + 8);
    var nodeCount :- ReadU32(data, pos + 12);
    var pageSize :- ReadU32(data, pos + 16);
    if pageSize != PAGE_SIZE then None
    else Some(HeaderBlockValue(root, nodeLevels, recordCount, nodeCount, pageSize))
  }

  lemma DecodeHeaderBlockIff(data: seq<byte>, pos: nat, hb: HeaderBlockValue)
    ensures DecodeHeaderBlock(data, pos) == Some(hb)
       <==> At(data, pos, EncodeHeaderBlock(hb)) && hb.pageSize == PAGE_SIZE
  {
    hide At, U32;
    FiveWords(data, pos, hb.root, hb.nodeLevels, hb.recordCount, hb.nodeCount, hb.pageSize);
  }

  class HeaderBlock {
    var root: uint32
    var nodeLevels: uint32
    var recordCount: uint32
    var nodeCount: uint32
    var pageSize: uint32

    /** Fresh memory; nothing is known about what it holds. */
    constructor () {
    }

    function Value(): HeaderBlockValue
      reads this
    {
      HeaderBlockValue(root, nodeLevels, recordCount, nodeCount, pageSize)
    }

    method Fread(file: File) returns (status: int)
      modifies this, file`pos
      ensures status == 0 <==> DecodeHeaderBlock(file.data, old(file.pos)).Some?
      ensures status == 0 ==> DecodeHeaderBlock(file.data, old(file.pos)) == Some(Value())
    {
      hide ReadU32;
      var n;
      n, root := file.FreadUint32();
      if n != 1 { return 1; }
      n, nodeLevels := file.FreadUint32();
      if n != 1 { return 1; }
      n, recordCount := file.FreadUint32();
      if n != 1 { return 1; }
      n, nodeCount := file.FreadUint32();
      if n != 1 { return 1; }
      n, pageSize := file.FreadUint32();
      if n != 1 { return 1; }
      status := if pageSize != PAGE_SIZE then 1 else 0;
    }
  }
}
