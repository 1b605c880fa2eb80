/**
  What files look like byte by byte: numbers, records and headers, spelled out with the bytes they consist of,
  and what the readers make of them.
 */
module Spellings {
  import opened Bytes
  import opened Records
  import opened Headers

  // ----- numbers -----

  /** The most significant byte comes first. */
  lemma BigEndian16(a: byte, b: byte)
    ensures var n := a as int * 256 + b as int;
      U16(n) == [a, b] && ReadU16([a, b], 0) == Some(n)
  {
    var n := a as int * 256 + b as int;
    U16Inverse(n, [a, b]);
    assert At([a, b], 0, U16(n));
  }

  lemma BigEndian32(a: byte, b: byte, c: byte, d: byte)
    ensures var n := a as int * 16777216 + b as int * 65536 + c as int * 256 + d as int;
      U32(n) == [a, b, c, d] && ReadU32([a, b, c, d], 0) == Some(n)
  {
    var n := a as int * 16777216 + b as int * 65536 + c as int * 256 + d as int;
    var s := [a, b, c, d];
    assert FromU32(s) == n;
    U32Inverse(n, s);
    hide U32;
    assert s[0..4] == s;
    assert At(s, 0, U32(n));
  }

  lemma BigEndian64(hi: uint32, lo: uint32)
    ensures U64(hi as int * 4294967296 + lo as int) == U32(hi) + U32(lo)
    ensures ReadU64(U32(hi) + U32(lo), 0) == Some(hi as int * 4294967296 + lo as int)
  {
    var n := hi as int * 4294967296 + lo as int;
    assert n / 4294967296 == hi && n % 4294967296 == lo;
    assert U64(n) == U32(hi) + U32(lo);
    hide U32, U64;
    assert At(U64(n), 0, U64(n));
  }

  /** Units and words stand in their order. */
  lemma {:induction false} UnitsInOrder(us: seq<uint16>, i: nat)
    requires i < |us|
    ensures Units(us)[2 * i..2 * i + 2] == U16(us[i])
  {
    hide U16;
    if i > 0 {
      UnitsInOrder(us[1..], i - 1);
      assert Units(us)[2 * i..2 * i + 2] == Units(us[1..])[2 * (i - 1)..2 * (i - 1) + 2];
    }
  }

  lemma {:induction false} WordsInOrder(ws: seq<uint32>, i: nat)
    requires i < |ws|
    ensures Words(ws)[4 * i..4 * i + 4] == U32(ws[i])
  {
    hide U32;
    if i > 0 {
      WordsInOrder(ws[1..], i - 1);
      assert Words(ws)[4 * i..4 * i + 4] == Words(ws[1..])[4 * (i - 1)..4 * (i - 1) + 4];
    }
  }

  // ----- records -----

  /** The bytes of a record: the name's units and their number, two codes, the payload. */
  function SpellRecord(name: seq<uint16>, recordType: uint32, code: seq<byte>, payload: seq<byte>): seq<byte>
    requires |name| < 0x1_0000_0000
  {
    U32(|name|) + Units(name) + U32(recordType) + code + payload
  }

  /** With this name, record type, code and payload, `d` is read, and nothing behind the payload. */
  ghost predicate Means(name: seq<uint16>, recordType: uint32, code: seq<byte>, payload: seq<byte>, d: Data)
    requires |name| < 0x1_0000_0000
  {
    forall rest: seq<byte> :: var bytes := SpellRecord(name, recordType, code, payload);
      DecodeRecord(bytes + rest, 0) == Some((RecordValue(name, recordType, d), |bytes|))
  }

  function Code(d: Data): (code: seq<byte>) {
    match d
    case Bool(_) => [0x62, 0x6F, 0x6F, 0x6C]
    case Comp(_) => [0x63, 0x6F, 0x6D, 0x70]
    case Dutc(_) => [0x64, 0x75, 0x74, 0x63]
    case Long(_) => [0x6C, 0x6F, 0x6E, 0x67]
    case Shor(_) => [0x73, 0x68, 0x6F, 0x72]
    case Type(_) => [0x74, 0x79, 0x70, 0x65]
    case Blob(_) => [0x62, 0x6C, 0x6F, 0x62]
    case Ustr(_) => [0x75, 0x73, 0x74, 0x72]
  }

  lemma CodeSpelled(d: Data)
    ensures U32(TypeCode(d)) == Code(d)
  {
    var c := Code(d);
    BigEndian32(c[0], c[1], c[2], c[3]);
  }

  lemma Spelled(r: RecordValue, lead: uint16, code: seq<byte>, payload: seq<byte>)
    requires RecordFits(r) && Code(r.data) == code && EncodeData(r.data, lead) == payload
    ensures Means(r.filename, r.recordType, code, payload, r.data)
  {
    CodeSpelled(r.data);
    hide DecodeRecord, TypeCode, EncodeData;
    var bytes := SpellRecord(r.filename, r.recordType, code, payload);
    assert EncodeRecord(r, lead) == bytes;
    forall rest
      ensures DecodeRecord(bytes + rest, 0) == Some((r, |bytes|))
    {
      DecodeInvertsEncode(r, lead, rest);
    }
  }

  /** The data type is the four letters of its name, and what it says about the payload. */
  lemma DataTypesSpelled(
    name: seq<uint16>, recordType: uint32, b: byte, n: uint64, w: uint32, lead: uint16, h: uint16,
    bs: seq<byte>, us: seq<uint16>)
    requires 0 < |name| < 0x1_0000_0000 && 0 < |bs| < 0x1_0000_0000 && 0 < |us| < 0x1_0000_0000
    ensures Means(name, recordType, [0x62, 0x6F, 0x6F, 0x6C], [b], Bool(b))
    ensures Means(name, recordType, [0x63, 0x6F, 0x6D, 0x70], U64(n), Comp(n))
    ensures Means(name, recordType, [0x64, 0x75, 0x74, 0x63], U64(n), Dutc(n))
    ensures Means(name, recordType, [0x6C, 0x6F, 0x6E, 0x67], U32(w), Long(w))
    ensures Means(name, recordType, [0x73, 0x68, 0x6F, 0x72], U16(lead) + U16(h), Shor(h))
    ensures Means(name, recordType, [0x74, 0x79, 0x70, 0x65], U32(w), Type(w))
    ensures Means(name, recordType, [0x62, 0x6C, 0x6F, 0x62], U32(|bs|) + bs, Blob(bs))
    ensures Means(name, recordType, [0x75, 0x73, 0x74, 0x72], U32(|us|) + Units(us), Ustr(us))
  {
    hide Means, U16, U32, U64, Units, TypeCode;
    Spelled(RecordValue(name, recordType, Bool(b)), 0, [0x62, 0x6F, 0x6F, 0x6C], [b]);
    Spelled(RecordValue(name, recordType, Comp(n)), 0, [0x63, 0x6F, 0x6D, 0x70], U64(n));
    Spelled(RecordValue(name, recordType, Dutc(n)), 0, [0x64, 0x75, 0x74, 0x63], U64(n));
    Spelled(RecordValue(name, recordType, Long(w)), 0, [0x6C, 0x6F, 0x6E, 0x67], U32(w));
    Spelled(RecordValue(name, recordType, Shor(h)), lead, [0x73, 0x68, 0x6F, 0x72], U16(lead) + U16(h));
    Spelled(RecordValue(name, recordType, Type(w)), 0, [0x74, 0x79, 0x70, 0x65], U32(w));
    Spelled(RecordValue(name, recordType, Blob(bs)), 0, [0x62, 0x6C, 0x6F, 0x62], U32(|bs|) + bs);
    Spelled(RecordValue(name, recordType, Ustr(us)), 0, [0x75, 0x73, 0x74, 0x72], U32(|us|) + Units(us));
  }

  predicate KnownCode(code: seq<byte>) {
    || code == [0x62, 0x6F, 0x6F, 0x6C] || code == [0x63, 0x6F, 0x6D, 0x70] || code == [0x64, 0x75, 0x74, 0x63]
    || code == [0x6C, 0x6F, 0x6E, 0x67] || code == [0x73, 0x68, 0x6F, 0x72] || code == [0x74, 0x79, 0x70, 0x65]
    || code == [0x62, 0x6C, 0x6F, 0x62] || code == [0x75, 0x73, 0x74, 0x72]
  }

  predicate CountedCode(code: seq<byte>) {
    code == [0x62, 0x6C, 0x6F, 0x62] || code == [0x75, 0x73, 0x74, 0x72]
  }

  /** Refused whatever follows: an empty name, a code that is none of the eight, an empty blob or string. */
  lemma RefusedSpelled(name: seq<uint16>, recordType: uint32, code: seq<byte>, rest: seq<byte>)
    requires |name| < 0x1_0000_0000 && |code| == 4
    requires name == [] || !KnownCode(code) || (CountedCode(code) && [0, 0, 0, 0] <= rest)
    ensures DecodeRecord(SpellRecord(name, recordType, code, rest), 0) == None
  {
    var data := SpellRecord(name, recordType, code, rest);
    var mid := 8 + 2 * |name|;
    RecordParts(name, recordType, code, rest);
    var dataType := FromU32(code);
    U32Inverse(dataType, code);
    ReadUnitsAt(data, 4, name);
    hide At, U32, SpellRecord, FromU32;
    if name != [] {
      assert DecodeKey(data, 0) == Some((name, recordType, dataType));
      if !KnownCode(code) {
        UnknownCode(dataType);
      } else {
        assert At(data, mid + 4, [0, 0, 0, 0]) by { AtBeginning(data, mid + 4, rest); }
        EmptyCounted(data, mid + 4, dataType);
      }
    }
  }

  lemma AtBeginning(data: seq<byte>, pos: nat, rest: seq<byte>)
    requires At(data, pos, rest) && [0, 0, 0, 0] <= rest
    ensures At(data, pos, [0, 0, 0, 0])
  {
    assert rest == [0, 0, 0, 0] + rest[4..];
    AtConcat(data, pos, [0, 0, 0, 0], rest[4..]);
  }

  lemma EmptyCounted(data: seq<byte>, pos: nat, dataType: uint32)
    requires CountedCode(U32(dataType)) && At(data, pos, [0, 0, 0, 0])
    ensures DecodeData(data, pos, dataType) == None
  {
    BigEndian32(0, 0, 0, 0);
    assert ReadU32(data, pos) == Some(0);
    U32Inverse(dataType, U32(dataType));
    CodeSpelled(Blob([]));
    CodeSpelled(Ustr([]));
    U32Inverse(BLOB, U32(dataType));
    U32Inverse(USTR, U32(dataType));
    hide U32, At, FromU32;
  }

  lemma UnknownCode(dataType: uint32)
    requires !KnownCode(U32(dataType))
    ensures forall d :: TypeCode(d) != dataType
  {
    hide U32, TypeCode;
    forall d | TypeCode(d) == dataType
      ensures false
    {
      CodeSpelled(d);
    }
  }

  lemma RecordParts(name: seq<uint16>, recordType: uint32, code: seq<byte>, payload: seq<byte>)
    requires |name| < 0x1_0000_0000 && |code| == 4
    ensures var data, mid := SpellRecord(name, recordType, code, payload), 8 + 2 * |name|;
      && At(data, 0, U32(|name|)) && At(data, 4, Units(name)) && At(data, mid - 4, U32(recordType))
      && At(data, mid, code) && At(data, mid + 4, payload)
  {
    var data := SpellRecord(name, recordType, code, payload);
    hide U32, Units, At;
    FivePartsAt(U32(|name|), Units(name), U32(recordType), code, payload);
  }

  lemma FivePartsAt(a: seq<byte>, b: seq<byte>, c: seq<byte>, d: seq<byte>, e: seq<byte>)
    ensures var data := a + b + c + d + e;
      && At(data, 0, a) && At(data, |a|, b) && At(data, |a| + |b|, c) && At(data, |a| + |b| + |c|, d)
      && At(data, |a| + |b| + |c| + |d|, e)
  {
    var data := a + b + c + d + e;
    assert At(data, 0, data);
    hide At;
    AtConcat(data, 0, a + b + c + d, e);
    AtConcat(data, 0, a + b + c, d);
    AtConcat(data, 0, a + b, c);
    AtConcat(data, 0, a, b);
  }

  // ----- file header and header block -----

  /** Version 1, "Bud1", the allocator's offset, its size, the same offset again, sixteen bytes. */
  lemma HeaderSpelled(data: seq<byte>, pos: nat)
    ensures DecodeHeader(data, pos).Some?
       <==> && pos + 36 <= |data|
            && data[pos..pos + 4] == [0, 0, 0, 1] && data[pos + 4..pos + 8] == [0x42, 0x75, 0x64, 0x31]
            && data[pos + 8..pos + 12] == data[pos + 16..pos + 20]
    ensures DecodeHeader(data, pos).Some? ==> var h := DecodeHeader(data, pos).value.0;
      && data[pos + 8..pos + 12] == U32(h.allocatorOffset) && data[pos + 12..pos + 16] == U32(h.allocatorSize)
      && data[pos + 20..pos + 36] == h.padding
  {
    BigEndian32(0, 0, 0, 1);
    BigEndian32(0x42, 0x75, 0x64, 0x31);
    hide U32, FromU32;
  }

  /** The root's number, three numbers that nobody looks at, and the page size 4096. */
  lemma HeaderBlockSpelled(data: seq<byte>, pos: nat)
    ensures DecodeHeaderBlock(data, pos).Some? <==> pos + 20 <= |data| && data[pos + 16..pos + 20] == [0, 0, 0x10, 0]
    ensures DecodeHeaderBlock(data, pos).Some? ==> var hb := DecodeHeaderBlock(data, pos).value;
      && data[pos..pos + 4] == U32(hb.root) && data[pos + 4..pos + 8] == U32(hb.nodeLevels)
      && data[pos + 8..pos + 12] == U32(hb.recordCount) && data[pos + 12..pos + 16] == U32(hb.nodeCount)
  {
    BigEndian32(0, 0, 0x10, 0);
    hide U32, FromU32;
  }
}
