/** Alias records: a header of 150 bytes, then tagged entries, each padded to an even length. */
module Aliases {
  import opened Bytes

  type int16 = n: int | -0x8000 <= n < 0x8000

  const HEADER_SIZE := 150
  const VERSION: uint16 := 2
  const SENTINEL: int16 := -1

  function ToInt16(n: uint16): int16 { if n < 0x8000 then n else n - 0x1_0000 }

  function I16(n: int16): seq<byte> { U16(if n < 0 then n + 0x1_0000 else n) }

  datatype AliasHeader = AliasHeader(
    creatorCode: uint32, recordSize: uint16, version: uint16, aliasKind: uint16, volumeNameLength: byte,
    volumeName: seq<byte>, volumeDate: uint32, filesystemType: uint16, diskType: uint16, containingFolderCnid: uint32,
    targetNameLength: byte, targetName: seq<byte>, targetCnid: uint32, targetCreationDate: uint32,
    targetCreatorCode: uint32, targetTypeCode: uint32, aliasToRootDepth: int16, rootToTargetDepth: int16,
    volumeAttributes: uint32, volumeFsid: uint16, reserved: seq<byte>)

  /** A metadata entry and the bytes of its value that were read, padding included. */
  datatype Entry = Entry(tag: int16, length: uint16, value: seq<byte>)

  datatype AliasValue = AliasValue(header: AliasHeader, entries: seq<Entry>)

  /** Rounding up to an even length in 16 bits: 65535 becomes 0. */
  function Padded16(length: uint16): uint16 {
    if length % 2 == 0 then length else (length + 1) % 0x1_0000
  }

  // ----- the layout -----

  predicate HeaderFits(h: AliasHeader) {
    |h.volumeName| == 27 && |h.targetName| == 63 && |h.reserved| == 10
  }

  function Join(a: seq<byte>, b: seq<byte>, c: seq<byte>, d: seq<byte>, e: seq<byte>): (s: seq<byte>)
    ensures |s| == |a| + |b| + |c| + |d| + |e|
  {
    a + (b + (c + (d + e)))
  }

  function EncodeIdentity(h: AliasHeader): seq<byte> {
    Join(U32(h.creatorCode), U16(h.recordSize), U16(h.version), U16(h.aliasKind), [h.volumeNameLength])
  }

  function EncodeVolume(h: AliasHeader): seq<byte> {
    Join(h.volumeName, U32(h.volumeDate), U16(h.filesystemType), U16(h.diskType), U32(h.containingFolderCnid))
  }

  function EncodeTarget(h: AliasHeader): seq<byte> {
    Join([h.targetNameLength], h.targetName, U32(h.targetCnid), U32(h.targetCreationDate), U32(h.targetCreatorCode))
  }

  function EncodePlace(h: AliasHeader): seq<byte> {
    Join(U32(h.targetTypeCode), I16(h.aliasToRootDepth), I16(h.rootToTargetDepth), U32(h.volumeAttributes),
         U16(h.volumeFsid))
  }

  function EncodeHeader(h: AliasHeader): (s: seq<byte>)
    requires HeaderFits(h)
    ensures |s| == HEADER_SIZE
  {
    Join(EncodeIdentity(h), EncodeVolume(h), EncodeTarget(h), EncodePlace(h), h.reserved)
  }

  predicate EntryFits(e: Entry) {
    e.tag != SENTINEL && |e.value| == Padded16(e.length)
  }

  function EncodeEntry(e: Entry): (s: seq<byte>)
    ensures |s| == 4 + |e.value|
  {
    I16(e.tag) + (U16(e.length) + e.value)
  }

  function EncodeEntries(es: seq<Entry>): seq<byte> {
    if es == [] then [] else EncodeEntry(es[0]) + EncodeEntries(es[1..])
  }

  /** What may follow the entries: too little for another one, or a sentinel entry and anything after it. */
  predicate GoodTail(tail: seq<byte>) {
    |tail| < 4 || (tail[..2] == I16(SENTINEL) && 4 + Padded16(FromU16(tail[2..4])) <= |tail|)
  }

  // ----- the parser -----

  function ReadI16(data: seq<byte>, pos: nat): int16
    requires pos + 2 <= |data|
  {
    ToInt16(ReadU16(data, pos).value)
  }

  lemma ReadI16Iff(data: seq<byte>, pos: nat, n: int16)
    requires pos + 2 <= |data|
    ensures ReadI16(data, pos) == n <==> At(data, pos, I16(n))
  {
    var u := ReadU16(data, pos).value;
    assert At(data, pos, U16(u));
    if At(data, pos, I16(n)) {
      assert ReadU16(data, pos) == Some(if n < 0 then n + 0x1_0000 else n);
    }
  }

  function ParseHeader(data: seq<byte>): (h: AliasHeader)
    requires |data| >= HEADER_SIZE
    ensures HeaderFits(h)
  {
    AliasHeader(
      ReadU32(data, 0).value, ReadU16(data, 4).value, ReadU16(data, 6).value, ReadU16(data, 8).value, data[10],
      data[11..38], ReadU32(data, 38).value, ReadU16(data, 42).value, ReadU16(data, 44).value, ReadU32(data, 46).value,
      data[50], data[51..114], ReadU32(data, 114).value, ReadU32(data, 118).value,
      ReadU32(data, 122).value, ReadU32(data, 126).value, ReadI16(data, 130), ReadI16(data, 132),
      ReadU32(data, 134).value, ReadU16(data, 138).value, data[140..150])
  }

  /** The entries from `pos` on; None where an entry claims more bytes than the record has. */
  function ParseEntries(data: seq<byte>, pos: nat): Option<seq<Entry>>
    decreases |data| - pos
  {
    if pos + 4 > |data| then Some([])
    else
      var tag, length := ReadI16(data, pos), ReadU16(data, pos + 2).value;
      var padded := Padded16(length);
      if pos + 4 + padded > |data| then None
      else if tag == SENTINEL then Some([])
      else
        var rest :- ParseEntries(data, pos + 4 + padded);
        Some([Entry(tag, length, data[pos + 4..pos + 4 + padded])] + rest)
  }

  /** The caller must pass at least a header's worth of bytes. */
  function ParseAlias(data: seq<byte>): Option<AliasValue>
    requires |data| >= HEADER_SIZE
  {
    var h := ParseHeader(data);
    if h.recordSize != |data| then None
    else if h.version != VERSION then None
    else
      var entries :- ParseEntries(data, HEADER_SIZE);
      Some(AliasValue(h, entries))
  }

  // ----- the parser accepts exactly the encodings -----

  lemma AtJoin(data: seq<byte>, pos: nat, a: seq<byte>, b: seq<byte>, c: seq<byte>, d: seq<byte>, e: seq<byte>)
    ensures At(data, pos, Join(a, b, c, d, e))
       <==> && At(data, pos, a) && At(data, pos + |a|, b) && At(data, pos + |a| + |b|, c)
            && At(data, pos + |a| + |b| + |c|, d) && At(data, pos + |a| + |b| + |c| + |d|, e)
  {
    hide At;
    AtConcat(data, pos, a, b + (c + (d + e)));
    AtConcat(data, pos + |a|, b, c + (d + e));
    AtConcat(data, pos + |a| + |b|, c, d + e);
    AtConcat(data, pos + |a| + |b| + |c|, d, e);
  }

  lemma ByteAt(data: seq<byte>, pos: nat, b: byte)
    requires pos < |data|
    ensures data[pos] == b <==> At(data, pos, [b])
  {
    assert data[pos..pos + 1] == [data[pos]];
  }

  lemma SliceAt(data: seq<byte>, pos: nat, bs: seq<byte>)
    requires pos + |bs| <= |data|
    ensures data[pos..pos + |bs|] == bs <==> At(data, pos, bs)
  {
  }

  lemma WordAt(data: seq<byte>, pos: nat, n: uint32)
    requires pos + 4 <= |data|
    ensures ReadU32(data, pos).value == n <==> At(data, pos, U32(n))
  {
  }

  lemma HalfAt(data: seq<byte>, pos: nat, n: uint16)
    requires pos + 2 <= |data|
    ensures ReadU16(data, pos).value == n <==> At(data, pos, U16(n))
  {
  }

  lemma IdentityIff(data: seq<byte>, h: AliasHeader)
    requires |data| >= HEADER_SIZE
    ensures At(data, 0, EncodeIdentity(h)) <==> var p := ParseHeader(data);
      && p.creatorCode == h.creatorCode && p.recordSize == h.recordSize && p.version == h.version
      && p.aliasKind == h.aliasKind && p.volumeNameLength == h.volumeNameLength
  {
    hide At, ReadU16, ReadU32, ReadI16, Join;
    AtJoin(data, 0, U32(h.creatorCode), U16(h.recordSize), U16(h.version), U16(h.aliasKind), [h.volumeNameLength]);
    WordAt(data, 0, h.creatorCode);
    HalfAt(data, 4, h.recordSize);
    HalfAt(data, 6, h.version);
    HalfAt(data, 8, h.aliasKind);
    ByteAt(data, 10, h.volumeNameLength);
  }

  lemma VolumeIff(data: seq<byte>, h: AliasHeader)
    requires |data| >= HEADER_SIZE && HeaderFits(h)
    ensures At(data, 11, EncodeVolume(h)) <==> var p := ParseHeader(data);
      && p.volumeName == h.volumeName && p.volumeDate == h.volumeDate && p.filesystemType == h.filesystemType
      && p.diskType == h.diskType && p.containingFolderCnid == h.containingFolderCnid
  {
    hide At, ReadU16, ReadU32, ReadI16, Join;
    AtJoin(data, 11, h.volumeName, U32(h.volumeDate), U16(h.filesystemType), U16(h.diskType),
           U32(h.containingFolderCnid));
    SliceAt(data, 11, h.volumeName);
    WordAt(data, 38, h.volumeDate);
    HalfAt(data, 42, h.filesystemType);
    HalfAt(data, 44, h.diskType);
    WordAt(data, 46, h.containingFolderCnid);
  }

  lemma TargetIff(data: seq<byte>, h: AliasHeader)
    requires |data| >= HEADER_SIZE && HeaderFits(h)
    ensures At(data, 50, EncodeTarget(h)) <==> var p := ParseHeader(data);
      && p.targetNameLength == h.targetNameLength && p.targetName == h.targetName && p.targetCnid == h.targetCnid
      && p.targetCreationDate == h.targetCreationDate && p.targetCreatorCode == h.targetCreatorCode
  {
    hide At, ReadU16, ReadU32, ReadI16, Join;
    AtJoin(data, 50, [h.targetNameLength], h.targetName, U32(h.targetCnid), U32(h.targetCreationDate),
           U32(h.targetCreatorCode));
    ByteAt(data, 50, h.targetNameLength);
    SliceAt(data, 51, h.targetName);
    WordAt(data, 114, h.targetCnid);
    WordAt(data, 118, h.targetCreationDate);
    WordAt(data, 122, h.targetCreatorCode);
  }

  lemma PlaceIff(data: seq<byte>, h: AliasHeader)
    requires |data| >= HEADER_SIZE
    ensures At(data, 126, EncodePlace(h)) <==> var p := ParseHeader(data);
      && p.targetTypeCode == h.targetTypeCode && p.aliasToRootDepth == h.aliasToRootDepth
      && p.rootToTargetDepth == h.rootToTargetDepth && p.volumeAttributes == h.volumeAttributes
      && p.volumeFsid == h.volumeFsid
  {
    hide At, ReadU16, ReadU32, ReadI16, Join;
    AtJoin(data, 126, U32(h.targetTypeCode), I16(h.aliasToRootDepth), I16(h.rootToTargetDepth),
           U32(h.volumeAttributes), U16(h.volumeFsid));
    WordAt(data, 126, h.targetTypeCode);
    ReadI16Iff(data, 130, h.aliasToRootDepth);
    ReadI16Iff(data, 132, h.rootToTargetDepth);
    WordAt(data, 134, h.volumeAttributes);
    HalfAt(data, 138, h.volumeFsid);
  }

  /** The header's fields are those whose encoding the first 150 bytes are. */
  lemma ParseHeaderIff(data: seq<byte>, h: AliasHeader)
    requires |data| >= HEADER_SIZE
    ensures ParseHeader(data) == h <==> HeaderFits(h) && At(data, 0, EncodeHeader(h))
  {
    if HeaderFits(h) {
      hide At, ReadU16, ReadU32, ReadI16, Join, EncodeIdentity, EncodeVolume, EncodeTarget, EncodePlace;
      HeaderParts(data, h);
      IdentityIff(data, h);
      VolumeIff(data, h);
      TargetIff(data, h);
      PlaceIff(data, h);
      SliceAt(data, 140, h.reserved);
    }
  }

  lemma HeaderParts(data: seq<byte>, h: AliasHeader)
    requires HeaderFits(h)
    ensures At(data, 0, EncodeHeader(h))
       <==> && At(data, 0, EncodeIdentity(h)) && At(data, 11, EncodeVolume(h)) && At(data, 50, EncodeTarget(h))
            && At(data, 126, EncodePlace(h)) && At(data, 140, h.reserved)
  {
    hide At;
    AtJoin(data, 0, EncodeIdentity(h), EncodeVolume(h), EncodeTarget(h), EncodePlace(h), h.reserved);
  }

  lemma EntryAt(data: seq<byte>, pos: nat, e: Entry)
    requires pos + 4 <= |data|
    ensures At(data, pos, EncodeEntry(e))
       <==> ReadI16(data, pos) == e.tag && ReadU16(data, pos + 2).value == e.length && At(data, pos + 4, e.value)
  {
    hide At, ReadU16, ReadI16;
    AtConcat(data, pos, I16(e.tag), U16(e.length) + e.value);
    AtConcat(data, pos + 2, U16(e.length), e.value);
    ReadI16Iff(data, pos, e.tag);
    HalfAt(data, pos + 2, e.length);
  }

  predicate EntriesFit(es: seq<Entry>) {
    forall i :: 0 <= i < |es| ==> EntryFits(es[i])
  }

  lemma TailIff(data: seq<byte>, pos: nat)
    requires pos <= |data|
    ensures GoodTail(data[pos..])
       <==> pos + 4 > |data|
            || (ReadI16(data, pos) == SENTINEL && pos + 4 + Padded16(ReadU16(data, pos + 2).value) <= |data|)
  {
    if pos + 4 <= |data| {
      assert data[pos..][..2] == data[pos..pos + 2];
      assert data[pos..][2..4] == data[pos + 2..pos + 4];
      ReadI16Iff(data, pos, SENTINEL);
    }
  }

  lemma {:induction false} ParseEntriesSound(data: seq<byte>, pos: nat)
    requires pos <= |data| && ParseEntries(data, pos).Some?
    ensures var es := ParseEntries(data, pos).value;
      EntriesFit(es) && At(data, pos, EncodeEntries(es)) && GoodTail(data[pos + |EncodeEntries(es)|..])
    decreases |data| - pos
  {
    hide ReadI16, ReadU16, GoodTail, EncodeEntry;
    TailIff(data, pos);
    if pos + 4 <= |data| && ReadI16(data, pos) != SENTINEL {
      var padded := Padded16(ReadU16(data, pos + 2).value);
      var next := pos + 4 + padded;
      var e := Entry(ReadI16(data, pos), ReadU16(data, pos + 2).value, data[pos + 4..next]);
      var rest := ParseEntries(data, next).value;
      ParseEntriesSound(data, next);
      EntryAt(data, pos, e);
      AtConcat(data, pos, EncodeEntry(e), EncodeEntries(rest));
      assert ([e] + rest)[1..] == rest;
    }
  }

  lemma {:induction false} ParseEntriesComplete(data: seq<byte>, pos: nat, es: seq<Entry>)
    requires EntriesFit(es) && At(data, pos, EncodeEntries(es)) && GoodTail(data[pos + |EncodeEntries(es)|..])
    ensures ParseEntries(data, pos) == Some(es)
    decreases |es|
  {
    hide ReadI16, ReadU16, GoodTail, EncodeEntry;
    if es == [] {
      TailIff(data, pos);
    } else {
      var e, rest := es[0], es[1..];
      var next := pos + 4 + |e.value|;
      AtConcat(data, pos, EncodeEntry(e), EncodeEntries(rest));
      EntryAt(data, pos, e);
      assert EntryFits(e);
      ParseEntriesComplete(data, next, rest);
      assert es == [e] + rest;
    }
  }

  /** The bytes of an alias: header, entries, and a tail that the parser tolerates. */
  ghost predicate AliasBytes(data: seq<byte>, a: AliasValue) {
    && HeaderFits(a.header) && a.header.recordSize == |data| && a.header.version == VERSION && EntriesFit(a.entries)
    && exists tail :: GoodTail(tail) && data == EncodeHeader(a.header) + EncodeEntries(a.entries) + tail
  }

  lemma AliasBytesIff(data: seq<byte>, a: AliasValue)
    requires |data| >= HEADER_SIZE
    ensures AliasBytes(data, a)
       <==> && HeaderFits(a.header) && a.header.recordSize == |data| && a.header.version == VERSION
            && EntriesFit(a.entries) && At(data, 0, EncodeHeader(a.header))
            && At(data, HEADER_SIZE, EncodeEntries(a.entries))
            && GoodTail(data[HEADER_SIZE + |EncodeEntries(a.entries)|..])
  {
    if HeaderFits(a.header) {
      hide GoodTail, EncodeHeader, EncodeEntries;
      var h, es := EncodeHeader(a.header), EncodeEntries(a.entries);
      AtConcat(data, 0, h, es);
      if At(data, 0, h + es) {
        assert data == h + es + data[|h + es|..];
      }
      forall tail | data == h + es + tail
        ensures At(data, 0, h + es) && tail == data[|h + es|..]
      {
      }
    }
  }

  /**
    Parsing succeeds exactly on the encodings of aliases. In particular the bytes behind the header of every
    accepted record are the encodings of the returned entries, one after the other, and a tolerated tail.
   */
  lemma ParseAliasIff(data: seq<byte>, a: AliasValue)
    requires |data| >= HEADER_SIZE
    ensures ParseAlias(data) == Some(a) <==> AliasBytes(data, a)
  {
    hide ParseHeader, ParseEntries, AliasBytes, EncodeHeader, EncodeEntries, GoodTail, EntriesFit, At;
    AliasBytesIff(data, a);
    ParseHeaderIff(data, a.header);
    if ParseAlias(data) == Some(a) {
      ParseEntriesSound(data, HEADER_SIZE);
    }
    if AliasBytes(data, a) {
      ParseEntriesComplete(data, HEADER_SIZE, a.entries);
    }
  }

  /** What a writer of aliases puts down is parsed back, whatever tolerated tail it ends with. */
  lemma AliasRoundTrip(h: AliasHeader, es: seq<Entry>, tail: seq<byte>)
    requires HeaderFits(h) && EntriesFit(es) && GoodTail(tail)
    requires h.version == VERSION && h.recordSize == HEADER_SIZE + |EncodeEntries(es)| + |tail|
    ensures ParseAlias(EncodeHeader(h) + EncodeEntries(es) + tail) == Some(AliasValue(h, es))
  {
    hide ParseAlias, EncodeHeader, EncodeEntries, GoodTail;
    ParseAliasIff(EncodeHeader(h) + EncodeEntries(es) + tail, AliasValue(h, es));
  }
}
