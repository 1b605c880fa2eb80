/** The alias parser: a pointer moves over the record and fills the alias field by field. */
module AliasIO {
  import opened Bytes
  import opened Aliases

  // ----- readers that return the advanced pointer -----

  method ReadUint8From(data: seq<byte>, p: nat) returns (value: byte, next: nat)
    requires p < |data|
    ensures At(data, p, [value]) && next == p + 1
  {
    value, next := data[p], p + 1;
  }

  method ReadUint16FromBe(data: seq<byte>, p: nat) returns (value: uint16, next: nat)
    requires p + 2 <= |data|
    ensures ReadU16(data, p) == Some(value) && next == p + 2
  {
    value, next := FromU16(data[p..p + 2]), p + 2;
    U16Inverse(value, data[p..p + 2]);
  }

  method ReadInt16FromBe(data: seq<byte>, p: nat) returns (value: int16, next: nat)
    requires p + 2 <= |data|
    ensures value == ReadI16(data, p) && next == p + 2
  {
    var u;
    u, next := ReadUint16FromBe(data, p);
    value := ToInt16(u);
  }

  method ReadUint32FromBe(data: seq<byte>, p: nat) returns (value: uint32, next: nat)
    requires p + 4 <= |data|
    ensures ReadU32(data, p) == Some(value) && next == p + 4
  {
    value, next := FromU32(data[p..p + 4]), p + 4;
    U32Inverse(value, data[p..p + 4]);
  }

  method ReadDataFrom(data: seq<byte>, p: nat, size: nat) returns (out: seq<byte>, next: nat)
    requires p + size <= |data|
    ensures |out| == size && forall bs :: |bs| == size ==> (At(data, p, bs) <==> bs == out)
    ensures next == p + size
  {
    out, next := data[p..p + size], p + size;
  }

  function EmptyHeader(): AliasHeader {
    AliasHeader(0, HEADER_SIZE, VERSION, 0, 0, seq(27, i => 0), 0, 0, 0, 0, 0, seq(63, i => 0),
                0, 0, 0, 0, 0, 0, 0, 0, seq(10, i => 0))
  }

  /** The record of an alias without entries: only the size, 150, and the version, 2, are not zero. */
  function EmptyRecord(): (s: seq<byte>)
    ensures |s| == HEADER_SIZE
    ensures forall i :: 0 <= i < HEADER_SIZE ==> s[i] == if i == 5 then 150 else if i == 7 then 2 else 0
  {
    seq(HEADER_SIZE, i => if i == 5 then 150 else if i == 7 then 2 else 0)
  }

  lemma EmptyHeaderBytes()
    ensures HeaderFits(EmptyHeader()) && EncodeHeader(EmptyHeader()) == EmptyRecord()
  {
    var h := EmptyHeader();
    assert forall i :: 0 <= i < 11 ==> EncodeIdentity(h)[i] == EmptyRecord()[i];
    assert forall i :: 0 <= i < 39 ==> EncodeVolume(h)[i] == 0;
    assert forall i :: 0 <= i < 76 ==> EncodeTarget(h)[i] == 0;
    assert forall i :: 0 <= i < 14 ==> EncodePlace(h)[i] == 0;
    hide EncodeIdentity, EncodeVolume, EncodeTarget, EncodePlace;
  }

  lemma EmptyRecordParses()
    ensures ParseAlias(EmptyRecord()) == Some(AliasValue(EmptyHeader(), []))
  {
    EmptyHeaderBytes();
    assert EncodeEntries([]) == [] && GoodTail([]);
    hide EncodeHeader, GoodTail, ParseAlias, EmptyRecord;
    AliasRoundTrip(EmptyHeader(), [], []);
    assert EmptyRecord() + [] + [] == EmptyRecord();
  }

  /** Where the i-th of entries that start at `start` begins. */
  function EntryOffset(start: nat, es: seq<Entry>, i: nat): nat
    requires i <= |es|
  {
    start + |EncodeEntries(es[..i])|
  }

  /** Every parsed entry starts at an even offset, stands there with its padded value, and ends inside the record. */
  lemma {:induction false} EntryPlaces(data: seq<byte>, start: nat, i: nat)
    requires start <= |data| && start % 2 == 0 && ParseEntries(data, start).Some?
    requires i < |ParseEntries(data, start).value|
    ensures var es := ParseEntries(data, start).value;
      EntryOffset(start, es, i) % 2 == 0 && At(data, EntryOffset(start, es, i), EncodeEntry(es[i]))
    decreases i
  {
    hide ReadU16, ReadI16, At, EncodeEntry, ParseEntries;
    ParseEntriesEnd(data, start);
    ParseEntriesStep(data, start);
    var es := ParseEntries(data, start).value;
    var next := start + 4 + Padded16(ReadU16(data, start + 2).value);
    var rest := ParseEntries(data, next).value;
    ParsedEntryAt(data, start);
    if i > 0 {
      EntryPlaces(data, next, i - 1);
      assert rest[..i - 1] == es[1..i] && es[..i][1..] == es[1..i];
    }
  }

  lemma ParsedEntryAt(data: seq<byte>, pos: nat)
    requires ParseEntries(data, pos).Some? && ParseEntries(data, pos).value != []
    ensures At(data, pos, EncodeEntry(ParseEntries(data, pos).value[0]))
  {
    hide ReadU16, ReadI16;
    EntryAt(data, pos, ParseEntries(data, pos).value[0]);
  }

  class Alias {
    var header: AliasHeader
    var entries: seq<Entry>

    /** A new alias is an empty one: all zeros, except for its size and version. */
    constructor ()
      ensures entries == [] && HeaderFits(header) && EncodeHeader(header) == EmptyRecord()
      ensures ParseAlias(EmptyRecord()) == Some(AliasValue(header, entries))
    {
      header := EmptyHeader();
      entries := [];
      EmptyHeaderBytes();
      EmptyRecordParses();
    }

    /** Size and version; a status other than 0 rejects the record. */
    method ReadIdentity(data: seq<byte>) returns (status: int, p: nat)
      requires |data| >= HEADER_SIZE
      modifies this`header
      ensures status == 0 <==> ParseHeader(data).recordSize == |data| && ParseHeader(data).version == VERSION
      ensures status == 0 ==> p == 8
      ensures status == 0 ==>
          header == old(header).(creatorCode := ParseHeader(data).creatorCode,
                                 recordSize := ParseHeader(data).recordSize, version := ParseHeader(data).version)
    {
      hide ReadU16, ReadU32, ReadI16;
      status := 1;
      var word, half;
      word, p := ReadUint32FromBe(data, 0);
      header := header.(creatorCode := word);
      half, p := ReadUint16FromBe(data, p);
      header := header.(recordSize := half);
      if header.recordSize != |data| { return; }
      half, p := ReadUint16FromBe(data, p);
      header := header.(version := half);
      if header.version != VERSION { return; }
      status := 0;
    }

    /** The rest of the header. */
    method ReadFields(data: seq<byte>, start: nat) returns (p: nat)
      requires |data| >= HEADER_SIZE && start == 8
      requires header.creatorCode == ParseHeader(data).creatorCode
      requires header.recordSize == ParseHeader(data).recordSize && header.version == ParseHeader(data).version
      modifies this`header
      ensures header == ParseHeader(data) && p == HEADER_SIZE
    {
      hide ReadU16, ReadU32, ReadI16;
      var b, half, short, word, bytes;
      half, p := ReadUint16FromBe(data, start);
      header := header.(aliasKind := half);
      b, p := ReadUint8From(data, p);
      ByteAt(data, p - 1, b);
      header := header.(volumeNameLength := b);
      bytes, p := ReadDataFrom(data, p, 27);
      SliceAt(data, p - 27, bytes);
      header := header.(volumeName := bytes);
      word, p := ReadUint32FromBe(data, p);
      header := header.(volumeDate := word);
      half, p := ReadUint16FromBe(data, p);
      header := header.(filesystemType := half);
      half, p := ReadUint16FromBe(data, p);
      header := header.(diskType := half);
      word, p := ReadUint32FromBe(data, p);
      header := header.(containingFolderCnid := word);
      b, p := ReadUint8From(data, p);
      ByteAt(data, p - 1, b);
      header := header.(targetNameLength := b);
      bytes, p := ReadDataFrom(data, p, 63);
      SliceAt(data, p - 63, bytes);
      header := header.(targetName := bytes);
      word, p := ReadUint32FromBe(data, p);
      header := header.(targetCnid := word);
      word, p := ReadUint32FromBe(data, p);
      header := header.(targetCreationDate := word);
      word, p := ReadUint32FromBe(data, p);
      header := header.(targetCreatorCode := word);
      word, p := ReadUint32FromBe(data, p);
      header := header.(targetTypeCode := word);
      short, p := ReadInt16FromBe(data, p);
      header := header.(aliasToRootDepth := short);
      short, p := ReadInt16FromBe(data, p);
      header := header.(rootToTargetDepth := short);
      word, p := ReadUint32FromBe(data, p);
      header := header.(volumeAttributes := word);
      half, p := ReadUint16FromBe(data, p);
      header := header.(volumeFsid := half);
      bytes, p := ReadDataFrom(data, p, 10);
      SliceAt(data, p - 10, bytes);
      header := header.(reserved := bytes);
    }

    /** The loop over the entries. Each is found at an even offset, with its padded value inside the record. */
    method ReadEntries(data: seq<byte>, start: nat) returns (status: int)
      requires start <= |data| && start % 2 == 0 && header.recordSize == |data| && entries == []
      modifies this`entries
      ensures status == 0 <==> ParseEntries(data, start).Some?
      ensures status == 0 ==> ParseEntries(data, start) == Some(entries)
      ensures status == 0 ==> forall i :: 0 <= i < |entries| ==>
        EntryOffset(start, entries, i) % 2 == 0 && At(data, EntryOffset(start, entries, i), EncodeEntry(entries[i]))
    {
      hide ReadU16, ReadI16, Before, ParseEntries;
      var p := start;
      ghost var whole := ParseEntries(data, start);
      BeforeNone(whole);
      while p <= header.recordSize - 4
        invariant p <= |data| && p % 2 == 0 && header.recordSize == |data|
        invariant whole == Before(entries, ParseEntries(data, p))
        decreases |data| - p
      {
        ParseEntriesStep(data, p);
        BeforeEnd(entries);
        var ok, entry;
        ok, entry, p := ReadEntry(data, p, header.recordSize);
        if !ok { return 1; }
        if entry.tag == SENTINEL { break; }
        BeforeOne(entries, entry, ParseEntries(data, p));
        entries := entries + [entry];
      }
      ParseEntriesEnd(data, p);
      BeforeEnd(entries);
      assert whole == Some(entries);
      forall i | 0 <= i < |entries|
        ensures EntryOffset(start, entries, i) % 2 == 0
        ensures At(data, EntryOffset(start, entries, i), EncodeEntry(entries[i]))
      {
        EntryPlaces(data, start, i);
      }
      status := 0;
    }
  }

  /** Tag, length and padded value of one entry; not ok when the value would reach behind the record. */
  method ReadEntry(data: seq<byte>, start: nat, recordSize: uint16) returns (ok: bool, entry: Entry, next: nat)
    requires start + 4 <= |data| == recordSize
    ensures var length := ReadU16(data, start + 2).value;
      && (ok <==> start + 4 + Padded16(length) <= |data|)
      && (ok ==> next == start + 4 + Padded16(length) && (next - start) % 2 == 0
                 && entry == Entry(ReadI16(data, start), length, data[start + 4..next]))
      && (ok && length < 65535 ==> start + 4 + length <= next <= start + 4 + length + 1)
      && (ok && length == 65535 ==> next == start + 4)
  {
    hide ReadU16, ReadI16;
    var tag, length;
    tag, next := ReadInt16FromBe(data, start);
    length, next := ReadUint16FromBe(data, next);
    entry := Entry(tag, length, []);
    var entryLength: uint16 := if length % 2 == 0 then length else (length as int + 1) % 0x1_0000;
    if next > recordSize - entryLength { return false, entry, next; }
    var value;
    value, next := ReadDataFrom(data, next, entryLength);
    SliceAt(data, start + 4, value);
    ok, entry := true, Entry(tag, length, value);
  }

  lemma ParseEntriesEnd(data: seq<byte>, pos: nat)
    ensures pos + 4 > |data| ==> ParseEntries(data, pos) == Some([])
  {
  }

  /** One round of the loop. */
  lemma ParseEntriesStep(data: seq<byte>, pos: nat)
    requires pos + 4 <= |data|
    ensures var tag, length := ReadI16(data, pos), ReadU16(data, pos + 2).value;
      var next := pos + 4 + Padded16(length);
      ParseEntries(data, pos) ==
        if next > |data| then None
        else if tag == SENTINEL then Some([])
        else if ParseEntries(data, next).Some?
        then Some([Entry(tag, length, data[pos + 4..next])] + ParseEntries(data, next).value)
        else None
  {
  }

  /** `es` was read already and `rest` is what is still to come. */
  ghost function Before(es: seq<Entry>, rest: Option<seq<Entry>>): Option<seq<Entry>> {
    if rest.Some? then Some(es + rest.value) else None
  }

  lemma BeforeNone(rest: Option<seq<Entry>>)
    ensures Before([], rest) == rest
  {
    if rest.Some? { assert [] + rest.value == rest.value; }
  }

  lemma BeforeEnd(es: seq<Entry>)
    ensures Before(es, None) == None && Before(es, Some([])) == Some(es)
  {
    assert es + [] == es;
  }

  lemma BeforeOne(es: seq<Entry>, e: Entry, rest: Option<seq<Entry>>)
    ensures Before(es, if rest.Some? then Some([e] + rest.value) else None) == Before(es + [e], rest)
  {
    if rest.Some? { assert es + ([e] + rest.value) == es + [e] + rest.value; }
  }

  /** Parses a record; null when it is not an alias. The caller must pass at least a header's worth of bytes. */
  method CreateFromData(data: seq<byte>) returns (alias: Alias?)
    requires |data| >= HEADER_SIZE
    ensures alias != null <==> ParseAlias(data).Some?
    ensures alias != null ==> fresh(alias) && ParseAlias(data) == Some(AliasValue(alias.header, alias.entries))
  {
    hide ParseHeader, ParseEntries;
    alias := new Alias();
    var status, p := alias.ReadIdentity(data);
    if status != 0 { return null; }
    p := alias.ReadFields(data, p);
    status := alias.ReadEntries(data, p);
    if status != 0 { return null; }
  }
}
