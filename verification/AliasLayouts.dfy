/**
  Alias records as a writer lays them out: every value is followed by one byte of padding if its length is odd.
  The parser accepts these records and no others; what it and the expansion make of them is told in terms of
  the values alone.
 */
module AliasLayouts {
  import opened Bytes
  import opened Aliases
  import opened NestedAliases

  /**
    A tag with its value; `pad` is the byte behind a value of odd length, which readers ignore. An Unheld entry
    claims 65535 bytes and has none.
   */
  datatype Metadata = Held(tag: int16, value: seq<byte>, pad: byte) | Unheld(tag: int16)

  predicate Fits(m: Metadata) { m.Held? ==> |m.value| < 65535 }

  /** No entry ends the list. */
  predicate AllFit(ms: seq<Metadata>) {
    forall i :: 0 <= i < |ms| ==> Fits(ms[i]) && ms[i].tag != -1
  }

  function PaddedValue(value: seq<byte>, pad: byte): (s: seq<byte>)
    ensures |s| % 2 == 0 && |value| <= |s| <= |value| + 1 && value <= s
  {
    if |value| % 2 == 0 then value else value + [pad]
  }

  /** What stands behind the tag. */
  function LayValue(m: Metadata): (s: seq<byte>)
    requires Fits(m)
    ensures |s| >= 2
  {
    match m
    case Held(_, value, pad) => U16(|value|) + PaddedValue(value, pad)
    case Unheld(_) => [0xFF, 0xFF]
  }

  function LayAll(ms: seq<Metadata>): (s: seq<byte>)
    requires AllFit(ms)
  {
    if ms == [] then [] else I16(ms[0].tag) + LayValue(ms[0]) + LayAll(ms[1..])
  }

  /** Up to three bytes, or an entry with the tag FF FF that has room for its value, and anything behind. */
  ghost predicate Ending(tail: seq<byte>) {
    |tail| <= 3 || exists m, rest :: Fits(m) && tail == [0xFF, 0xFF] + LayValue(m) + rest
  }

  ghost predicate RecordFits(h: AliasHeader, ms: seq<Metadata>, tail: seq<byte>) {
    && HeaderFits(h) && h.version == 2 && AllFit(ms) && Ending(tail)
    && h.recordSize == 150 + |LayAll(ms)| + |tail|
  }

  ghost function Record(h: AliasHeader, ms: seq<Metadata>, tail: seq<byte>): (s: seq<byte>)
    requires RecordFits(h, ms, tail)
    ensures |s| == h.recordSize
  {
    EncodeHeader(h) + LayAll(ms) + tail
  }

  // ----- numbers and the header -----

  /** Two bytes stand for a number with a sign: from 128 on the first makes it negative. */
  lemma SignedNumber(a: byte, b: byte)
    ensures I16(a as int * 256 + b as int - (if a < 128 then 0 else 65536)) == [a, b]
    ensures ReadI16([a, b], 0) == a as int * 256 + b as int - (if a < 128 then 0 else 65536)
  {
    var n := a as int * 256 + b as int;
    U16Inverse(n, [a, b]);
    assert At([a, b], 0, U16(n));
  }

  /** Where the parser finds each field of the header. */
  lemma HeaderPlaces(data: seq<byte>, h: AliasHeader)
    requires |data| >= 150 && HeaderFits(h)
    ensures ParseHeader(data) == h
       <==> && At(data, 0, U32(h.creatorCode)) && At(data, 4, U16(h.recordSize)) && At(data, 6, U16(h.version))
            && At(data, 8, U16(h.aliasKind)) && At(data, 10, [h.volumeNameLength]) && At(data, 11, h.volumeName)
            && At(data, 38, U32(h.volumeDate)) && At(data, 42, U16(h.filesystemType)) && At(data, 44, U16(h.diskType))
            && At(data, 46, U32(h.containingFolderCnid)) && At(data, 50, [h.targetNameLength])
            && At(data, 51, h.targetName) && At(data, 114, U32(h.targetCnid))
            && At(data, 118, U32(h.targetCreationDate)) && At(data, 122, U32(h.targetCreatorCode))
            && At(data, 126, U32(h.targetTypeCode)) && At(data, 130, I16(h.aliasToRootDepth))
            && At(data, 132, I16(h.rootToTargetDepth)) && At(data, 134, U32(h.volumeAttributes))
            && At(data, 138, U16(h.volumeFsid)) && At(data, 140, h.reserved)
  {
    hide At, EncodeHeader, ParseHeader, EncodeIdentity, EncodeVolume, EncodeTarget, EncodePlace, U16, U32, I16;
    ParseHeaderIff(data, h);
    HeaderParts(data, h);
    IdentityPlaces(data, h);
    VolumePlaces(data, h);
    TargetPlaces(data, h);
    PlacePlaces(data, h);
  }

  lemma IdentityPlaces(data: seq<byte>, h: AliasHeader)
    ensures At(data, 0, EncodeIdentity(h))
       <==> && At(data, 0, U32(h.creatorCode)) && At(data, 4, U16(h.recordSize)) && At(data, 6, U16(h.version))
            && At(data, 8, U16(h.aliasKind)) && At(data, 10, [h.volumeNameLength])
  {
    hide At, Join, U16, U32;
    AtJoin(data, 0, U32(h.creatorCode), U16(h.recordSize), U16(h.version), U16(h.aliasKind), [h.volumeNameLength]);
  }

  lemma VolumePlaces(data: seq<byte>, h: AliasHeader)
    requires HeaderFits(h)
    ensures At(data, 11, EncodeVolume(h))
       <==> && At(data, 11, h.volumeName) && At(data, 38, U32(h.volumeDate)) && At(data, 42, U16(h.filesystemType))
            && At(data, 44, U16(h.diskType)) && At(data, 46, U32(h.containingFolderCnid))
  {
    hide At, Join, U16, U32;
    AtJoin(data, 11, h.volumeName, U32(h.volumeDate), U16(h.filesystemType), U16(h.diskType),
      U32(h.containingFolderCnid));
  }

  lemma TargetPlaces(data: seq<byte>, h: AliasHeader)
    requires HeaderFits(h)
    ensures At(data, 50, EncodeTarget(h))
       <==> && At(data, 50, [h.targetNameLength]) && At(data, 51, h.targetName) && At(data, 114, U32(h.targetCnid))
            && At(data, 118, U32(h.targetCreationDate)) && At(data, 122, U32(h.targetCreatorCode))
  {
    hide At, Join, U32;
    AtJoin(data, 50, [h.targetNameLength], h.targetName, U32(h.targetCnid), U32(h.targetCreationDate),
      U32(h.targetCreatorCode));
  }

  lemma PlacePlaces(data: seq<byte>, h: AliasHeader)
    ensures At(data, 126, EncodePlace(h))
       <==> && At(data, 126, U32(h.targetTypeCode)) && At(data, 130, I16(h.aliasToRootDepth))
            && At(data, 132, I16(h.rootToTargetDepth)) && At(data, 134, U32(h.volumeAttributes))
            && At(data, 138, U16(h.volumeFsid))
  {
    hide At, Join, U32;
    AtJoin(data, 126, U32(h.targetTypeCode), I16(h.aliasToRootDepth), I16(h.rootToTargetDepth),
      U32(h.volumeAttributes), U16(h.volumeFsid));
  }

  // ----- one entry -----

  /**
    How far an entry reaches: over the least even number of bytes that holds its value. Only a length of 65535
    reaches over none. An entry that reaches behind the record is refused, whatever its tag is.
   */
  lemma EntryExtent(data: seq<byte>, pos: nat, tag: int16, length: uint16, size: nat)
    requires At(data, pos, I16(tag) + U16(length))
    requires size % 2 == 0 && if length < 65535 then length <= size <= length + 1 else size == 0
    ensures var next := pos + 4 + size;
      ParseEntries(data, pos) ==
        if next > |data| then None
        else if tag == -1 then Some([])
        else if ParseEntries(data, next).None? then None
        else Some([Entry(tag, length, data[pos + 4..next])] + ParseEntries(data, next).value)
  {
    AtConcat(data, pos, I16(tag), U16(length));
    ReadI16Iff(data, pos, tag);
    hide At, ReadI16;
    assert size == Padded16(length);
  }

  // ----- laid-out records are parsed -----

  function EntryFor(m: Metadata): Entry
    requires Fits(m)
  {
    match m
    case Held(tag, value, pad) => Entry(tag, |value|, PaddedValue(value, pad))
    case Unheld(tag) => Entry(tag, 65535, [])
  }

  function EntriesFor(ms: seq<Metadata>): (es: seq<Entry>)
    requires AllFit(ms)
    ensures |es| == |ms| && forall i :: 0 <= i < |es| ==> es[i] == EntryFor(ms[i])
  {
    if ms == [] then [] else [EntryFor(ms[0])] + EntriesFor(ms[1..])
  }

  lemma EntryLaid(m: Metadata)
    requires Fits(m)
    ensures EntryFor(m).tag == m.tag && |EntryFor(m).value| == Padded16(EntryFor(m).length)
    ensures EncodeEntry(EntryFor(m)) == I16(m.tag) + LayValue(m)
  {
    if m.Unheld? { assert U16(65535) + [] == [0xFF, 0xFF]; }
  }

  lemma {:induction false} EntriesLaid(ms: seq<Metadata>)
    requires AllFit(ms)
    ensures EntriesFit(EntriesFor(ms)) && EncodeEntries(EntriesFor(ms)) == LayAll(ms)
  {
    hide EncodeEntry, LayValue, EntryFor, I16, Padded16;
    if ms != [] {
      EntryLaid(ms[0]);
      EntriesLaid(ms[1..]);
      assert EntriesFor(ms)[1..] == EntriesFor(ms[1..]);
    }
  }

  lemma EndingGood(tail: seq<byte>)
    requires Ending(tail)
    ensures GoodTail(tail)
  {
    if |tail| > 3 {
      var m, rest :| Fits(m) && tail == [0xFF, 0xFF] + LayValue(m) + rest;
      assert tail[..2] == [0xFF, 0xFF] == I16(-1);
      var length := EntryFor(m).length;
      assert tail[2..4] == LayValue(m)[..2] == U16(length);
      U16Inverse(length, tail[2..4]);
      EntryLaid(m);
    }
  }

  /** Every laid-out record is an alias, with exactly the entries laid out, each with its padding. */
  lemma RecordParses(h: AliasHeader, ms: seq<Metadata>, tail: seq<byte>)
    requires RecordFits(h, ms, tail)
    ensures ParseAlias(Record(h, ms, tail)) == Some(AliasValue(h, EntriesFor(ms)))
  {
    hide ParseAlias, EncodeHeader, LayAll, Ending;
    EntriesLaid(ms);
    EndingGood(tail);
    AliasRoundTrip(h, EntriesFor(ms), tail);
  }

  // ----- no others are -----

  function MetadataOf(e: Entry): (m: Metadata)
    requires EntryFits(e)
    ensures Fits(m) && m.tag == e.tag && EntryFor(m) == e
  {
    if e.length == 65535 then Unheld(e.tag)
    else if e.length % 2 == 0 then Held(e.tag, e.value, 0)
    else Held(e.tag, e.value[..e.length], e.value[e.length])
  }

  lemma {:induction false} EntriesSplit(es: seq<Entry>) returns (ms: seq<Metadata>)
    requires EntriesFit(es)
    ensures AllFit(ms) && EntriesFor(ms) == es
  {
    hide EntryFor;
    ms := [];
    if es != [] {
      assert EntryFits(es[0]);
      var rest := EntriesSplit(es[1..]);
      ms := [MetadataOf(es[0])] + rest;
      assert ms[1..] == rest;
    }
  }

  lemma HeldLaid(m: Metadata)
    requires Fits(m) && m.Held?
    ensures LayValue(m) == U16(EntryFor(m).length) + EntryFor(m).value
  {
  }

  lemma LastMetadata(length: uint16, value: seq<byte>) returns (m: Metadata)
    requires |value| == Padded16(length)
    ensures Fits(m) && LayValue(m) == U16(length) + value
  {
    m := MetadataOf(Entry(0, length, value));
    if m.Held? {
      HeldLaid(m);
    } else {
      assert U16(65535) + [] == [0xFF, 0xFF];
    }
  }

  lemma GoodEnding(tail: seq<byte>)
    requires GoodTail(tail)
    ensures Ending(tail)
  {
    if |tail| > 3 {
      var length := FromU16(tail[2..4]);
      U16Inverse(length, tail[2..4]);
      assert tail[..2] == [0xFF, 0xFF];
      var end := 4 + Padded16(length);
      hide GoodTail;
      var m := LastMetadata(length, tail[4..end]);
      hide LayValue, U16, Padded16;
      assert tail == tail[..2] + (tail[2..4] + tail[4..end]) + tail[end..];
      assert tail == [0xFF, 0xFF] + LayValue(m) + tail[end..];
    }
  }

  /** The parser accepts exactly the records that can be laid out. */
  lemma AcceptedIffLaidOut(data: seq<byte>)
    requires |data| >= 150
    ensures ParseAlias(data).Some? <==> exists h, ms, tail :: RecordFits(h, ms, tail) && data == Record(h, ms, tail)
  {
    hide ParseAlias, EncodeHeader, LayAll, Ending, GoodTail, HeaderFits;
    if ParseAlias(data).Some? {
      var a := ParseAlias(data).value;
      ParseAliasIff(data, a);
      var tail :| GoodTail(tail) && data == EncodeHeader(a.header) + EncodeEntries(a.entries) + tail;
      var ms := EntriesSplit(a.entries);
      EntriesLaid(ms);
      GoodEnding(tail);
      assert RecordFits(a.header, ms, tail) && data == Record(a.header, ms, tail);
    }
    if exists h, ms, tail :: RecordFits(h, ms, tail) && data == Record(h, ms, tail) {
      var h, ms, tail :| RecordFits(h, ms, tail) && data == Record(h, ms, tail);
      RecordParses(h, ms, tail);
    }
  }

  // ----- expanding -----

  /** An entry with the tag 20 stands for the expansion of its value, without the padding; others stay. */
  ghost predicate ItemOf(m: Metadata, item: Item)
    requires Fits(m)
  {
    if m.tag == 20 then m.Held? && Expand(m.value).Some? && item == Nested(20, Expand(m.value).value)
    else item == Plain(EntryFor(m))
  }

  lemma NestedValue(m: Metadata)
    requires Fits(m) && m.tag == 20
    ensures |EntryFor(m).value| <= VALUE_CAPACITY
    ensures m.Held? ==> NestedBytes(EntryFor(m)) == m.value
    ensures m.Unheld? ==> Expand(NestedBytes(EntryFor(m))).None?
  {
    if m.Unheld? { WrappedNeverParses(EntryFor(m)); }
  }

  lemma ExpandedItem(data: seq<byte>, ms: seq<Metadata>, i: nat)
    requires AllFit(ms) && i < |ms| && Parses(data) && EntriesOf(data) == EntriesFor(ms)
    requires ExpandEntries(data, EntriesFor(ms)).Some?
    ensures ItemOf(ms[i], ExpandEntries(data, EntriesFor(ms)).value[i])
  {
    hide Expand, Parses, EntriesOf, ExpandEntries, NestedBytes;
    ExpandedEntry(data, EntriesFor(ms), i);
    if ms[i].tag == 20 { NestedValue(ms[i]); }
  }

  lemma ExpandedItems(data: seq<byte>, ms: seq<Metadata>)
    requires AllFit(ms) && Parses(data) && EntriesOf(data) == EntriesFor(ms)
    ensures var items := ExpandEntries(data, EntriesFor(ms));
      && (items.Some? <==> forall i :: 0 <= i < |ms| && ms[i].tag == 20 ==> ms[i].Held? && Expand(ms[i].value).Some?)
      && (items.Some? ==> |items.value| == |ms| && forall i :: 0 <= i < |ms| ==> ItemOf(ms[i], items.value[i]))
  {
    hide Expand, Parses, EntriesOf, ExpandEntries, NestedBytes, EntryFor;
    var es := EntriesFor(ms);
    if ExpandEntries(data, es).Some? {
      forall i | 0 <= i < |ms|
        ensures ItemOf(ms[i], ExpandEntries(data, es).value[i])
      {
        ExpandedItem(data, ms, i);
      }
      assert forall i :: 0 <= i < |ms| && ms[i].tag == 20 ==> ItemOf(ms[i], ExpandEntries(data, es).value[i]);
    } else {
      var e := FailingEntry(data, es);
      var i :| 0 <= i < |es| && es[i] == e;
      EntryLaid(ms[i]);
      NestedValue(ms[i]);
    }
  }

  /** A laid-out record expands exactly when every value with the tag 20 does, and item by item. */
  lemma RecordExpands(h: AliasHeader, ms: seq<Metadata>, tail: seq<byte>)
    requires RecordFits(h, ms, tail)
    ensures var x := Expand(Record(h, ms, tail));
      && (x.Some? <==> forall i :: 0 <= i < |ms| && ms[i].tag == 20 ==> ms[i].Held? && Expand(ms[i].value).Some?)
      && (x.Some? ==> x.value.header == h && |x.value.items| == |ms|
                      && forall i :: 0 <= i < |ms| ==> ItemOf(ms[i], x.value.items[i]))
  {
    var data := Record(h, ms, tail);
    RecordParses(h, ms, tail);
    assert Parses(data) && EntriesOf(data) == EntriesFor(ms);
    hide ItemOf, ParseAlias, ExpandEntries, Record, RecordFits;
    ExpandedItems(data, ms);
  }
}
