/** The variable-length records stored in the nodes of the B-tree, and the reader that decodes one. */
module Records {
  import opened Bytes
  import opened Files

  // Four-character codes of the eight data types.
  const LONG: uint32 := 0x6C6F_6E67  // 'long'
  const SHOR: uint32 := 0x7368_6F72  // 'shor'
  const BOOL: uint32 := 0x626F_6F6C  // 'bool'
  const BLOB: uint32 := 0x626C_6F62  // 'blob'
  const TYPE: uint32 := 0x7479_7065  // 'type'
  const USTR: uint32 := 0x7573_7472  // 'ustr'
  const COMP: uint32 := 0x636F_6D70  // 'comp'
  const DUTC: uint32 := 0x6475_7463  // 'dutc'

  /** The payload of a record. A Bool keeps the byte that was stored, a Dutc its 64 bits. */
  datatype Data =
    | Bool(stored: byte)
    | Comp(comp: uint64)
    | Dutc(dutc: uint64)
    | Long(llong: uint32)
    | Shor(shor: uint16)
    | Type(code: uint32)
    | Blob(bytes: seq<byte>)
    | Ustr(units: seq<uint16>)

  datatype RecordValue = RecordValue(filename: seq<uint16>, recordType: uint32, data: Data)

  function TypeCode(d: Data): uint32 {
    match d
    case Bool(_) => BOOL
    case Comp(_) => COMP
    case Dutc(_) => DUTC
    case Long(_) => LONG
    case Shor(_) => SHOR
    case Type(_) => TYPE
    case Blob(_) => BLOB
    case Ustr(_) => USTR
  }

  predicate Countable(n: nat) { 0 < n < 0x1_0000_0000 }

  predicate DataFits(d: Data) {
    match d
    case Blob(bs) => Countable(|bs|)
    case Ustr(us) => Countable(|us|)
    case _ => true
  }

  /** A record the format can hold: no empty name, blob or string, and counts of 32 bits. */
  predicate RecordFits(r: RecordValue) {
    Countable(|r.filename|) && DataFits(r.data)
  }

  // ----- the layout on disk -----

  /** A short is kept in four bytes; `lead` is what the two leading ones hold, and readers ignore it. */
  function EncodeData(d: Data, lead: uint16): (s: seq<byte>)
    requires DataFits(d)
    ensures |s| == DataLength(d)
  {
    match d
    case Bool(b) => [b]
    case Comp(n) => U64(n)
    case Dutc(n) => U64(n)
    case Long(n) => U32(n)
    case Shor(n) => U16(lead) + U16(n)
    case Type(n) => U32(n)
    case Blob(bs) => U32(|bs|) + bs
    case Ustr(us) => U32(|us|) + Units(us)
  }

  function DataLength(d: Data): nat {
    match d
    case Bool(_) => 1
    case Comp(_) | Dutc(_) => 8
    case Long(_) | Shor(_) | Type(_) => 4
    case Blob(bs) => 4 + |bs|
    case Ustr(us) => 4 + 2 * |us|
  }

  /** File name, record type, data type. */
  function EncodeKey(r: RecordValue): (s: seq<byte>)
    requires Countable(|r.filename|)
    ensures |s| == 12 + 2 * |r.filename|
  {
    U32(|r.filename|) + (Units(r.filename) + (U32(r.recordType) + U32(TypeCode(r.data))))
  }

  function EncodeRecord(r: RecordValue, lead: uint16): (s: seq<byte>)
    requires RecordFits(r)
    ensures |s| == RecordLength(r)
  {
    EncodeKey(r) + EncodeData(r.data, lead)
  }

  function RecordLength(r: RecordValue): nat {
    12 + 2 * |r.filename| + DataLength(r.data)
  }

  /** `r` is stored in `data` at `pos`, whatever the bytes that readers ignore hold. */
  ghost predicate RecordAt(data: seq<byte>, pos: nat, r: RecordValue) {
    RecordFits(r) && exists lead: uint16 :: At(data, pos, EncodeRecord(r, lead))
  }

  // ----- the decoder -----

  function DecodeData(data: seq<byte>, pos: nat, dataType: uint32): (r: Option<(Data, nat)>)
    ensures r.Some? ==> TypeCode(r.value.0) == dataType
  {
    if dataType == BOOL then
      var bs :- ReadBytes(data, pos, 1);
      Some((Bool(bs[0]), pos + 1))
    else if dataType == COMP then
      var n :- ReadU64(data, pos);
      Some((Comp(n), pos + 8))
    else if dataType == DUTC then
      var n :- ReadU64(data, pos);
      Some((Dutc(n), pos + 8))
    else if dataType == LONG then
      var n :- ReadU32(data, pos);
      Some((Long(n), pos + 4))
    else if dataType == SHOR then
      var _ :- ReadBytes(data, pos, 2);
      var n :- ReadU16(data, pos + 2);
      Some((Shor(n), pos + 4))
    else if dataType == TYPE then
      var n :- ReadU32(data, pos);
      Some((Type(n), pos + 4))
    else if dataType == BLOB then
      var n :- ReadU32(data, pos);
      if n == 0 then None else
      var bs :- ReadBytes(data, pos + 4, n);
      Some((Blob(bs), pos + 4 + n))
    else if dataType == USTR then
      var n :- ReadU32(data, pos);
      if n == 0 then None else
      var us :- ReadUnits(data, pos + 4, n);
      Some((Ustr(us), pos + 4 + 2 * n))
    else
      None  // the size of an unknown data type is unknown too
  }

  /** File name, record type and data type of the record at `pos`. */
  function DecodeKey(data: seq<byte>, pos: nat): Option<(seq<uint16>, uint32, uint32)> {
    var n :- ReadU32(data, pos);
    if n == 0 then None else
    var filename :- ReadUnits(data, pos + 4, n);
    var recordType :- ReadU32(data, pos + 4 + 2 * n);
    var dataType :- ReadU32(data, pos + 8 + 2 * n);
    Some((filename, recordType, dataType))
  }

  /** The record at `pos` and the position after it. */
  function DecodeRecord(data: seq<byte>, pos: nat): Option<(RecordValue, nat)> {
    var (filename, recordType, dataType) :- DecodeKey(data, pos);
    var (d, next) :- DecodeData(data, pos + 12 + 2 * |filename|, dataType);
    Some((RecordValue(filename, recordType, d), next))
  }

  // ----- the decoder accepts exactly the encodings -----

  lemma {:induction false} DecodeDataIff(data: seq<byte>, pos: nat, d: Data, next: nat)
    ensures DecodeData(data, pos, TypeCode(d)) == Some((d, next))
       <==> DataFits(d) && next == pos + DataLength(d)
            && exists lead: uint16 :: At(data, pos, EncodeData(d, lead))
  {
    hide U16, U32, U64, Units;
    match d
    case Bool(b) =>
      assert EncodeData(d, 0) == [b];
      if pos + 1 <= |data| {
        assert data[pos..pos + 1] == [data[pos]];
      }
    case Comp(n) => assert EncodeData(d, 0) == U64(n);
    case Dutc(n) => assert EncodeData(d, 0) == U64(n);
    case Long(n) => assert EncodeData(d, 0) == U32(n);
    case Type(n) => assert EncodeData(d, 0) == U32(n);
    case Shor(n) => DecodeShorIff(data, pos, n, next);
    case Blob(bs) => DecodeBlobIff(data, pos, bs, next);
    case Ustr(us) => DecodeUstrIff(data, pos, us, next);
  }

  lemma {:induction false} DecodeShorIff(data: seq<byte>, pos: nat, n: uint16, next: nat)
    ensures DecodeData(data, pos, SHOR) == Some((Shor(n), next))
       <==> next == pos + 4 && exists lead: uint16 :: At(data, pos, EncodeData(Shor(n), lead))
  {
    forall lead: uint16
      ensures At(data, pos, EncodeData(Shor(n), lead)) <==> At(data, pos, U16(lead)) && At(data, pos + 2, U16(n))
    {
      AtConcat(data, pos, U16(lead), U16(n));
    }
    if pos + 2 <= |data| {
      var lead := ReadU16(data, pos).value;
      assert At(data, pos, U16(lead));
      assert At(data, pos, EncodeData(Shor(n), lead)) <==> At(data, pos + 2, U16(n));
    }
  }

  lemma {:induction false} DecodeBlobIff(data: seq<byte>, pos: nat, bs: seq<byte>, next: nat)
    ensures DecodeData(data, pos, BLOB) == Some((Blob(bs), next))
       <==> Countable(|bs|) && next == pos + 4 + |bs|
            && exists lead: uint16 :: At(data, pos, EncodeData(Blob(bs), lead))
  {
    if Countable(|bs|) {
      assert EncodeData(Blob(bs), 0) == U32(|bs|) + bs;
      AtConcat(data, pos, U32(|bs|), bs);
    }
  }

  lemma {:induction false} DecodeUstrIff(data: seq<byte>, pos: nat, us: seq<uint16>, next: nat)
    ensures DecodeData(data, pos, USTR) == Some((Ustr(us), next))
       <==> Countable(|us|) && next == pos + 4 + 2 * |us|
            && exists lead: uint16 :: At(data, pos, EncodeData(Ustr(us), lead))
  {
    if Countable(|us|) {
      assert EncodeData(Ustr(us), 0) == U32(|us|) + Units(us);
      AtConcat(data, pos, U32(|us|), Units(us));
      ReadUnitsAt(data, pos + 4, us);
    }
  }

  lemma {:induction false} EncodeKeyAt(data: seq<byte>, pos: nat, r: RecordValue)
    requires Countable(|r.filename|)
    ensures var n := |r.filename|;
      At(data, pos, EncodeKey(r))
      <==> && At(data, pos, U32(n)) && At(data, pos + 4, Units(r.filename))
           && At(data, pos + 4 + 2 * n, U32(r.recordType)) && At(data, pos + 8 + 2 * n, U32(TypeCode(r.data)))
  {
    var n := |r.filename|;
    var tail := U32(r.recordType) + U32(TypeCode(r.data));
    AtConcat(data, pos, U32(n), Units(r.filename) + tail);
    AtConcat(data, pos + 4, Units(r.filename), tail);
    AtConcat(data, pos + 4 + 2 * n, U32(r.recordType), U32(TypeCode(r.data)));
  }

  lemma {:induction false} DecodeKeyIff(data: seq<byte>, pos: nat, r: RecordValue)
    ensures DecodeKey(data, pos) == Some((r.filename, r.recordType, TypeCode(r.data)))
       <==> Countable(|r.filename|) && At(data, pos, EncodeKey(r))
  {
    hide At, TypeCode;
    var n := |r.filename|;
    if Countable(n) {
      EncodeKeyAt(data, pos, r);
      ReadUnitsAt(data, pos + 4, r.filename);
    }
  }

  lemma {:induction false} EncodeRecordAt(data: seq<byte>, pos: nat, r: RecordValue)
    requires RecordFits(r)
    ensures RecordAt(data, pos, r)
       <==> && At(data, pos, EncodeKey(r))
            && exists lead: uint16 :: At(data, pos + 12 + 2 * |r.filename|, EncodeData(r.data, lead))
  {
    hide At, EncodeKey, EncodeData, TypeCode;
    var mid := pos + 12 + 2 * |r.filename|;
    forall lead: uint16
      ensures At(data, pos, EncodeRecord(r, lead))
         <==> At(data, pos, EncodeKey(r)) && At(data, mid, EncodeData(r.data, lead))
    {
      AtConcat(data, pos, EncodeKey(r), EncodeData(r.data, lead));
    }
    if At(data, pos, EncodeKey(r)) && exists lead: uint16 :: At(data, mid, EncodeData(r.data, lead)) {
      var lead: uint16 :| At(data, mid, EncodeData(r.data, lead));
      assert At(data, pos, EncodeRecord(r, lead));
    }
  }

  /** Decoding a record is decoding its key and then its data. */
  lemma {:induction false} DecodeRecordSplit(data: seq<byte>, pos: nat, r: RecordValue, next: nat)
    ensures DecodeRecord(data, pos) == Some((r, next))
       <==> && DecodeKey(data, pos) == Some((r.filename, r.recordType, TypeCode(r.data)))
            && DecodeData(data, pos + 12 + 2 * |r.filename|, TypeCode(r.data)) == Some((r.data, next))
  {
    var key := DecodeKey(data, pos);
    if key.Some? {
      var (filename, recordType, dataType) := key.value;
      var d := DecodeData(data, pos + 12 + 2 * |filename|, dataType);
      if d.Some? {
        assert DecodeRecord(data, pos) == Some((RecordValue(filename, recordType, d.value.0), d.value.1));
      }
    }
  }

  /** A record is decoded at a position exactly when it is stored there; decoding consumes exactly its length. */
  lemma {:induction false} DecodeRecordIff(data: seq<byte>, pos: nat, r: RecordValue, next: nat)
    ensures DecodeRecord(data, pos) == Some((r, next)) <==> RecordAt(data, pos, r) && next == pos + RecordLength(r)
  {
    hide DecodeRecord, DecodeKey, DecodeData, At;
    DecodeRecordSplit(data, pos, r, next);
    DecodeKeyIff(data, pos, r);
    DecodeDataIff(data, pos + 12 + 2 * |r.filename|, r.data, next);
    if RecordFits(r) {
      EncodeRecordAt(data, pos, r);
    }
  }

  /** Encoding, appending anything and decoding gives the record back and leaves what was appended. */
  lemma {:induction false} DecodeInvertsEncode(r: RecordValue, lead: uint16, rest: seq<byte>)
    requires RecordFits(r)
    ensures DecodeRecord(EncodeRecord(r, lead) + rest, 0) == Some((r, RecordLength(r)))
  {
    var data := EncodeRecord(r, lead) + rest;
    assert At(data, 0, EncodeRecord(r, lead));
    DecodeRecordIff(data, 0, r, RecordLength(r));
  }

  /** No encoding is a proper prefix of another: bytes that start with two encodings start with one record. */
  lemma {:induction false} EncodingsPrefixFree(r: RecordValue, lead: uint16, r': RecordValue, lead': uint16)
    requires RecordFits(r) && RecordFits(r')
    requires EncodeRecord(r, lead) <= EncodeRecord(r', lead')
    ensures r == r' && EncodeRecord(r, lead) == EncodeRecord(r', lead')
  {
    var a, b := EncodeRecord(r, lead), EncodeRecord(r', lead');
    DecodeInvertsEncode(r, lead, b[|a|..]);
    DecodeInvertsEncode(r', lead', []);
    assert a + b[|a|..] == b == b + [];
  }

  lemma {:induction false} SameUpToLead(r: RecordValue, lead: uint16)
    requires RecordFits(r)
    ensures EncodeRecord(r, lead) == EncodeRecord(r, 0)
       <==> (r.data.Shor? ==> EncodeRecord(r, lead)[RecordLength(r) - 4..RecordLength(r) - 2] == [0, 0])
  {
    var e, key := EncodeRecord(r, lead), EncodeKey(r);
    assert e[|key|..] == EncodeData(r.data, lead) && EncodeRecord(r, 0)[|key|..] == EncodeData(r.data, 0);
    if r.data.Shor? {
      assert e[|key|..|key| + 2] == U16(lead);
    }
  }

  lemma SliceOfSlice(data: seq<byte>, pos: nat, n: nat, i: nat, j: nat)
    requires i <= j <= n && pos + n <= |data|
    ensures data[pos..pos + n][i..j] == data[pos + i..pos + j]
  {
    var a, b := data[pos..pos + n][i..j], data[pos + i..pos + j];
    assert |a| == |b|;
    assert forall k :: 0 <= k < |a| ==> a[k] == b[k];
  }

  lemma {:induction false} StoredUpToLead(data: seq<byte>, pos: nat, r: RecordValue)
    requires RecordAt(data, pos, r)
    ensures var next := pos + RecordLength(r);
      next <= |data|
      && (data[pos..next] == EncodeRecord(r, 0) <==> (r.data.Shor? ==> data[next - 4..next - 2] == [0, 0]))
  {
    var lead: uint16 :| At(data, pos, EncodeRecord(r, lead));
    var n := RecordLength(r);
    assert n >= 13;
    hide EncodeRecord;
    SameUpToLead(r, lead);
    assert data[pos..pos + n] == EncodeRecord(r, lead);
    if r.data.Shor? {
      SliceOfSlice(data, pos, n, n - 4, n - 2);
    }
  }

  /**
    Writing a decoded record back with zeros for the ignored bytes reproduces the bytes it was decoded from,
    except for a short whose two leading bytes are not zero: the reader only warns there and drops them.
   */
  lemma {:induction false} ReencodeIff(data: seq<byte>, pos: nat, r: RecordValue, next: nat)
    requires DecodeRecord(data, pos) == Some((r, next))
    ensures RecordFits(r) && pos + 4 <= next <= |data|
    ensures data[pos..next] == EncodeRecord(r, 0) <==> (r.data.Shor? ==> data[next - 4..next - 2] == [0, 0])
  {
    DecodeRecordIff(data, pos, r, next);
    StoredUpToLead(data, pos, r);
  }

  /** A record decoded from a truncated file is decoded from the whole file as well. */
  lemma {:induction false} DecodeExtend(short: seq<byte>, data: seq<byte>, pos: nat)
    requires short <= data && DecodeRecord(short, pos).Some?
    ensures DecodeRecord(data, pos) == DecodeRecord(short, pos)
  {
    var (r, next) := DecodeRecord(short, pos).value;
    DecodeRecordIff(short, pos, r, next);
    var lead: uint16 :| At(short, pos, EncodeRecord(r, lead));
    AtExtend(short, data, pos, EncodeRecord(r, lead));
    DecodeRecordIff(data, pos, r, next);
  }

  // ----- the reader -----

  /** Two bytes as a little-endian host loads them, and the swap that turns that into the stored number. */
  function HostU16(s: seq<byte>): uint16
    requires |s| == 2
  {
    s[0] as int + s[1] as int * 0x100
  }

  function Ntohs(n: uint16): uint16 { n % 0x100 * 0x100 + n / 0x100 }

  lemma {:induction false} FromUnitsAt(s: seq<byte>, i: nat)
    requires |s| % 2 == 0 && 2 * i + 2 <= |s|
    ensures FromUnits(s)[i] == Ntohs(HostU16(s[2 * i..2 * i + 2]))
  {
    if i > 0 {
      FromUnitsAt(s[2..], i - 1);
      assert s[2..][2 * (i - 1)..2 * (i - 1) + 2] == s[2 * i..2 * i + 2];
    }
  }

  /** Loads up to `n` units in host order; what could not be read stays zero. */
  method FreadHostUnits(file: File, n: nat) returns (count: nat, units: array<uint16>)
    requires n > 0
    modifies file`pos
    ensures fresh(units) && units.Length == n
    ensures count == n <==> ReadUnits(file.data, old(file.pos), n).Some?
    ensures count == n ==> file.pos == old(file.pos) + 2 * n
    ensures count == n ==> forall i :: 0 <= i < n ==>
      Ntohs(units[i]) == ReadUnits(file.data, old(file.pos), n).value[i]
  {
    var got := file.Read(2 * n);
    count := |got| / 2;
    units := new uint16[n](i => 0);
    for i := 0 to count
      invariant file.pos == old(file.pos) + |got|
      invariant forall j :: 0 <= j < i ==> units[j] == HostU16(got[2 * j..2 * j + 2])
    {
      units[i] := HostU16(got[2 * i..2 * i + 2]);
    }
    if count == n {
      assert |got| == 2 * n;
      forall i | 0 <= i < n
        ensures Ntohs(units[i]) == ReadUnits(file.data, old(file.pos), n).value[i]
      {
        FromUnitsAt(got, i);
      }
    }
  }

  /** Swaps every unit in place. */
  method SwapUnits(units: array<uint16>)
    modifies units
    ensures forall i :: 0 <= i < units.Length ==> units[i] == Ntohs(old(units[i]))
  {
    for i := 0 to units.Length
      invariant forall j :: 0 <= j < i ==> units[j] == Ntohs(old(units[j]))
      invariant forall j :: i <= j < units.Length ==> units[j] == old(units[j])
    {
      units[i] := Ntohs(units[i]);
    }
  }

  /** A record object; `scalar` is the union of the fixed-size payloads, told apart by the data type. */
  class Record {
    var filename: seq<uint16>
    var recordType: uint32
    var dataType: uint32
    var scalar: uint64
    var dataBlob: seq<byte>
    var dataUstr: seq<uint16>

    constructor ()
      ensures filename == [] && recordType == 0 && dataType == 0 && scalar == 0 && dataBlob == [] && dataUstr == []
    {
      filename, recordType, dataType, scalar, dataBlob, dataUstr := [], 0, 0, 0, [], [];
    }

    /** The payload that the data type selects; None while the object holds no record. */
    function Payload(): Option<Data>
      reads this
    {
      if dataType == BOOL && scalar < 0x100 then Some(Bool(scalar))
      else if dataType == COMP then Some(Comp(scalar))
      else if dataType == DUTC then Some(Dutc(scalar))
      else if dataType == LONG && scalar < 0x1_0000_0000 then Some(Long(scalar))
      else if dataType == SHOR && scalar < 0x1_0000 then Some(Shor(scalar))
      else if dataType == TYPE && scalar < 0x1_0000_0000 then Some(Type(scalar))
      else if dataType == BLOB then Some(Blob(dataBlob))
      else if dataType == USTR then Some(Ustr(dataUstr))
      else None
    }

    function Value(): Option<RecordValue>
      reads this
    {
      var d :- Payload();
      Some(RecordValue(filename, recordType, d))
    }

    /** Reads the record at the cursor. The status is 0 exactly when one could be decoded there. */
    method Fread(file: File) returns (status: int)
      modifies this, file`pos
      ensures status == 0 <==> DecodeRecord(file.data, old(file.pos)).Some?
      ensures status == 0 ==>
        Value().Some? && DecodeRecord(file.data, old(file.pos)) == Some((Value().value, file.pos))
    {
      hide DecodeKey, DecodeData, Record.Payload;
      status := FreadKey(file);
      if status == 0 {
        status := FreadData(file);
      }
    }

    method FreadKey(file: File) returns (status: int)
      modifies this, file`pos
      ensures status == 0 <==> DecodeKey(file.data, old(file.pos)).Some?
      ensures status == 0 ==> DecodeKey(file.data, old(file.pos)) == Some((filename, recordType, dataType))
      ensures status == 0 ==> file.pos == old(file.pos) + 12 + 2 * |filename|
    {
      status := FreadFilename(file);
      if status != 0 { return; }
      var count;
      count, recordType := file.FreadUint32();
      if count != 1 { return 1; }
      count, dataType := file.FreadUint32();
      if count != 1 { return 1; }
    }

    /** A count that must not be zero, then that many units, swapped to host order one by one. */
    method FreadFilename(file: File) returns (status: int)
      modifies this`filename, file`pos
      ensures status == 0 ==> 0 < |filename| && file.pos == old(file.pos) + 4 + 2 * |filename|
      ensures status == 0 ==> ReadU32(file.data, old(file.pos)) == Some(|filename|)
      ensures status == 0 ==> ReadUnits(file.data, old(file.pos) + 4, |filename|) == Some(filename)
      ensures var n := ReadU32(file.data, old(file.pos));
        status == 0 <==> n.Some? && n.value != 0 && ReadUnits(file.data, old(file.pos) + 4, n.value).Some?
    {
      var count, filenameLength := file.FreadUint32();
      if count != 1 { return 1; }
      if filenameLength == 0 { return 1; }
      var n, chars := FreadHostUnits(file, filenameLength);
      if n != filenameLength { return 1; }
      SwapUnits(chars);
      filename := chars[..];
      assert filename == ReadUnits(file.data, old(file.pos) + 4, filenameLength).value;
      status := 0;
    }

    /** The payload of the data type that the key announced. */
    method FreadData(file: File) returns (status: int)
      modifies this`scalar, this`dataBlob, this`dataUstr, file`pos
      ensures status == 0 <==> DecodeData(file.data, old(file.pos), dataType).Some?
      ensures status == 0 ==>
        Payload().Some? && DecodeData(file.data, old(file.pos), dataType) == Some((Payload().value, file.pos))
    {
      var n;
      if dataType == BOOL {
        n, scalar := file.FreadUint8();
      } else if dataType == COMP || dataType == DUTC {
        n, scalar := file.FreadUint64();
      } else if dataType == LONG || dataType == TYPE {
        n, scalar := file.FreadUint32();
      } else if dataType == SHOR {
        var c := file.Read(2);
        if |c| != 2 { return 1; }
        n, scalar := file.FreadUint16();
      } else if dataType == BLOB || dataType == USTR {
        status := FreadCounted(file);
        return;
      } else {
        return 1;
      }
      status := if n == 1 then 0 else 1;
    }

    /** A blob or a string: a count that must not be zero, then that many bytes or units. */
    method FreadCounted(file: File) returns (status: int)
      requires dataType == BLOB || dataType == USTR
      modifies this`dataBlob, this`dataUstr, file`pos
      ensures status == 0 <==> DecodeData(file.data, old(file.pos), dataType).Some?
      ensures status == 0 ==>
        Payload().Some? && DecodeData(file.data, old(file.pos), dataType) == Some((Payload().value, file.pos))
    {
      var count, expected := file.FreadUint32();
      if count != 1 { return 1; }
      if expected == 0 { return 1; }
      var n;
      if dataType == BLOB {
        dataBlob := file.Read(expected);
        n := |dataBlob|;
      } else {
        var ustr;
        n, ustr := FreadHostUnits(file, expected);
        SwapUnits(ustr);
        dataUstr := ustr[..];
        assert n == expected ==> dataUstr == ReadUnits(file.data, old(file.pos) + 4, expected).value;
      }
      status := if n == expected then 0 else 1;
    }
  }
}
