/** Fixed-width big-endian numbers in byte sequences: the layer every reader and writer stands on. */
module Bytes {
  type byte = b: int | 0 <= b < 0x100
  type uint16 = n: int | 0 <= n < 0x1_0000
  type uint32 = n: int | 0 <= n < 0x1_0000_0000
  type uint64 = n: int | 0 <= n < 0x1_0000_0000_0000_0000

  datatype Option<+T> = None | Some(value: T) {
    predicate IsFailure() { None? }

    function PropagateFailure<U>(): Option<U>
      requires None?
    { None }

    function Extract(): T
      requires Some?
    { value }
  }

  // ----- the encoders -----

  function U16(n: uint16): (s: seq<byte>)
    ensures |s| == 2
  {
    [n / 0x100, n % 0x100]
  }

  function U32(n: uint32): (s: seq<byte>)
    ensures |s| == 4
  {
    [n / 0x100_0000, n / 0x1_0000 % 0x100, n / 0x100 % 0x100, n % 0x100]
  }

  function U64(n: uint64): (s: seq<byte>)
    ensures |s| == 8
  {
    U32(n / 0x1_0000_0000) + U32(n % 0x1_0000_0000)
  }

  /** Sixteen-bit units one after the other. */
  function Units(us: seq<uint16>): (s: seq<byte>)
    ensures |s| == 2 * |us|
  {
    if us == [] then [] else U16(us[0]) + Units(us[1..])
  }

  /** Thirty-two-bit words one after the other. */
  function Words(ws: seq<uint32>): (s: seq<byte>)
    ensures |s| == 4 * |ws|
  {
    if ws == [] then [] else U32(ws[0]) + Words(ws[1..])
  }

  lemma WordsConcat(a: seq<uint32>, b: seq<uint32>)
    ensures Words(a + b) == Words(a) + Words(b)
  {
    if a == [] {
      assert a + b == b;
    } else {
      WordsConcat(a[1..], b);
      assert (a + b)[1..] == a[1..] + b;
    }
  }

  // ----- the decoders: each looks at a position and answers None where too few bytes are left -----

  function FromU16(s: seq<byte>): uint16
    requires |s| == 2
  {
    s[0] as int * 0x100 + s[1] as int
  }

  function FromU32(s: seq<byte>): uint32
    requires |s| == 4
  {
    s[0] as int * 0x100_0000 + s[1] as int * 0x1_0000 + s[2] as int * 0x100 + s[3] as int
  }

  function FromU64(s: seq<byte>): uint64
    requires |s| == 8
  {
    FromU32(s[..4]) * 0x1_0000_0000 + FromU32(s[4..])
  }

  function FromUnits(s: seq<byte>): (us: seq<uint16>)
    requires |s| % 2 == 0
    ensures |us| == |s| / 2
  {
    if s == [] then [] else [FromU16(s[..2])] + FromUnits(s[2..])
  }

  lemma U16Inverse(n: uint16, s: seq<byte>)
    requires |s| == 2
    ensures FromU16(s) == n <==> s == U16(n)
  {
  }

  lemma U32Inverse(n: uint32, s: seq<byte>)
    requires |s| == 4
    ensures FromU32(s) == n <==> s == U32(n)
  {
    if FromU32(s) == n {
      assert n / 0x100_0000 == s[0];
      assert n / 0x1_0000 == s[0] as int * 0x100 + s[1] as int;
      assert n / 0x100 == s[0] as int * 0x1_0000 + s[1] as int * 0x100 + s[2] as int;
    }
  }

  lemma U64Inverse(n: uint64, s: seq<byte>)
    requires |s| == 8
    ensures FromU64(s) == n <==> s == U64(n)
  {
    var hi, lo := n / 0x1_0000_0000, n % 0x1_0000_0000;
    U32Inverse(hi, s[..4]);
    U32Inverse(lo, s[4..]);
    assert s == s[..4] + s[4..];
    if FromU64(s) == n {
      assert FromU32(s[..4]) == hi && FromU32(s[4..]) == lo;
    }
    if s == U64(n) {
      assert s[..4] == U32(hi) && s[4..] == U32(lo);
    }
  }

  lemma {:induction false} UnitsInverse(us: seq<uint16>, s: seq<byte>)
    requires |s| == 2 * |us|
    ensures FromUnits(s) == us <==> s == Units(us)
  {
    if us != [] {
      U16Inverse(us[0], s[..2]);
      UnitsInverse(us[1..], s[2..]);
      assert us == [us[0]] + us[1..];
      assert s == s[..2] + s[2..];
      if FromUnits(s) == us {
        assert FromU16(s[..2]) == us[0] && FromUnits(s[2..]) == us[1..];
      }
      if s == Units(us) {
        assert s[..2] == U16(us[0]) && s[2..] == Units(us[1..]);
      }
    }
  }

  /** The bytes `bs` stand in `data` at position `pos`. */
  predicate At(data: seq<byte>, pos: nat, bs: seq<byte>) {
    pos + |bs| <= |data| && data[pos..pos + |bs|] == bs
  }

  /** Chunks laid end to end stand where their concatenation stands. */
  lemma AtConcat(data: seq<byte>, pos: nat, a: seq<byte>, b: seq<byte>)
    ensures At(data, pos, a + b) <==> At(data, pos, a) && At(data, pos + |a|, b)
  {
    if pos + |a| + |b| <= |data| {
      var s := data[pos..pos + |a| + |b|];
      assert s[..|a|] == data[pos..pos + |a|];
      assert s[|a|..] == data[pos + |a|..pos + |a| + |b|];
      assert s == s[..|a|] + s[|a|..];
      if At(data, pos, a + b) {
        assert s[..|a|] == a && s[|a|..] == b;
      }
    }
  }

  /** What stands in a prefix of a file stands in the whole file. */
  lemma AtExtend(short: seq<byte>, data: seq<byte>, pos: nat, bs: seq<byte>)
    requires short <= data && At(short, pos, bs)
    ensures At(data, pos, bs)
  {
    assert short[pos..pos + |bs|] == data[pos..pos + |bs|];
  }

  function ReadBytes(data: seq<byte>, pos: nat, n: nat): (r: Option<seq<byte>>)
    ensures r.Some? <==> pos + n <= |data|
    ensures r.Some? ==> |r.value| == n && At(data, pos, r.value)
  {
    if pos + n <= |data| then Some(data[pos..pos + n]) else None
  }

  function ReadU16(data: seq<byte>, pos: nat): (r: Option<uint16>)
    ensures r.Some? <==> pos + 2 <= |data|
    ensures r.Some? ==> At(data, pos, U16(r.value))
    ensures forall n: uint16 {:trigger At(data, pos, U16(n))} :: At(data, pos, U16(n)) ==> r == Some(n)
  {
    if pos + 2 <= |data| then
      assert forall n: uint16 :: FromU16(data[pos..pos + 2]) == n <==> data[pos..pos + 2] == U16(n) by {
        forall n: uint16 { U16Inverse(n, data[pos..pos + 2]); }
      }
      Some(FromU16(data[pos..pos + 2]))
    else None
  }

  function ReadU32(data: seq<byte>, pos: nat): (r: Option<uint32>)
    ensures r.Some? <==> pos + 4 <= |data|
    ensures r.Some? ==> At(data, pos, U32(r.value))
    ensures forall n: uint32 {:trigger At(data, pos, U32(n))} :: At(data, pos, U32(n)) ==> r == Some(n)
  {
    if pos + 4 <= |data| then
      assert forall n: uint32 :: FromU32(data[pos..pos + 4]) == n <==> data[pos..pos + 4] == U32(n) by {
        forall n: uint32 { U32Inverse(n, data[pos..pos + 4]); }
      }
      Some(FromU32(data[pos..pos + 4]))
    else None
  }

  function ReadU64(data: seq<byte>, pos: nat): (r: Option<uint64>)
    ensures r.Some? <==> pos + 8 <= |data|
    ensures r.Some? ==> At(data, pos, U64(r.value))
    ensures forall n: uint64 {:trigger At(data, pos, U64(n))} :: At(data, pos, U64(n)) ==> r == Some(n)
  {
    if pos + 8 <= |data| then
      assert forall n: uint64 :: FromU64(data[pos..pos + 8]) == n <==> data[pos..pos + 8] == U64(n) by {
        forall n: uint64 { U64Inverse(n, data[pos..pos + 8]); }
      }
      Some(FromU64(data[pos..pos + 8]))
    else None
  }

  function ReadUnits(data: seq<byte>, pos: nat, n: nat): (r: Option<seq<uint16>>)
    ensures r.Some? <==> pos + 2 * n <= |data|
    ensures r.Some? ==> |r.value| == n
  {
    if pos + 2 * n <= |data| then Some(FromUnits(data[pos..pos + 2 * n])) else None
  }

  lemma {:induction false} ReadUnitsAt(data: seq<byte>, pos: nat, us: seq<uint16>)
    ensures ReadUnits(data, pos, |us|) == Some(us) <==> At(data, pos, Units(us))
  {
    if pos + 2 * |us| <= |data| {
      UnitsInverse(us, data[pos..pos + 2 * |us|]);
    }
  }
}
