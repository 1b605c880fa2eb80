/**
  A stdio stream over a regular file: its bytes and one cursor that every reader and writer shares.
  Seeking always succeeds, also past the end of the file; reads there come back short, and a write
  there fills the gap with zeros. Writing never runs out of space.
 */
module Files {
  import opened Bytes

  /** What a read of `n` bytes at `pos` gets: fewer than `n` where the file ends first. */
  function Available(data: seq<byte>, pos: nat, n: nat): (s: seq<byte>)
    ensures |s| <= n
    ensures |s| == n <==> n == 0 || pos + n <= |data|
    ensures s != [] ==> At(data, pos, s)
    ensures |s| < n ==> |data| <= pos + |s|
  {
    if |data| <= pos then [] else if pos + n <= |data| then data[pos..pos + n] else data[pos..]
  }

  function Zeros(n: nat): (s: seq<byte>)
    ensures |s| == n && forall i :: 0 <= i < n ==> s[i] == 0
  {
    seq(n, i => 0)
  }

  /** The file after writing `bs` at `pos`. */
  function Overwrite(data: seq<byte>, pos: nat, bs: seq<byte>): (out: seq<byte>)
    ensures bs != [] ==> At(out, pos, bs)
    ensures |data| <= |out| == if bs == [] || pos + |bs| <= |data| then |data| else pos + |bs|
    ensures forall i :: |data| <= i < pos && i < |out| ==> out[i] == 0
    ensures forall i :: 0 <= i < |data| && !(pos <= i < pos + |bs|) ==> out[i] == data[i]
  {
    if bs == [] then data
    else
      var base := if |data| < pos then data + Zeros(pos - |data|) else data;
      base[..pos] + bs + (if pos + |bs| < |base| then base[pos + |bs|..] else [])
  }

  /** Each byte of the file after writing. */
  lemma OverwriteIndex(data: seq<byte>, pos: nat, bs: seq<byte>, i: nat)
    requires bs != [] && i < |Overwrite(data, pos, bs)|
    ensures Overwrite(data, pos, bs)[i]
      == if pos <= i < pos + |bs| then bs[i - pos] else if i < |data| then data[i] else 0
  {
    var out := Overwrite(data, pos, bs);
    hide Overwrite;
    if pos <= i < pos + |bs| {
      assert out[i] == out[pos..pos + |bs|][i - pos];
    }
  }

  /** Writing two chunks one after the other is writing their concatenation. */
  lemma OverwriteTwice(data: seq<byte>, pos: nat, a: seq<byte>, b: seq<byte>)
    ensures Overwrite(Overwrite(data, pos, a), pos + |a|, b) == Overwrite(data, pos, a + b)
  {
    if a == [] {
      assert a + b == b;
    } else if b == [] {
      assert a + b == a;
    } else {
      hide Overwrite, At;
      var d1 := Overwrite(data, pos, a);
      var l, r := Overwrite(d1, pos + |a|, b), Overwrite(data, pos, a + b);
      forall i | 0 <= i < |l|
        ensures l[i] == r[i]
      {
        OverwriteIndex(d1, pos + |a|, b, i);
        OverwriteIndex(data, pos, a + b, i);
        if i < |d1| { OverwriteIndex(data, pos, a, i); }
      }
    }
  }

  class File {
    var data: seq<byte>
    var pos: nat

    constructor (contents: seq<byte>)
      ensures data == contents && pos == 0
    {
      data, pos := contents, 0;
    }

    method Seek(offset: nat)
      modifies this`pos
      ensures pos == offset
    {
      pos := offset;
    }

    method Tell() returns (offset: nat)
      ensures offset == pos
    {
      offset := pos;
    }

    /** Reads up to `n` bytes and moves the cursor over what it got, also when that is too little. */
    method Read(n: nat) returns (got: seq<byte>)
      modifies this`pos
      ensures got == Available(data, old(pos), n)
      ensures pos == old(pos) + |got|
    {
      got := Available(data, pos, n);
      pos := pos + |got|;
    }

    method Write(bs: seq<byte>)
      modifies this
      ensures data == Overwrite(old(data), old(pos), bs)
      ensures pos == old(pos) + |bs|
    {
      data := Overwrite(data, pos, bs);
      pos := pos + |bs|;
    }

    method FreadUint8() returns (count: nat, value: byte)
      modifies this`pos
      ensures count <= 1
      ensures count == 1 <==> old(pos) + 1 <= |data|
      ensures count == 1 ==> pos == old(pos) + 1 && At(data, old(pos), [value])
    {
      var got := Read(1);
      count := |got|;
      value := if count == 1 then got[0] else 0;
    }

    method FreadUint16() returns (count: nat, value: uint16)
      modifies this`pos
      ensures count <= 1
      ensures count == 1 <==> ReadU16(data, old(pos)).Some?
      ensures count == 1 ==> pos == old(pos) + 2 && ReadU16(data, old(pos)) == Some(value)
    {
      var got := Read(2);
      count, value := |got| / 2, 0;
      if count == 1 {
        value := FromU16(got);
        U16Inverse(value, got);
      }
    }

    method FreadUint32() returns (count: nat, value: uint32)
      modifies this`pos
      ensures count <= 1
      ensures count == 1 <==> ReadU32(data, old(pos)).Some?
      ensures count == 1 ==> pos == old(pos) + 4 && ReadU32(data, old(pos)) == Some(value)
    {
      var got := Read(4);
      count, value := |got| / 4, 0;
      if count == 1 {
        value := FromU32(got);
        U32Inverse(value, got);
      }
    }

    method FreadUint64() returns (count: nat, value: uint64)
      modifies this`pos
      ensures count <= 1
      ensures count == 1 <==> ReadU64(data, old(pos)).Some?
      ensures count == 1 ==> pos == old(pos) + 8 && ReadU64(data, old(pos)) == Some(value)
    {
      var got := Read(8);
      count, value := |got| / 8, 0;
      if count == 1 {
        value := FromU64(got);
        U64Inverse(value, got);
      }
    }

    method FwriteUint32(value: uint32)
      modifies this
      ensures data == Overwrite(old(data), old(pos), U32(value))
      ensures pos == old(pos) + 4
    {
      Write(U32(value));
    }
  }
}
