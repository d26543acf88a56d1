/**
 The byte streams behind src/agent/wire.rs as the source uses them: a cursor that advances over a
 buffer and a vector that grows, each operation proved against its pure counterpart in `Wire`.
 */
module WireIo {
  import opened Wrappers
  import opened Wire

  // ------------------------------------------------------------ the loops behind BigNum

  method BigNumFromSlice(b: Bytes) returns (n: nat)
    ensures n == FromSlice(b)
  {
    n := 0;
    for i := 0 to |b|
      invariant n == FromSlice(b[..i])
    {
      assert b[..i + 1][..i] == b[..i];
      n := n * 0x100 + b[i];
    }
    assert b[..|b|] == b;
  }

  method BigNumToVec(n: nat) returns (b: Bytes)
    ensures b == ToVec(n)
  {
    b := [];
    var m := n;
    while m > 0
      invariant ToVec(n) == ToVec(m) + b
    {
      b := [m % 0x100] + b;
      m := m / 0x100;
    }
  }

  // ------------------------------------------------------------ the advancing reader

  /** `Cursor<&[u8]>` with the extension methods of `ReadExt`. */
  class Cursor {
    const data: Bytes
    var pos: nat

    ghost predicate Valid()
      reads this
    {
      pos <= |data|
    }

    ghost function Remaining(): Bytes
      requires Valid()
      reads this
    {
      data[pos..]
    }

    constructor (data: Bytes)
      ensures Valid() && Remaining() == data
    {
      this.data, pos := data, 0;
    }

    method ReadExact(n: nat) returns (r: Option<Bytes>)
      requires Valid()
      modifies this
      ensures Valid()
      ensures n <= |old(Remaining())| ==> r == Some(old(Remaining())[..n]) && Remaining() == old(Remaining())[n..]
      ensures n > |old(Remaining())| ==> r == None
    {
      if |data| - pos < n {
        return None;
      }
      r := Some(data[pos..pos + n]);
      assert data[pos..][..n] == data[pos..pos + n] && data[pos..][n..] == data[pos + n..];
      pos := pos + n;
    }

    method ReadU8() returns (r: Option<byte>)
      requires Valid()
      modifies this
      ensures Valid() && Follows(Wire.ReadU8(old(Remaining())), r, Remaining())
    {
      var b := ReadExact(1);
      r := if b.Some? then Some(b.value[0]) else None;
    }

    method ReadU32() returns (r: Option<nat>)
      requires Valid()
      modifies this
      ensures Valid() && Follows(Wire.ReadU32(old(Remaining())), r, Remaining())
    {
      var b := ReadExact(4);
      r := if b.Some? then Some(FromBe32(b.value)) else None;
    }

    method ReadString() returns (r: Option<Bytes>)
      requires Valid()
      modifies this
      ensures Valid() && Follows(Wire.ReadString(old(Remaining())), r, Remaining())
    {
      var len := ReadU32();
      if len.None? {
        return None;
      }
      r := ReadExact(len.value);
    }

    method ReadStringUtf8() returns (r: Option<Bytes>)
      requires Valid()
      modifies this
      ensures Valid() && Follows(Wire.ReadStringUtf8(old(Remaining())), r, Remaining())
    {
      r := ReadString();
      if r.Some? && !ValidUtf8(r.value) {
        r := None;
      }
    }

    method ReadMpint() returns (r: Option<nat>)
      requires Valid()
      modifies this
      ensures Valid() && Follows(Wire.ReadMpint(old(Remaining())), r, Remaining())
    {
      var s := ReadString();
      if s.None? {
        return None;
      }
      var n := BigNumFromSlice(s.value);
      r := Some(n);
    }
  }

  // ------------------------------------------------------------ the growing vector

  /** `Vec<u8>` with the extension methods of `WriteExt`. */
  class ByteBuffer {
    var bytes: Bytes

    constructor ()
      ensures bytes == []
    {
      bytes := [];
    }

    method WriteU8(b: byte)
      modifies this
      ensures bytes == old(bytes) + [b]
    {
      bytes := bytes + [b];
    }

    method WriteU32(n: nat)
      modifies this
      ensures bytes == old(bytes) + Be32(n)
    {
      bytes := bytes + Be32(n);
    }

    method WriteString(s: Bytes)
      modifies this
      ensures bytes == old(bytes) + Str(s)
    {
      WriteU32(|s|);
      bytes := bytes + s;
    }

    method WriteMpint(n: nat)
      requires n > 0
      modifies this
      ensures bytes == old(bytes) + Mpint(n)
    {
      var body := BigNumToVec(n);
      ToVecNonempty(n);
      if body[0] >= 0x80 {
        body := [0] + body;
      }
      WriteString(body);
    }
  }
}
