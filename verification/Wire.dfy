/**
 The wire format of src/agent/wire.rs: big-endian 32-bit lengths, length-prefixed strings
 and the multiple precision integers of section 5 of RFC 4251.

 The functions here are the specification; `WireIo` holds the advancing reader and the growing
 vector that the source works with, proved against them.
 */
module Wire {
  import opened Wrappers

  type byte = b: int | 0 <= b < 0x100
  type Bytes = seq<byte>

  const U32_LIMIT: nat := 0x1_0000_0000

  // ------------------------------------------------------------ 32-bit numbers

  /** Four big-endian bytes of `n as u32`: a larger number loses its high bits. */
  function Be32(n: nat): (b: Bytes)
    ensures |b| == 4
  {
    [n / 0x100_0000 % 0x100, n / 0x1_0000 % 0x100, n / 0x100 % 0x100, n % 0x100]
  }

  function FromBe32(b: Bytes): (n: nat)
    requires |b| == 4
    ensures n < U32_LIMIT
  {
    ((b[0] as int * 0x100 + b[1]) * 0x100 + b[2]) * 0x100 + b[3]
  }

  lemma FromBe32Be32(n: nat)
    ensures FromBe32(Be32(n)) == n % U32_LIMIT
  {
    var a := n / 0x100;
    var b := a / 0x100;
    assert n / 0x1_0000 == b;
    assert n / 0x100_0000 == b / 0x100;
    assert n == a * 0x100 + n % 0x100;
    assert a == b * 0x100 + a % 0x100;
    assert b == (b / 0x100) * 0x100 + b % 0x100;
    assert b / 0x100 == (n / U32_LIMIT) * 0x100 + (b / 0x100) % 0x100;
  }

  lemma Be32FromBe32(b: Bytes)
    requires |b| == 4
    ensures Be32(FromBe32(b)) == b
  {
    var n := FromBe32(b);
    var hi := b[0] as int * 0x100 + b[1];
    var mid := hi * 0x100 + b[2];
    assert n / 0x100 == mid && n % 0x100 == b[3];
    assert mid / 0x100 == hi && mid % 0x100 == b[2];
    assert hi / 0x100 == b[0] && hi % 0x100 == b[1];
    assert n / 0x1_0000 == hi && n / 0x100_0000 == b[0];
  }

  // ------------------------------------------------------------ readers

  function ReadU8(b: Bytes): Parsed<byte, Bytes> {
    if |b| < 1 then Malformed else Parsed(b[0], b[1..])
  }

  function ReadU32(b: Bytes): Parsed<nat, Bytes> {
    if |b| < 4 then Malformed else Parsed(FromBe32(b[..4]), b[4..])
  }

  function ReadString(b: Bytes): (r: Parsed<Bytes, Bytes>)
    ensures r.Parsed? ==> |b| == 4 + |r.value| + |r.rest|
  {
    var (len, rest) :- ReadU32(b);
    if |rest| < len then Malformed else Parsed(rest[..len], rest[len..])
  }

  /** A `String` is represented by its UTF-8 bytes. */
  function ReadStringUtf8(b: Bytes): (r: Parsed<Bytes, Bytes>)
    ensures r.Parsed? ==> |b| == 4 + |r.value| + |r.rest|
  {
    var (s, rest) :- ReadString(b);
    if ValidUtf8(s) then Parsed(s, rest) else Malformed
  }

  function ReadMpint(b: Bytes): (r: Parsed<nat, Bytes>)
    ensures r.Parsed? ==> 4 + |r.rest| <= |b|
  {
    var (s, rest) :- ReadString(b);
    Parsed(FromSlice(s), rest)
  }

  predicate Continuation(b: byte) {
    0x80 <= b <= 0xBF
  }

  /** Well-formed UTF-8 (table 3-7 of the Unicode standard), the test `String::from_utf8` makes. */
  predicate ValidUtf8(b: Bytes) {
    if |b| == 0 then true
    else if b[0] <= 0x7F then ValidUtf8(b[1..])
    else if 0xC2 <= b[0] <= 0xDF then
      |b| >= 2 && Continuation(b[1]) && ValidUtf8(b[2..])
    else if 0xE0 <= b[0] <= 0xEF then
      && |b| >= 3
      && (if b[0] == 0xE0 then 0xA0 else 0x80) <= b[1] <= (if b[0] == 0xED then 0x9F else 0xBF)
      && Continuation(b[2])
      && ValidUtf8(b[3..])
    else if 0xF0 <= b[0] <= 0xF4 then
      && |b| >= 4
      && (if b[0] == 0xF0 then 0x90 else 0x80) <= b[1] <= (if b[0] == 0xF4 then 0x8F else 0xBF)
      && Continuation(b[2]) && Continuation(b[3])
      && ValidUtf8(b[4..])
    else false
  }

  // ------------------------------------------------------------ writers

  function Str(s: Bytes): (b: Bytes)
    ensures |b| == 4 + |s|
  {
    Be32(|s|) + s
  }

  /** Body of the mpint that `write_mpint` emits. The source indexes the first byte, so zero panics. */
  function MpintBody(n: nat): (b: Bytes)
    requires n > 0
    ensures |b| > 0
  {
    ToVecNonempty(n);
    var v := ToVec(n);
    if v[0] >= 0x80 then [0] + v else v
  }

  function Mpint(n: nat): Bytes
    requires n > 0
  {
    Str(MpintBody(n))
  }

  /** For every string: reading back what was written gives the bytes that the truncated length covers. */
  lemma ReadWrittenString(s: Bytes, tail: Bytes)
    ensures var k := |s| % U32_LIMIT;
            ReadString(Str(s) + tail) == Parsed(s[..k], s[k..] + tail)
    ensures ReadString(Str(s) + tail) == Parsed(s, tail) <==> |s| < U32_LIMIT
  {
    FromBe32Be32(|s|);
    var k := |s| % U32_LIMIT;
    var b := Str(s) + tail;
    assert b[..4] == Be32(|s|);
    assert b[4..] == s + tail;
    assert (s + tail)[..k] == s[..k];
    assert (s + tail)[k..] == s[k..] + tail;
    if |s| < U32_LIMIT {
      assert s[..k] == s && s[k..] + tail == tail;
    } else {
      assert |s[..k]| != |s|;
    }
  }

  /** The converse: whatever `read_string` accepts is the written form of what it returns. */
  lemma WrittenReadString(b: Bytes)
    requires ReadString(b).Parsed?
    ensures var Parsed(s, rest) := ReadString(b); |s| < U32_LIMIT && b == Str(s) + rest
  {
    Be32FromBe32(b[..4]);
    var Parsed(s, rest) := ReadString(b);
    assert b == b[..4] + b[4..];
  }

  // ------------------------------------------------------------ big numbers

  /** `BigNum::from_slice`: an unsigned big-endian number. */
  function FromSlice(b: Bytes): nat {
    if |b| == 0 then 0 else FromSlice(b[..|b| - 1]) * 0x100 + b[|b| - 1]
  }

  /** `BigNum::to_vec`: no leading zero byte, and no byte at all for zero. */
  function ToVec(n: nat): Bytes {
    if n == 0 then [] else ToVec(n / 0x100) + [n % 0x100]
  }

  function StripZeros(b: Bytes): Bytes {
    if |b| > 0 && b[0] == 0 then StripZeros(b[1..]) else b
  }

  function Pow256(k: nat): (r: nat)
    ensures r > 0
  {
    if k == 0 then 1 else Pow256(k - 1) * 0x100
  }

  function BitLength(n: nat): nat {
    if n == 0 then 0 else 1 + BitLength(n / 2)
  }

  lemma {:induction false} ToVecNonempty(n: nat)
    requires n > 0
    ensures |ToVec(n)| > 0 && ToVec(n)[0] != 0
  {
    if n >= 0x100 {
      ToVecNonempty(n / 0x100);
    } else {
      assert ToVec(n / 0x100) == [];
    }
  }

  lemma {:induction false} FromSliceToVec(n: nat)
    ensures FromSlice(ToVec(n)) == n
  {
    if n > 0 {
      FromSliceToVec(n / 0x100);
      var v := ToVec(n);
      assert v[..|v| - 1] == ToVec(n / 0x100);
    }
  }

  lemma {:induction false} StripSnoc(b: Bytes, x: byte)
    ensures StripZeros(b + [x]) == if StripZeros(b) == [] then StripZeros([x]) else StripZeros(b) + [x]
  {
    if |b| > 0 {
      assert (b + [x])[1..] == b[1..] + [x];
      if b[0] == 0 {
        StripSnoc(b[1..], x);
      }
    } else {
      assert b + [x] == [x];
    }
  }

  /** Writing a number back after reading it keeps every byte but the leading zeros. */
  lemma {:induction false} ToVecFromSlice(b: Bytes)
    ensures ToVec(FromSlice(b)) == StripZeros(b)
  {
    if |b| > 0 {
      var init, x := b[..|b| - 1], b[|b| - 1];
      assert b == init + [x];
      ToVecFromSlice(init);
      StripSnoc(init, x);
      var m := FromSlice(init);
      assert FromSlice(b) == m * 0x100 + x;
      assert (m * 0x100 + x) / 0x100 == m && (m * 0x100 + x) % 0x100 == x;
      if m > 0 {
        ToVecNonempty(m);
      }
    }
  }

  lemma {:induction false} StripIsSuffix(b: Bytes) returns (k: nat)
    ensures k <= |b| && StripZeros(b) == b[k..]
    ensures forall i :: 0 <= i < k ==> b[i] == 0
  {
    if |b| > 0 && b[0] == 0 {
      var j := StripIsSuffix(b[1..]);
      k := j + 1;
      assert b[1..][j..] == b[k..];
      forall i | 0 <= i < k
        ensures b[i] == 0
      {
        if i > 0 {
          assert b[i] == b[1..][i - 1];
        }
      }
    } else {
      k := 0;
    }
  }

  lemma {:induction false} FromSliceBound(b: Bytes)
    ensures FromSlice(b) < Pow256(|b|)
  {
    if |b| > 0 {
      FromSliceBound(b[..|b| - 1]);
    }
  }

  /** The length prefix is the big-endian number that its four bytes spell. */
  lemma FromBe32IsBigEndian(b: Bytes)
    requires |b| == 4
    ensures FromBe32(b) == FromSlice(b)
  {
    assert b[..3][..2] == b[..2] && b[..2][..1] == b[..1] && b[..1][..0] == [];
    assert FromSlice(b[..1]) == b[0];
    assert FromSlice(b[..2]) == FromSlice(b[..1]) * 0x100 + b[1];
    assert FromSlice(b[..3]) == FromSlice(b[..2]) * 0x100 + b[2];
  }

  // ------------------------------------------------------------ canonical mpints

  /** The value section 5 of RFC 4251 gives to an mpint body: big-endian two's complement. */
  function TwosComplement(b: Bytes): int {
    if |b| == 0 then 0 else FromSlice(b) - (if b[0] >= 0x80 then Pow256(|b|) else 0)
  }

  lemma {:induction false} FromSliceLeadingZero(b: Bytes)
    ensures FromSlice([0] + b) == FromSlice(b)
  {
    var z: Bytes := [0];
    if |b| > 0 {
      FromSliceLeadingZero(b[..|b| - 1]);
      assert (z + b)[..|z + b| - 1] == z + b[..|b| - 1];
    } else {
      assert z + b == z;
      assert z[..0] == [];
    }
  }

  lemma MpintBodyValue(n: nat)
    requires n > 0
    ensures FromSlice(MpintBody(n)) == n && TwosComplement(MpintBody(n)) == n
  {
    FromSliceToVec(n);
    ToVecNonempty(n);
    FromSliceLeadingZero(ToVec(n));
  }

  /** `write_mpint` emits the one shortest two's complement body: any other body of the number is longer. */
  lemma MpintBodyCanonical(n: nat, other: Bytes)
    requires n > 0
    requires TwosComplement(other) == n
    ensures |MpintBody(n)| <= |other|
    ensures |other| == |MpintBody(n)| <==> other == MpintBody(n)
  {
    FromSliceBound(other);
    assert FromSlice(other) == n && other[0] < 0x80;
    ToVecFromSlice(other);
    var k := StripIsSuffix(other);
    assert ToVec(n) == other[k..];
    ToVecNonempty(n);
    if ToVec(n)[0] >= 0x80 {
      assert k > 0;
      assert other[k - 1..] == [0] + other[k..];
    }
    if |other| == |MpintBody(n)| {
      assert other == other[|other| - |MpintBody(n)|..];
    }
  }

  /** `read_mpint` takes the body as unsigned, which is the RFC's number exactly when its first bit is 0. */
  lemma ReadMpintAgreesExactly(s: Bytes, tail: Bytes)
    requires |s| < U32_LIMIT
    ensures ReadMpint(Str(s) + tail) == Parsed(FromSlice(s), tail)
    ensures ReadMpint(Str(s) + tail).value == TwosComplement(s) <==> s == [] || s[0] < 0x80
  {
    ReadWrittenString(s, tail);
    assert ReadString(Str(s) + tail) == Parsed(s, tail);
    hide ReadString, Str;
  }

  /** The one-byte body 80 (hexadecimal) stands for -128 in the RFC, and the agent reads 128. */
  lemma NegativeMpintExample()
    ensures ReadMpint(Str([0x80])) == Parsed(128, []) && TwosComplement([0x80]) == -128
  {
    var s: Bytes := [0x80];
    assert s[..0] == [] && FromSlice(s) == 128 && Pow256(1) == 256;
    ReadMpintAgreesExactly(s, []);
    assert Str(s) + [] == Str(s);
  }

  lemma BitLengthByte(n: nat)
    requires 0 < n < 0x100
    ensures 1 <= BitLength(n) <= 8
    ensures BitLength(n) == 8 <==> n >= 0x80
  {
    var a := n / 2; var b := a / 2; var c := b / 2; var d := c / 2;
    var e := d / 2; var f := e / 2; var g := f / 2;
    assert a < 0x80 && b < 0x40 && c < 0x20 && d < 0x10 && e < 8 && f < 4 && g < 2;
    assert BitLength(g) == g;
    assert BitLength(f) <= 2 && (BitLength(f) == 2 <==> g > 0);
    assert BitLength(e) <= 3 && (BitLength(e) == 3 <==> g > 0);
    assert BitLength(d) <= 4 && (BitLength(d) == 4 <==> g > 0);
    assert BitLength(c) <= 5 && (BitLength(c) == 5 <==> g > 0);
    assert BitLength(b) <= 6 && (BitLength(b) == 6 <==> g > 0);
    assert BitLength(a) <= 7 && (BitLength(a) == 7 <==> g > 0);
  }

  lemma BitLengthShift(n: nat)
    requires n >= 0x100
    ensures BitLength(n) == 8 + BitLength(n / 0x100)
  {
    var a := n / 2; var b := a / 2; var c := b / 2; var d := c / 2;
    var e := d / 2; var f := e / 2; var g := f / 2; var h := g / 2;
    assert b == n / 4 && d == b / 4 && f == d / 4 && h == f / 4;
    assert h == n / 0x100;
    assert BitLength(d) == 4 + BitLength(h) by {
      assert BitLength(f) == 2 + BitLength(h);
    }
    assert BitLength(n) == 4 + BitLength(d) by {
      assert BitLength(b) == 2 + BitLength(d);
    }
  }

  lemma {:induction false} ToVecBits(n: nat)
    requires n > 0
    ensures |ToVec(n)| == (BitLength(n) + 7) / 8
    ensures |ToVec(n)| > 0 && (ToVec(n)[0] >= 0x80 <==> BitLength(n) % 8 == 0)
  {
    if n < 0x100 {
      assert ToVec(n / 0x100) == [];
      assert ToVec(n) == [n];
      BitLengthByte(n);
    } else {
      var m := n / 0x100;
      ToVecBits(m);
      BitLengthShift(n);
      assert ToVec(n) == ToVec(m) + [n % 0x100];
      assert (8 + BitLength(m)) % 8 == BitLength(m) % 8;
    }
  }

  /** Body length: one byte more than the whole bytes of the number's bits, leaving room for the sign bit. */
  lemma MpintBodyLength(n: nat)
    requires n > 0
    ensures |MpintBody(n)| == BitLength(n) / 8 + 1
  {
    ToVecBits(n);
  }

  /** `read_mpint` undoes `write_mpint`. */
  lemma ReadWrittenMpint(n: nat, tail: Bytes)
    requires n > 0 && |MpintBody(n)| < U32_LIMIT
    ensures ReadMpint(Mpint(n) + tail) == Parsed(n, tail)
  {
    ReadWrittenString(MpintBody(n), tail);
    MpintBodyValue(n);
  }

  /** `write_mpint` after `read_mpint`: the body read, without its redundant leading zeros. */
  lemma WrittenReadMpint(s: Bytes)
    requires FromSlice(s) > 0
    ensures var t := StripZeros(s);
            && |t| > 0
            && MpintBody(FromSlice(s)) == (if t[0] >= 0x80 then [0] + t else t)
            && |MpintBody(FromSlice(s))| <= |s| + 1
  {
    ToVecFromSlice(s);
    ToVecNonempty(FromSlice(s));
    var k := StripIsSuffix(s);
  }

  /** Writing back a number takes at most one byte more than reading it did. */
  lemma MpintCost(b: Bytes)
    requires ReadMpint(b).Parsed? && ReadMpint(b).value > 0
    ensures |MpintBody(ReadMpint(b).value)| + 3 + |ReadMpint(b).rest| <= |b|
  {
    WrittenReadMpint(ReadString(b).value);
  }
}
