/** Which byte strings the agent accepts as names: exactly the UTF-8 encodings of sequences of Unicode scalar values. */
module Utf8 {
  import opened Wrappers
  import opened Wire
  import opened Sequences

  predicate Scalar(n: nat) {
    n < 0x11_0000 && !(0xD800 <= n <= 0xDFFF)
  }

  /** The shortest form of one scalar value (section 3 of RFC 3629). */
  function EncodeScalar(n: nat): (b: Bytes)
    requires Scalar(n)
    ensures |b| > 0
  {
    if n < 0x80 then [n]
    else if n < 0x800 then [0xC0 + n / 0x40, 0x80 + n % 0x40]
    else if n < 0x1_0000 then [0xE0 + n / 0x1000, 0x80 + n / 0x40 % 0x40, 0x80 + n % 0x40]
    else [0xF0 + n / 0x4_0000, 0x80 + n / 0x1000 % 0x40, 0x80 + n / 0x40 % 0x40, 0x80 + n % 0x40]
  }

  predicate AllScalar(text: seq<nat>) {
    forall i :: 0 <= i < |text| ==> Scalar(text[i])
  }

  function Encode(text: seq<nat>): Bytes
    requires AllScalar(text)
  {
    if text == [] then [] else EncodeScalar(text[0]) + Encode(text[1..])
  }

  lemma ThreeByteParts(n: nat)
    requires 0x800 <= n < 0x1_0000
    ensures n / 0x1000 == 0 ==> n / 0x40 % 0x40 >= 0x20
    ensures n / 0x1000 == 0xD && !(0xD800 <= n <= 0xDFFF) ==> n / 0x40 % 0x40 < 0x20
    ensures n / 0x1000 < 0x10
  {
    var m := n / 0x40;
    assert m / 0x40 == n / 0x1000;
    assert m == (m / 0x40) * 0x40 + m % 0x40;
  }

  lemma FourByteParts(n: nat)
    requires 0x1_0000 <= n < 0x11_0000
    ensures n / 0x4_0000 == 0 ==> n / 0x1000 % 0x40 >= 0x10
    ensures n / 0x4_0000 == 4 ==> n / 0x1000 % 0x40 < 0x10
    ensures n / 0x4_0000 <= 4
  {
    var m := n / 0x1000;
    assert m / 0x40 == n / 0x4_0000;
    assert m == (m / 0x40) * 0x40 + m % 0x40;
  }

  lemma OneScalarAccepted(n: nat, rest: Bytes)
    requires Scalar(n)
    ensures ValidUtf8(EncodeScalar(n) + rest) == ValidUtf8(rest)
  {
    var e := EncodeScalar(n);
    var b := e + rest;
    assert b[|e|..] == rest;
    if 0x800 <= n < 0x1_0000 {
      ThreeByteParts(n);
    } else if n >= 0x1_0000 {
      FourByteParts(n);
    }
  }

  /** Every encoding is accepted. */
  lemma {:induction false} EncodedIsValid(text: seq<nat>)
    requires AllScalar(text)
    ensures ValidUtf8(Encode(text))
  {
    if text != [] {
      hide EncodeScalar, Scalar, ValidUtf8;
      EncodedIsValid(text[1..]);
      OneScalarAccepted(text[0], Encode(text[1..]));
    } else {
      assert ValidUtf8([]);
    }
  }

  /** `n` is the first character of `b`, in `k` bytes. */
  predicate StartsWith(b: Bytes, n: nat, k: nat) {
    Scalar(n) && k <= |b| && EncodeScalar(n) == b[..k] && ValidUtf8(b[k..])
  }

  lemma FirstOfTwo(b: Bytes) returns (n: nat)
    requires b != [] && 0x80 <= b[0] <= 0xDF && ValidUtf8(b)
    ensures StartsWith(b, n, 2)
  {
    n := (b[0] as int - 0xC0) * 0x40 + (b[1] as int - 0x80);
  }

  lemma FirstOfThree(b: Bytes) returns (n: nat)
    requires b != [] && 0xE0 <= b[0] <= 0xEF && ValidUtf8(b)
    ensures StartsWith(b, n, 3)
  {
    var hi, mid, lo := b[0] as int - 0xE0, b[1] as int - 0x80, b[2] as int - 0x80;
    n := (hi * 0x40 + mid) * 0x40 + lo;
    assert n / 0x40 == hi * 0x40 + mid && n / 0x1000 == hi;
  }

  lemma FirstOfFour(b: Bytes) returns (n: nat)
    requires b != [] && 0xF0 <= b[0] && ValidUtf8(b)
    ensures StartsWith(b, n, 4)
  {
    var top, hi, mid, lo := b[0] as int - 0xF0, b[1] as int - 0x80, b[2] as int - 0x80, b[3] as int - 0x80;
    n := ((top * 0x40 + hi) * 0x40 + mid) * 0x40 + lo;
    assert n / 0x40 == (top * 0x40 + hi) * 0x40 + mid;
    assert n / 0x1000 == top * 0x40 + hi && n / 0x4_0000 == top;
  }

  lemma FirstScalar(b: Bytes) returns (n: nat)
    requires b != [] && ValidUtf8(b)
    ensures Scalar(n) && |EncodeScalar(n)| <= |b|
    ensures b == EncodeScalar(n) + b[|EncodeScalar(n)|..]
    ensures ValidUtf8(b[|EncodeScalar(n)|..])
  {
    var k: nat := 1;
    if b[0] <= 0x7F {
      n := b[0];
      assert EncodeScalar(n) == b[..1];
    } else if b[0] <= 0xDF {
      n := FirstOfTwo(b);
      k := 2;
    } else if b[0] <= 0xEF {
      n := FirstOfThree(b);
      k := 3;
    } else {
      n := FirstOfFour(b);
      k := 4;
    }
    assert StartsWith(b, n, k);
    hide EncodeScalar, Scalar, ValidUtf8;
    assert b == b[..k] + b[k..];
  }

  /** Everything accepted is an encoding. */
  lemma {:induction false} ValidIsEncoded(b: Bytes) returns (text: seq<nat>)
    requires ValidUtf8(b)
    ensures AllScalar(text) && Encode(text) == b
    decreases |b|
  {
    if b == [] {
      text := [];
    } else {
      var n := FirstScalar(b);
      hide EncodeScalar, Scalar, ValidUtf8;
      var rest := ValidIsEncoded(b[|EncodeScalar(n)|..]);
      text := [n] + rest;
      TailOfCons(n, rest);
    }
  }

  ghost predicate IsText(b: Bytes) {
    exists text :: AllScalar(text) && Encode(text) == b
  }

  /** A string that is sent is read as text exactly when it encodes some, and then whole. */
  lemma TextReadExactly(s: Bytes, tail: Bytes)
    requires |s| < U32_LIMIT
    ensures ReadStringUtf8(Str(s) + tail) == if IsText(s) then Parsed(s, tail) else Malformed
  {
    ReadWrittenString(s, tail);
    hide ReadString, Str, ValidUtf8;
    if ValidUtf8(s) {
      var text := ValidIsEncoded(s);
      assert IsText(s);
    }
    if IsText(s) {
      var text :| AllScalar(text) && Encode(text) == s;
      EncodedIsValid(text);
    }
  }

  /** The examples of RFC 3629, section 7: A, not identical to, Alpha, full stop; and one character of four bytes. */
  lemma Rfc3629Examples()
    ensures Encode([0x41]) == [0x41]
    ensures EncodeScalar(0x2262) == [0xE2, 0x89, 0xA2]
    ensures EncodeScalar(0x0391) == [0xCE, 0x91]
    ensures EncodeScalar(0x233B4) == [0xF0, 0xA3, 0x8E, 0xB4]
  {
    assert [0x41][1..] == [];
  }
}
