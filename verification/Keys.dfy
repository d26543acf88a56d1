/** RSA keys and their wire form, after src/key/mod.rs. */
module Keys {
  import opened Wrappers
  import opened Wire
  import opened WireIo

  /** The name "ssh-rsa", and the names of the other two signature algorithms. */
  const SSH_RSA: Bytes := [0x73, 0x73, 0x68, 0x2D, 0x72, 0x73, 0x61]
  const RSA_SHA2_256: Bytes := [0x72, 0x73, 0x61, 0x2D, 0x73, 0x68, 0x61, 0x32, 0x2D, 0x32, 0x35, 0x36]
  const RSA_SHA2_512: Bytes := [0x72, 0x73, 0x61, 0x2D, 0x73, 0x68, 0x61, 0x32, 0x2D, 0x35, 0x31, 0x32]

  /** The numbers an ADD_IDENTITY message carries, in its order. */
  datatype RsaComponents = RsaComponents(n: nat, e: nat, d: nat, iqmp: nat, p: nat, q: nat)

  datatype PrivateKey = RsaPrivate(n: nat, e: nat, d: nat, p: nat, q: nat, dp: nat, dq: nat, iqmp: nat)

  datatype PublicKey = RsaPublic(e: nat, n: nat) {
    /** `encode` indexes the first byte of both numbers, so it panics unless both are positive. */
    predicate Encodable() {
      e > 0 && n > 0
    }
  }

  datatype KeyPair = KeyPair(private: PrivateKey, public: PublicKey, name: Bytes)

  datatype Digest = Sha1 | Sha256 | Sha512

  /** The parts of OpenSSL the agent calls: signing, which may fail, and the PEM form of a key. */
  datatype Crypto = Crypto(
    sign: (PrivateKey, Digest, Bytes) -> Option<Bytes>,
    toPem: PrivateKey -> Bytes,
    fromPem: Bytes -> Option<PrivateKey>
  ) {
    ghost predicate PemRoundTrips() {
      forall k :: fromPem(toPem(k)) == Some(k)
    }
  }

  // ------------------------------------------------------------ private keys

  function Public(k: PrivateKey): PublicKey {
    RsaPublic(k.e, k.n)
  }

  function NewPair(k: PrivateKey, name: Bytes): KeyPair {
    KeyPair(k, Public(k), name)
  }

  function ReadComponents(b: Bytes): Parsed<RsaComponents, Bytes> {
    var (keyType, b0) :- ReadStringUtf8(b);
    if keyType != SSH_RSA then Malformed else
    var (n, b1) :- ReadMpint(b0);
    var (e, b2) :- ReadMpint(b1);
    var (d, b3) :- ReadMpint(b2);
    var (iqmp, b4) :- ReadMpint(b3);
    var (p, b5) :- ReadMpint(b4);
    var (q, b6) :- ReadMpint(b5);
    Parsed(RsaComponents(n, e, d, iqmp, p, q), b6)
  }

  /** Reducing d modulo p - 1 divides by zero, which panics. */
  predicate ZeroModulus(c: RsaComponents) {
    c.p == 1 || c.q == 1
  }

  /** The key with the two CRT exponents that the agent works out itself. */
  function Derive(c: RsaComponents): PrivateKey
    requires !ZeroModulus(c)
  {
    RsaPrivate(c.n, c.e, c.d, c.p, c.q, c.d % (c.p - 1), c.d % (c.q - 1), c.iqmp)
  }

  function PrivateFromWire(b: Bytes): Attempt<PrivateKey, Bytes> {
    match ReadComponents(b)
    case Malformed => Failed
    case Parsed(c, rest) => if ZeroModulus(c) then Panicked else Done(Derive(c), rest)
  }

  function PairFromWire(b: Bytes): Attempt<KeyPair, Bytes> {
    match PrivateFromWire(b)
    case Failed => Failed
    case Panicked => Panicked
    case Done(key, rest) =>
      match ReadStringUtf8(rest)
      case Malformed => Failed
      case Parsed(name, rest') => Done(NewPair(key, name), rest')
  }

  ghost predicate AttemptFollows<T>(spec: Attempt<T, Bytes>, got: Attempt<T, ()>, left: Bytes) {
    match spec
    case Done(v, rest) => got == Done(v, ()) && left == rest
    case Failed => got == Failed
    case Panicked => got == Panicked
  }

  method ReadComponentsFrom(r: Cursor) returns (c: Option<RsaComponents>)
    requires r.Valid()
    modifies r
    ensures r.Valid() && Follows(ReadComponents(old(r.Remaining())), c, r.Remaining())
  {
    var keyType := r.ReadStringUtf8();
    if keyType != Some(SSH_RSA) { return None; }
    var n := r.ReadMpint();
    if n.None? { return None; }
    var e := r.ReadMpint();
    if e.None? { return None; }
    var d := r.ReadMpint();
    if d.None? { return None; }
    var iqmp := r.ReadMpint();
    if iqmp.None? { return None; }
    var p := r.ReadMpint();
    if p.None? { return None; }
    var q := r.ReadMpint();
    if q.None? { return None; }
    c := Some(RsaComponents(n.value, e.value, d.value, iqmp.value, p.value, q.value));
  }

  method PrivateKeyFromWire(r: Cursor) returns (k: Attempt<PrivateKey, ()>)
    requires r.Valid()
    modifies r
    ensures r.Valid() && AttemptFollows(PrivateFromWire(old(r.Remaining())), k, r.Remaining())
  {
    var c := ReadComponentsFrom(r);
    if c.None? {
      return Failed;
    }
    if ZeroModulus(c.value) {
      return Panicked;
    }
    k := Done(Derive(c.value), ());
  }

  method KeyPairFromWire(r: Cursor) returns (k: Attempt<KeyPair, ()>)
    requires r.Valid()
    modifies r
    ensures r.Valid() && AttemptFollows(PairFromWire(old(r.Remaining())), k, r.Remaining())
  {
    var key := PrivateKeyFromWire(r);
    match key {
      case Failed => return Failed;
      case Panicked => return Panicked;
      case Done(private, _) =>
        var name := r.ReadStringUtf8();
        if name.None? {
          return Failed;
        }
        return Done(NewPair(private, name.value), ());
    }
  }

  // ------------------------------------------------------------ signatures

  function DigestOf(flags: nat): Digest {
    if flags / 4 % 2 > 0 then Sha512 else if flags / 2 % 2 > 0 then Sha256 else Sha1
  }

  function AlgorithmName(d: Digest): Bytes {
    match d
    case Sha1 => SSH_RSA
    case Sha256 => RSA_SHA2_256
    case Sha512 => RSA_SHA2_512
  }

  function Ascii(s: string): (b: Bytes)
    ensures |b| == |s|
  {
    seq(|s|, i requires 0 <= i < |s| => s[i] as int % 0x100)
  }

  /**
   The algorithm a signature is labelled with, by the two flag bits of section 4.5.1 of
   draft-miller-ssh-agent-04: bit 2 asks for SHA-512 and wins over bit 1, which asks for SHA-256.
   */
  lemma AlgorithmForFlags(flags: nat)
    ensures 4 <= flags % 8 ==> DigestOf(flags) == Sha512 && AlgorithmName(DigestOf(flags)) == Ascii("rsa-sha2-512")
    ensures 2 <= flags % 8 < 4 ==> DigestOf(flags) == Sha256 && AlgorithmName(DigestOf(flags)) == Ascii("rsa-sha2-256")
    ensures flags % 8 < 2 ==> DigestOf(flags) == Sha1 && AlgorithmName(DigestOf(flags)) == Ascii("ssh-rsa")
  {
    AlgorithmNames();
    hide AlgorithmName, Ascii;
    FlagBits(flags);
  }

  lemma FlagBits(flags: nat)
    ensures flags / 4 % 2 == flags % 8 / 4
    ensures flags / 2 % 2 == flags % 8 / 2 % 2
  {
    var h := flags / 2;
    var k := h / 2;
    assert flags / 4 == k && flags / 8 == k / 2;
    var x, y, z := flags % 2, h % 2, k % 2;
    assert flags % 8 == 4 * z + 2 * y + x;
  }

  lemma AlgorithmNames()
    ensures AlgorithmName(Sha512) == Ascii("rsa-sha2-512")
    ensures AlgorithmName(Sha256) == Ascii("rsa-sha2-256")
    ensures AlgorithmName(Sha1) == Ascii("ssh-rsa")
  {
  }

  function Signature(c: Crypto, k: PrivateKey, msg: Bytes, flags: nat): Option<Bytes> {
    match c.sign(k, DigestOf(flags), msg)
    case None => None
    case Some(sig) => Some(Str(AlgorithmName(DigestOf(flags))) + Str(sig))
  }

  method Sign(c: Crypto, k: PrivateKey, msg: Bytes, flags: nat) returns (blob: Option<Bytes>)
    ensures blob == Signature(c, k, msg, flags)
  {
    var digest, name := Sha1, SSH_RSA;
    if flags / 4 % 2 > 0 {
      digest, name := Sha512, RSA_SHA2_512;
    } else if flags / 2 % 2 > 0 {
      digest, name := Sha256, RSA_SHA2_256;
    }
    var out := new ByteBuffer();
    out.WriteString(name);
    var sig := c.sign(k, digest, msg);
    if sig.None? {
      return None;
    }
    out.WriteString(sig.value);
    assert [] + Str(name) == Str(name);
    blob := Some(out.bytes);
  }

  // ------------------------------------------------------------ public key blobs

  function Encode(k: PublicKey): Bytes
    requires k.Encodable()
  {
    Str(SSH_RSA) + Mpint(k.e) + Mpint(k.n)
  }

  /** Reads a blob off the front of `b`; bytes after it are ignored. */
  function Decode(b: Bytes): Parsed<PublicKey, Bytes> {
    var (keyType, b0) :- ReadStringUtf8(b);
    if keyType != SSH_RSA then Malformed else
    var (e, b1) :- ReadMpint(b0);
    var (n, b2) :- ReadMpint(b1);
    Parsed(RsaPublic(e, n), b2)
  }

  method EncodePublic(k: PublicKey) returns (blob: Bytes)
    requires k.Encodable()
    ensures blob == Encode(k)
  {
    var buf := new ByteBuffer();
    buf.WriteString(SSH_RSA);
    buf.WriteMpint(k.e);
    buf.WriteMpint(k.n);
    blob := buf.bytes;
  }

  method DecodePublic(b: Bytes) returns (k: Option<PublicKey>)
    ensures k == match Decode(b) case Parsed(key, _) => Some(key) case Malformed => None
  {
    var cur := new Cursor(b);
    var keyType := cur.ReadStringUtf8();
    if keyType != Some(SSH_RSA) { return None; }
    var e := cur.ReadMpint();
    if e.None? { return None; }
    var n := cur.ReadMpint();
    if n.None? { return None; }
    k := Some(RsaPublic(e.value, n.value));
  }

  /** Both mpint bodies fit the 32-bit length prefix. */
  predicate FitsBlob(k: PublicKey)
    requires k.Encodable()
  {
    |MpintBody(k.e)| < U32_LIMIT && |MpintBody(k.n)| < U32_LIMIT
  }

  lemma SshRsaIsUtf8()
    ensures ValidUtf8(SSH_RSA)
  {
    assert ValidUtf8(SSH_RSA[5..]);
    assert SSH_RSA[1..][1..] == SSH_RSA[2..] && SSH_RSA[2..][1..] == SSH_RSA[3..];
    assert SSH_RSA[3..][1..] == SSH_RSA[4..] && SSH_RSA[4..][1..] == SSH_RSA[5..];
    assert ValidUtf8(SSH_RSA[4..]) && ValidUtf8(SSH_RSA[3..]) && ValidUtf8(SSH_RSA[2..]);
  }

  /** An encoded key decodes to itself whatever follows it, and what follows is left unread. */
  lemma DecodeEncode(k: PublicKey, tail: Bytes)
    requires k.Encodable() && FitsBlob(k)
    ensures Decode(Encode(k) + tail) == Parsed(k, tail)
  {
    SshRsaIsUtf8();
    var b1 := Mpint(k.n) + tail;
    var b0 := Mpint(k.e) + b1;
    assert Encode(k) + tail == Str(SSH_RSA) + b0;
    ReadWrittenString(SSH_RSA, b0);
    ReadWrittenMpint(k.e, b1);
    ReadWrittenMpint(k.n, tail);
  }

  /** Different keys have different blobs, and no blob is a proper prefix of another. */
  lemma EncodeInjective(k: PublicKey, l: PublicKey, kTail: Bytes, lTail: Bytes)
    requires k.Encodable() && FitsBlob(k) && l.Encodable() && FitsBlob(l)
    requires Encode(k) + kTail == Encode(l) + lTail
    ensures k == l && kTail == lTail
  {
    DecodeEncode(k, kTail);
    DecodeEncode(l, lTail);
  }

  /** What a blob of at most 2^32 bytes decodes to fits the prefixes when written back, unless a number is zero. */
  lemma DecodedFits(b: Bytes)
    requires |b| < U32_LIMIT && Decode(b).Parsed? && Decode(b).value.Encodable()
    ensures FitsBlob(Decode(b).value)
    ensures |Encode(Decode(b).value)| <= |b| + 2
  {
    var Parsed(t, b0) := ReadStringUtf8(b);
    MpintCost(b0);
    MpintCost(ReadMpint(b0).rest);
  }

  /** Decoding and encoding again gives the normal form of a blob: same key, and normalising twice changes nothing. */
  lemma EncodeAfterDecode(b: Bytes)
    requires |b| < U32_LIMIT && Decode(b).Parsed? && Decode(b).value.Encodable()
    ensures var blob := Encode(Decode(b).value);
            && Decode(blob).Parsed?
            && Decode(blob).value == Decode(b).value
            && Encode(Decode(blob).value) == blob
  {
    DecodedFits(b);
    var blob := Encode(Decode(b).value);
    DecodeEncode(Decode(b).value, []);
    assert blob + [] == blob;
  }

  // ------------------------------------------------------------ importing a key

  predicate Positive(c: RsaComponents) {
    c.n > 0 && c.e > 0 && c.d > 0 && c.iqmp > 0 && c.p > 0 && c.q > 0
  }

  predicate FitsWire(c: RsaComponents)
    requires Positive(c)
  {
    && |MpintBody(c.n)| < U32_LIMIT && |MpintBody(c.e)| < U32_LIMIT && |MpintBody(c.d)| < U32_LIMIT
    && |MpintBody(c.iqmp)| < U32_LIMIT && |MpintBody(c.p)| < U32_LIMIT && |MpintBody(c.q)| < U32_LIMIT
  }

  /** The body a client sends in ADD_IDENTITY for an RSA key (section 4.2.5 of draft-miller-ssh-agent-04). */
  function AddBody(c: RsaComponents, name: Bytes): Bytes
    requires Positive(c)
  {
    Str(SSH_RSA)
    + (Mpint(c.n) + (Mpint(c.e) + (Mpint(c.d) + (Mpint(c.iqmp) + (Mpint(c.p) + (Mpint(c.q) + Str(name)))))))
  }

  lemma ReadWrittenComponents(c: RsaComponents, name: Bytes)
    requires Positive(c) && FitsWire(c)
    ensures ReadComponents(AddBody(c, name)) == Parsed(c, Str(name))
  {
    SshRsaIsUtf8();
    var b6 := Str(name);
    var b5 := Mpint(c.q) + b6;
    var b4 := Mpint(c.p) + b5;
    var b3 := Mpint(c.iqmp) + b4;
    var b2 := Mpint(c.d) + b3;
    var b1 := Mpint(c.e) + b2;
    var b0 := Mpint(c.n) + b1;
    ReadWrittenString(SSH_RSA, b0);
    ReadWrittenMpint(c.n, b1);
    ReadWrittenMpint(c.e, b2);
    ReadWrittenMpint(c.d, b3);
    ReadWrittenMpint(c.iqmp, b4);
    ReadWrittenMpint(c.p, b5);
    ReadWrittenMpint(c.q, b6);
  }

  lemma PairDerived(c: RsaComponents, name: Bytes)
    requires Positive(c) && FitsWire(c) && !ZeroModulus(c)
    requires ValidUtf8(name) && |name| < U32_LIMIT
    ensures PairFromWire(AddBody(c, name)) == Done(NewPair(Derive(c), name), [])
  {
    ReadWrittenComponents(c, name);
    ReadWrittenString(name, []);
    assert Str(name) + [] == Str(name);
  }

  /** A key sent by a client arrives with its numbers and its name, each in its place, and the derived exponents. */
  lemma PairFromWrittenWire(c: RsaComponents, name: Bytes)
    requires Positive(c) && FitsWire(c) && !ZeroModulus(c)
    requires ValidUtf8(name) && |name| < U32_LIMIT
    ensures PairFromWire(AddBody(c, name)).Done? && PairFromWire(AddBody(c, name)).rest == []
    ensures var KeyPair(private, public, arrived) := PairFromWire(AddBody(c, name)).value;
            && private.n == c.n && private.e == c.e && private.d == c.d
            && private.p == c.p && private.q == c.q && private.iqmp == c.iqmp
            && private.dp == c.d % (c.p - 1) && private.dq == c.d % (c.q - 1)
            && public.e == c.e && public.n == c.n && arrived == name
  {
    PairDerived(c, name);
    hide AddBody, PairFromWire, FitsWire, ValidUtf8;
  }

  /** A key of another type is refused, in an ADD as in a blob. */
  lemma OtherTypesRefused(keyType: Bytes, tail: Bytes)
    requires |keyType| < U32_LIMIT && keyType != SSH_RSA
    ensures ReadComponents(Str(keyType) + tail).Malformed? && Decode(Str(keyType) + tail).Malformed?
    ensures PairFromWire(Str(keyType) + tail).Failed?
  {
    ReadWrittenString(keyType, tail);
    hide ReadString, Str, ValidUtf8, ReadMpint;
  }

  lemma EncodeLength(k: PublicKey)
    requires k.Encodable()
    ensures |Encode(k)| == 19 + |MpintBody(k.e)| + |MpintBody(k.n)|
  {
  }

  /** Six numbers are read; the last four take at least their length prefixes. */
  lemma FirstTwoNumbers(b: Bytes)
    requires ReadComponents(b).Parsed?
    ensures var b0 := ReadStringUtf8(b).rest;
            && ReadMpint(b0).Parsed? && ReadMpint(b0).value == ReadComponents(b).value.n
            && var b1 := ReadMpint(b0).rest;
            && ReadMpint(b1).Parsed? && ReadMpint(b1).value == ReadComponents(b).value.e
            && |b1| > |ReadMpint(b1).rest| >= 16 + |ReadComponents(b).rest|
            && |b| == 11 + |b0|
  {
    hide ReadMpint, ReadStringUtf8;
  }

  /** The numbers that arrive in a message of `|b|` bytes can be written back within `|b|` bytes. */
  lemma ImportedComponentsFit(b: Bytes)
    requires |b| < U32_LIMIT && ReadComponents(b).Parsed?
    ensures |ReadComponents(b).rest| <= |b|
    ensures var k := RsaPublic(ReadComponents(b).value.e, ReadComponents(b).value.n);
            k.Encodable() ==> FitsBlob(k) && |Encode(k)| < U32_LIMIT
  {
    FirstTwoNumbers(b);
    var b0 := ReadStringUtf8(b).rest;
    var k := RsaPublic(ReadComponents(b).value.e, ReadComponents(b).value.n);
    if k.Encodable() {
      EncodeLength(k);
      MpintCost(b0);
      MpintCost(ReadMpint(b0).rest);
    }
  }

  /** Whatever arrives over a frame of less than 2^32 bytes can be listed again within 32-bit lengths. */
  lemma ImportedFits(b: Bytes)
    requires |b| < U32_LIMIT && PairFromWire(b).Done?
    ensures var pair := PairFromWire(b).value;
            && pair.public == Public(pair.private)
            && ValidUtf8(pair.name)
            && |pair.name| < U32_LIMIT
            && (pair.public.Encodable() ==> FitsBlob(pair.public) && |Encode(pair.public)| < U32_LIMIT)
  {
    ImportedComponentsFit(b);
  }
}
