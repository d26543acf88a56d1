/** Short exchanges byte by byte, and the examples of the standards: what fixes every number and every order. */
module Transcript {
  import opened Wrappers
  import opened Wire
  import opened Keys
  import opened Config
  import opened Agent
  import opened AgentRuns

  // ------------------------------------------------------------ examples of RFC 4251

  lemma TwoBytes(a: byte, b: byte)
    ensures FromSlice([a]) == a && FromSlice([a, b]) == a as int * 0x100 + b
  {
    assert [a][..0] == [] && [a, b][..1] == [a];
  }

  lemma FourBytes(a: byte, b: byte, c: byte, d: byte)
    ensures FromSlice([a, b, c, d]) == ((a as int * 0x100 + b) * 0x100 + c) * 0x100 + d
  {
    FromBe32IsBigEndian([a, b, c, d]);
  }

  lemma {:induction false} FromSliceConcat(s: Bytes, t: Bytes)
    ensures FromSlice(s + t) == FromSlice(s) * Pow256(|t|) + FromSlice(t)
  {
    if t == [] {
      assert s + t == s;
    } else {
      var init, last := t[..|t| - 1], t[|t| - 1];
      assert (s + t)[..|s + t| - 1] == s + init;
      FromSliceConcat(s, init);
      assert FromSlice(s + t) == (FromSlice(s) * Pow256(|init|) + FromSlice(init)) * 0x100 + last;
    }
  }

  lemma Canonical(b: Bytes)
    requires b != [] && 0 < b[0] < 0x80
    ensures FromSlice(b) > 0 && MpintBody(FromSlice(b)) == b
  {
    ToVecFromSlice(b);
    assert StripZeros(b) == b;
  }

  /** The positive examples of section 5 of RFC 4251, and its string "testing". */
  lemma Rfc4251Examples()
    ensures Mpint(0x9a378f9b2e332a7) == [0, 0, 0, 8, 0x09, 0xa3, 0x78, 0xf9, 0xb2, 0xe3, 0x32, 0xa7]
    ensures Mpint(0x80) == [0, 0, 0, 2, 0x00, 0x80]
    ensures Str(Ascii("testing")) == [0, 0, 0, 7] + Ascii("testing")
    ensures Be32(699921578) == [0x29, 0xb7, 0xf4, 0xaa]
  {
    hide FromSlice, ToVec, MpintBody, Ascii;
    LongNumber();
    EightyHex();
  }

  lemma LongNumber()
    ensures MpintBody(0x9a378f9b2e332a7) == [0x09, 0xa3, 0x78, 0xf9, 0xb2, 0xe3, 0x32, 0xa7]
  {
    hide FromSlice, ToVec, MpintBody;
    var hi, lo: Bytes := [0x09, 0xa3, 0x78, 0xf9], [0xb2, 0xe3, 0x32, 0xa7];
    FourBytes(0x09, 0xa3, 0x78, 0xf9);
    FourBytes(0xb2, 0xe3, 0x32, 0xa7);
    FromSliceConcat(hi, lo);
    FourBytesPower();
    assert FromSlice(hi + lo) == 0x9a378f9b2e332a7;
    Canonical(hi + lo);
    assert hi + lo == [0x09, 0xa3, 0x78, 0xf9, 0xb2, 0xe3, 0x32, 0xa7];
  }

  lemma FourBytesPower()
    ensures Pow256(4) == 0x1_0000_0000
  {
  }

  lemma EightyHex()
    ensures MpintBody(0x80) == [0x00, 0x80]
  {
    assert ToVec(0) == [] && ToVec(0x80) == [0x80];
  }

  /** Its negative examples, which the agent reads as other numbers. */
  lemma Rfc4251Negatives()
    ensures TwosComplement([0xed, 0xcc]) == -0x1234
    ensures TwosComplement([0xff, 0x21, 0x52, 0x41, 0x11]) == -0xdeadbeef
    ensures FromSlice([0xed, 0xcc]) == 0xedcc
  {
    TwoBytes(0xed, 0xcc);
    TwoBytes(0xff, 0);
    FourBytes(0x21, 0x52, 0x41, 0x11);
    FromSliceConcat([0xff], [0x21, 0x52, 0x41, 0x11]);
    assert [0xff] + [0x21, 0x52, 0x41, 0x11] == [0xff, 0x21, 0x52, 0x41, 0x11];
    assert Pow256(2) == 0x1_0000 && Pow256(4) == 0x1_0000_0000 && Pow256(5) == 0x100_0000_0000;
  }

  // ------------------------------------------------------------ a key, as bytes

  /** n = 55, e = 3, d = 7, iqmp = 1, p = 5, q = 11, under the name "a". */
  const KEY: RsaComponents := RsaComponents(55, 3, 7, 1, 5, 11)
  const NAME: Bytes := [97]

  const RSA_STRING: Bytes := [0, 0, 0, 7, 115, 115, 104, 45, 114, 115, 97]

  function Small(n: byte): Bytes {
    [0, 0, 0, 1, n]
  }

  const ADD_KEY: Bytes :=
    [17] + RSA_STRING + Small(55) + Small(3) + Small(7) + Small(1) + Small(5) + Small(11) + Small(97)

  const BLOB: Bytes := RSA_STRING + Small(3) + Small(55)

  lemma SmallMpint(n: byte)
    requires 0 < n < 0x80
    ensures Mpint(n) == Small(n)
  {
    assert ToVec(0) == [] && ToVec(n) == [n];
  }

  lemma RsaString()
    ensures Str(SSH_RSA) == RSA_STRING && Ascii("ssh-rsa") == SSH_RSA && Str(NAME) == Small(97)
  {
    AlgorithmNames();
  }

  lemma AddKeyBody()
    ensures ADD_KEY[0] == 17 && ADD_KEY[1..] == AddBody(KEY, NAME)
  {
    RsaString();
    SmallMpint(55);
    SmallMpint(3);
    SmallMpint(7);
    SmallMpint(1);
    SmallMpint(5);
    SmallMpint(11);
    hide Mpint, Str, Small;
    assert ADD_KEY == [17] + (RSA_STRING + (Small(55) + (Small(3) + (Small(7) + (Small(1) + (Small(5)
                                                + (Small(11) + Small(97))))))));
  }

  lemma BlobIsEncoded()
    ensures Encode(RsaPublic(3, 55)) == BLOB && |BLOB| == 21
  {
    RsaString();
    SmallMpint(3);
    SmallMpint(55);
    hide Mpint, Str;
  }

  const PAIR: KeyPair := KeyPair(RsaPrivate(55, 3, 7, 5, 11, 3, 7, 1), RsaPublic(3, 55), [97])

  lemma KeyArrives()
    ensures PairFromWire(ADD_KEY[1..]) == Done(PAIR, [])
  {
    hide AddBody, PairFromWire, FitsWire, ReadStringUtf8, Mpint, MpintBody;
    AddKeyBody();
    ShortBodies();
    assert NAME[1..] == [] && ValidUtf8(NAME);
    PairDerived(KEY, NAME);
    DerivedKey();
  }

  lemma DerivedKey()
    ensures Positive(KEY) && !ZeroModulus(KEY) && NewPair(Derive(KEY), NAME) == PAIR
  {
  }

  lemma ShortBodies()
    ensures FitsWire(KEY)
  {
    assert ToVec(0) == [];
    assert ToVec(55) == [55] && ToVec(3) == [3] && ToVec(7) == [7];
    assert ToVec(1) == [1] && ToVec(5) == [5] && ToVec(11) == [11];
  }

  // ------------------------------------------------------------ the exchange

  /** Requests of an agent without keys, and requests it does not know. */
  lemma EmptyAgent(c: Crypto, file: StoredFile, env: Env, other: byte, rest: Bytes)
    requires other != 11 && other != 13 && other != 17
    ensures var st := AgentState([], file);
            && Handle(c, st, [11], env) == Handled(Some([12, 0, 0, 0, 0]), st)
            && Handle(c, st, [other] + rest, env) == Handled(Some([5]), st)
            && Handle(c, st, [], env) == Handled(Some([5]), st)
  {
    IdentityListNil();
    assert AllEncodable([]) && Be32(0) == [0, 0, 0, 0];
    assert IdentitiesAnswer([]) == [12, 0, 0, 0, 0];
    assert ([other] + rest)[0] == other;
    hide PairFromWire, ReadSignRequest;
  }

  /** The key is added: byte 6 if it is saved, byte 5 if not, and it is there in both cases. */
  lemma AddAnswered(c: Crypto, file: StoredFile, env: Env)
    ensures var h := Handle(c, AgentState([], file), ADD_KEY, env);
            h.reply == Some(if env.save.Saved? then [6] else [5]) && h.state.keys == [PAIR]
  {
    KeyArrives();
    hide PairFromWire;
    RequestEffect(c, AgentState([], file), ADD_KEY, env);
    assert ADD_KEY[0] == 17;
    hide Handle;
    assert [] + [PAIR] == [PAIR];
  }

  /** The list then holds one blob of 21 bytes and the name. */
  lemma ListAnswered(c: Crypto, file: StoredFile, env: Env)
    ensures Handle(c, AgentState([PAIR], file), [11], env).reply
            == Some([12, 0, 0, 0, 1] + ([0, 0, 0, 21] + BLOB + [0, 0, 0, 1, 97]))
  {
    BlobIsEncoded();
    RsaString();
    OneIdentity();
    assert AllEncodable([PAIR]);
    assert Be32(1) == [0, 0, 0, 1] && Be32(21) == [0, 0, 0, 21];
    hide IdentityList, Encode, ReadSignRequest, PairFromWire;
    assert [12] + [0, 0, 0, 1] == [12, 0, 0, 0, 1];
  }

  lemma OneIdentity()
    ensures PAIR.public.Encodable() && AllEncodable([PAIR])
    ensures IdentityList([PAIR]) == Str(Encode(PAIR.public)) + Str([97])
  {
    IdentityListNil();
    assert [PAIR][1..] == [];
    hide Encode, Str;
  }

  /** Signing the message "m" with the listed blob and flags 0. */
  const SIGN: Bytes := [13] + ([0, 0, 0, 21] + BLOB + ([0, 0, 0, 1, 109] + [0, 0, 0, 0]))

  lemma SignRead()
    ensures SIGN[0] == 13 && ReadSignRequest(SIGN[1..]) == Parsed(SignRequest(RsaPublic(3, 55), [109], 0), [])
  {
    hide ReadString, Decode, Encode;
    DecodeBlob();
    var msg, flags: Bytes := [109], [0, 0, 0, 0];
    SignParts();
    assert SIGN[1..] == Str(BLOB) + (Str(msg) + flags);
    hide Str;
    ReadWrittenString(BLOB, Str(msg) + flags);
    ReadWrittenString(msg, flags);
    assert flags[..4] == flags && flags[4..] == [];
  }

  lemma SignParts()
    ensures Str([109]) == [0, 0, 0, 1, 109] && |BLOB| == 21 && Str(BLOB) == [0, 0, 0, 21] + BLOB
  {
    BlobIsEncoded();
    assert Be32(1) == [0, 0, 0, 1] && Be32(21) == [0, 0, 0, 21];
    hide Encode;
  }

  lemma DecodeBlob()
    ensures Decode(BLOB) == Parsed(RsaPublic(3, 55), [])
  {
    BlobIsEncoded();
    assert BLOB + [] == BLOB;
    assert ToVec(0) == [] && ToVec(3) == [3] && ToVec(55) == [55];
    DecodeEncode(RsaPublic(3, 55), []);
    hide Decode, Encode;
  }

  /** The user is asked; on No the answer is 5, on Yes 14 and the signature, made with SHA-1, under its algorithm. */
  lemma SignAnswered(c: Crypto, file: StoredFile, env: Env, sig: byte)
    requires c.sign(PAIR.private, Sha1, [109]) == Some([sig])
    ensures KeyToConfirm([PAIR], SIGN) == Some(0)
    ensures Handle(c, AgentState([PAIR], file), SIGN, env).reply
            == Some(if env.answer then [14] + ([0, 0, 0, 16] + (RSA_STRING + [0, 0, 0, 1, sig])) else [5])
  {
    hide ReadSignRequest, FindKey, Signature, Str, KeyToConfirm;
    SignRead();
    OneKeyFound();
    SignatureBytes(c, sig);
    hide PairFromWire, AllEncodable, SIGN, PAIR;
    KeyAsked();
  }

  lemma OneKeyFound()
    ensures FindKey([PAIR], RsaPublic(3, 55)) == Some(0)
  {
  }

  lemma KeyAsked()
    ensures KeyToConfirm([PAIR], SIGN) == Some(0)
  {
    hide ReadSignRequest, FindKey;
    SignRead();
    OneKeyFound();
  }

  lemma SignatureBytes(c: Crypto, sig: byte)
    requires c.sign(PAIR.private, Sha1, [109]) == Some([sig])
    ensures var blob := RSA_STRING + [0, 0, 0, 1, sig];
            Signature(c, PAIR.private, [109], 0) == Some(blob) && Str(blob) == [0, 0, 0, 16] + blob
  {
    RsaString();
    assert Be32(1) == [0, 0, 0, 1] && Be32(16) == [0, 0, 0, 16];
    assert DigestOf(0) == Sha1;
    assert Str([sig]) == [0, 0, 0, 1, sig];
    assert Str(AlgorithmName(Sha1)) + Str([sig]) == RSA_STRING + [0, 0, 0, 1, sig];
    hide Str;
  }
}
