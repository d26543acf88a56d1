/** From importing a key to a verified signature: the agent's messages and the RSA arithmetic together. */
module SignedExchange {
  import opened Wrappers
  import opened Wire
  import opened Keys
  import opened RsaSigning
  import opened Config
  import opened Agent
  import opened AgentRuns
  import opened Replies

  function Zeros(k: nat): Bytes {
    if k == 0 then [] else [0] + Zeros(k - 1)
  }

  /** I2OSP: big-endian, left-padded to `len` bytes (section 4.1 of RFC 8017). */
  function I2osp(x: nat, len: nat): Bytes {
    var v := ToVec(x);
    (if |v| < len then Zeros(len - |v|) else []) + v
  }

  lemma {:induction false} FromSliceZeros(k: nat, v: Bytes)
    ensures FromSlice(Zeros(k) + v) == FromSlice(v)
  {
    if k > 0 {
      FromSliceZeros(k - 1, v);
      FromSliceLeadingZero(Zeros(k - 1) + v);
      assert Zeros(k) + v == [0] + (Zeros(k - 1) + v);
    } else {
      assert Zeros(0) + v == v;
    }
  }

  lemma FromSliceI2osp(x: nat, len: nat)
    ensures FromSlice(I2osp(x, len)) == x
  {
    FromSliceToVec(x);
    var v := ToVec(x);
    FromSliceZeros(if |v| < len then len - |v| else 0, v);
  }

  lemma {:induction false} ZerosLength(k: nat)
    ensures |Zeros(k)| == k
  {
    if k > 0 {
      ZerosLength(k - 1);
    }
  }

  lemma {:induction false} ToVecMonotone(x: nat, y: nat)
    requires x <= y
    ensures |ToVec(x)| <= |ToVec(y)|
  {
    if x > 0 {
      ToVecMonotone(x / 0x100, y / 0x100);
    }
  }

  /** A number up to `n` is written in as many bytes as `n` has. */
  lemma I2ospLength(x: nat, n: nat)
    requires x <= n
    ensures |I2osp(x, |ToVec(n)|)| == |ToVec(n)|
  {
    ToVecMonotone(x, n);
    ZerosLength(|ToVec(n)| - |ToVec(x)|);
  }

  /** The padded message as a number below the modulus, if the modulus is large enough for one. */
  type Padding = (Digest, Bytes, nat) -> Option<nat>

  ghost predicate BelowModulus(emsa: Padding) {
    forall d, msg, n :: emsa(d, msg, n).Some? ==> emsa(d, msg, n).value < n
  }

  /** Signing is that of section 8.2.1 of RFC 8017, with the five-part form of the key, wherever the key is valid. */
  ghost predicate SignsAsRfc8017(c: Crypto, emsa: Padding) {
    forall comps, d, msg {:trigger c.sign(Derive(comps), d, msg)} ::
      WellFormed(comps) && OddFactors(comps) ==>
        match emsa(d, msg, comps.n)
        case None => c.sign(Derive(comps), d, msg).None?
        case Some(m) =>
          && Rsasp1Crt(Derive(comps), m) >= 0
          && c.sign(Derive(comps), d, msg) == Some(I2osp(Rsasp1Crt(Derive(comps), m), |ToVec(comps.n)|))
  }

  /**
   Section 8.2.2 of RFC 8017: the signature has the length of the modulus (step 1), stands for a number below it
   (step 1 of section 5.2.2), and opens to the padded message (steps 2 to 4).
   */
  ghost predicate Accepts(emsa: Padding, k: PublicKey, d: Digest, msg: Bytes, sig: Bytes) {
    && k.n > 0
    && |sig| == |ToVec(k.n)|
    && FromSlice(sig) < k.n
    && emsa(d, msg, k.n) == Some(Rsavp1(k, FromSlice(sig)))
  }

  /** What a client checks: the algorithm it asked for, and the signature with the key in `blob`. */
  ghost predicate Verifies(emsa: Padding, blob: Bytes, msg: Bytes, flags: nat, reply: Reply) {
    && Decode(blob).Parsed?
    && reply.Signed?
    && reply.algorithm == AlgorithmName(DigestOf(flags))
    && Accepts(emsa, Decode(blob).value, DigestOf(flags), msg, reply.signature)
  }

  lemma SignatureVerifies(c: Crypto, emsa: Padding, comps: RsaComponents, msg: Bytes, flags: nat)
    requires WellFormed(comps) && OddFactors(comps) && SignsAsRfc8017(c, emsa) && BelowModulus(emsa)
    requires emsa(DigestOf(flags), msg, comps.n).Some?
    ensures var sig := c.sign(Derive(comps), DigestOf(flags), msg);
            && sig.Some?
            && Accepts(emsa, Public(Derive(comps)), DigestOf(flags), msg, sig.value)
  {
    var m := emsa(DigestOf(flags), msg, comps.n).value;
    assert m < comps.n;
    VerifyUndoesSign(comps, m);
    CrtIsPlain(comps, m);
    var s := Rsasp1Crt(Derive(comps), m);
    assert 0 <= s < comps.n;
    hide WellFormed, Rsasp1Crt;
    assert c.sign(Derive(comps), DigestOf(flags), msg) == Some(I2osp(s, |ToVec(comps.n)|));
    FromSliceI2osp(s, |ToVec(comps.n)|);
    I2ospLength(s, comps.n);
    hide I2osp, ToVec;
  }

  /**
   The whole exchange. A client adds a valid key, lists the keys, finds its own in the answer, asks for a
   signature with the listed blob, and the user agrees: the reply is a signature that verifies with that blob.
   */
  lemma ImportListSignVerify(c: Crypto, emsa: Padding, st: AgentState, comps: RsaComponents, name: Bytes,
                             msg: Bytes, flags: nat, e1: Env, e2: Env, e3: Env)
    requires DistinctPublic(st.keys) && AllEncodable(st.keys) && AllFit(st.keys) && |st.keys| < U32_LIMIT - 1
    requires WellFormed(comps) && OddFactors(comps) && Positive(comps)
    requires ValidUtf8(name) && |AddBody(comps, name)| < U32_LIMIT - 1
    requires FindKey(st.keys, RsaPublic(comps.e, comps.n)).None?
    requires e1.save.Saved? && e3.answer
    requires |msg| < U32_LIMIT && flags < U32_LIMIT
    requires SignsAsRfc8017(c, emsa) && BelowModulus(emsa)
    requires emsa(DigestOf(flags), msg, comps.n).Some?
    ensures var added := Handle(c, st, [ADD_IDENTITY] + AddBody(comps, name), e1);
            && added.reply.Some? && ParseReply(added.reply.value) == Some(Succeeded)
            && var listed := Handle(c, added.state, [REQUEST_IDENTITIES], e2);
            && listed.reply.Some? && ParseReply(listed.reply.value).Some?
            && ParseReply(listed.reply.value).value.Identities?
            && var ids := ParseReply(listed.reply.value).value.listed;
            && |ids| == |st.keys| + 1
            && ids[|st.keys|].comment == name
            && var signed := Handle(c, listed.state, SignBody(ids[|st.keys|].blob, msg, flags), e3);
            && signed.reply.Some? && ParseReply(signed.reply.value).Some?
            && Verifies(emsa, ids[|st.keys|].blob, msg, flags, ParseReply(signed.reply.value).value)
  {
    hide Handle, WellFormed, Encode, SignBody, AddBody, ParseIdentitiesAnswer, ParseSignResponse, DistinctPublic;
    var buf: Bytes := [ADD_IDENTITY] + AddBody(comps, name);
    assert buf[1..] == AddBody(comps, name);
    BodyFits(comps, name);
    NonOneFactors(comps);
    PairDerived(comps, name);
    var pair := NewPair(Derive(comps), name);
    AddDistinct(c, st, buf, e1, pair);
    var st' := Handle(c, st, buf, e1).state;
    SignatureVerifies(c, emsa, comps, msg, flags);
    ListThenSign(c, st', |st.keys|, msg, flags, e2, e3);
    var k := pair.public;
    assert Fits(st'.keys[|st.keys|]);
    DecodeEncode(k, []);
    assert Encode(k) + [] == Encode(k);
    hide Decode, Accepts;
  }

  lemma NonOneFactors(comps: RsaComponents)
    requires WellFormed(comps)
    ensures !ZeroModulus(comps) && Public(Derive(comps)) == RsaPublic(comps.e, comps.n)
  {
  }

  /** What fits one frame fits the prefixes inside it, with room for the other fields. */
  lemma BodyFits(comps: RsaComponents, name: Bytes)
    requires Positive(comps) && |AddBody(comps, name)| < U32_LIMIT - 1
    ensures |name| < U32_LIMIT && FitsWire(comps)
    ensures |ToVec(comps.n)| < U32_LIMIT - 20
  {
    hide ToVec;
  }

  lemma AddDistinct(c: Crypto, st: AgentState, buf: Bytes, env: Env, pair: KeyPair)
    requires DistinctPublic(st.keys) && AllEncodable(st.keys) && AllFit(st.keys)
    requires 0 < |buf| < U32_LIMIT && buf[0] == ADD_IDENTITY && PairFromWire(buf[1..]) == Done(pair, [])
    requires FindKey(st.keys, pair.public).None? && pair.public.Encodable() && env.save.Saved?
    ensures var h := Handle(c, st, buf, env);
            && h.reply == Some([SUCCESS])
            && h.state.keys == st.keys + [pair]
            && DistinctPublic(h.state.keys) && AllEncodable(h.state.keys) && AllFit(h.state.keys)
  {
    hide Handle, PairFromWire, Fits, PublicKey.Encodable, DistinctPublic, FileAfterSave;
    RequestEffect(c, st, buf, env);
    assert AddedPair(st.keys, buf) == Some(pair);
    AddedPairFits(st.keys, buf);
    NewIsDistinct(st.keys, pair);
    hide AddedPair;
  }
}
