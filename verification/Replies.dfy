/**
 What a client makes of the agent's replies: a strict parser for the answers of
 draft-miller-ssh-agent-04, and the proof that every reply means what it should.
 */
module Replies {
  import opened Wrappers
  import opened Wire
  import opened Keys
  import opened Config
  import opened Agent
  import opened AgentRuns

  datatype Listed = Listed(blob: Bytes, comment: Bytes)

  datatype Reply =
    | Refused
    | Succeeded
    | Identities(listed: seq<Listed>)
    | Signed(algorithm: Bytes, signature: Bytes)

  function ParseIdentities(b: Bytes, count: nat): Parsed<seq<Listed>, Bytes> {
    if count == 0 then Parsed([], b)
    else
      var (blob, b1) :- ReadString(b);
      var (comment, b2) :- ReadString(b1);
      var (rest, b3) :- ParseIdentities(b2, count - 1);
      Parsed([Listed(blob, comment)] + rest, b3)
  }

  /** Accepts a reply only if its type is known and no byte is left over. */
  function ParseReply(b: Bytes): Option<Reply> {
    if |b| == 0 then None
    else if b[0] == FAILURE then (if |b| == 1 then Some(Refused) else None)
    else if b[0] == SUCCESS then (if |b| == 1 then Some(Succeeded) else None)
    else if b[0] == IDENTITIES_ANSWER then ParseIdentitiesAnswer(b[1..])
    else if b[0] == SIGN_RESPONSE then ParseSignResponse(b[1..])
    else None
  }

  function ParseIdentitiesAnswer(b: Bytes): Option<Reply> {
    match ReadU32(b)
    case Malformed => None
    case Parsed(count, rest) =>
      match ParseIdentities(rest, count)
      case Malformed => None
      case Parsed(listed, tail) => if tail == [] then Some(Identities(listed)) else None
  }

  function ParseSignResponse(b: Bytes): Option<Reply> {
    match ReadString(b)
    case Malformed => None
    case Parsed(blob, tail) =>
      if tail != [] then None
      else
        match ReadString(blob)
        case Malformed => None
        case Parsed(algorithm, rest) =>
          match ReadString(rest)
          case Malformed => None
          case Parsed(signature, end) => if end == [] then Some(Signed(algorithm, signature)) else None
  }

  // ------------------------------------------------------------ length bounds

  /** The key's blob and name can be listed within 32-bit lengths. */
  predicate Fits(pair: KeyPair) {
    && |pair.name| < U32_LIMIT
    && (pair.public.Encodable() ==> FitsBlob(pair.public) && |Encode(pair.public)| < U32_LIMIT)
  }

  predicate AllFit(keys: seq<KeyPair>) {
    forall i :: 0 <= i < |keys| ==> Fits(keys[i])
  }

  /** A signature, if there is one, fits one length prefix together with its algorithm name. */
  predicate FitsReply(sig: Option<Bytes>) {
    sig.Some? ==> |sig.value| < U32_LIMIT - 20
  }

  /** The signature that this request asks for, if it asks for one. */
  function RequestedSignature(c: Crypto, keys: seq<KeyPair>, buf: Bytes): Option<Bytes> {
    match KeyToConfirm(keys, buf)
    case None => None
    case Some(i) =>
      var req := ReadSignRequest(buf[1..]).value;
      c.sign(keys[i].private, DigestOf(req.flags), req.msg)
  }

  /** Requests arrive in frames, so their bodies are shorter than 2^32 bytes. */
  ghost predicate Framed(evs: seq<Event>) {
    forall i :: 0 <= i < |evs| && evs[i].Request? ==> |evs[i].buf| < U32_LIMIT
  }

  lemma AddedPairFits(keys: seq<KeyPair>, buf: Bytes)
    requires |buf| < U32_LIMIT && AddedPair(keys, buf).Some?
    ensures Fits(AddedPair(keys, buf).value)
  {
    ImportedFits(buf[1..]);
  }

  lemma FitTogether(keys: seq<KeyPair>, pair: KeyPair)
    requires AllFit(keys) && Fits(pair)
    ensures AllFit(keys + [pair])
  {
    hide Fits;
  }

  lemma StepKeepsFit(c: Crypto, st: AgentState, ev: Event)
    requires AllFit(st.keys) && !ev.Reload? && (ev.Request? ==> |ev.buf| < U32_LIMIT)
    ensures AllFit(Step(c, st, ev).keys)
  {
    if ev.Request? {
      hide Fits, AllFit, Handle, FileAfterSave, AddedPair;
      assert Step(c, st, ev) == Handle(c, st, ev.buf, ev.env).state;
      RequestEffect(c, st, ev.buf, ev.env);
      if AddedPair(st.keys, ev.buf).Some? {
        AddedPairFits(st.keys, ev.buf);
        FitTogether(st.keys, AddedPair(st.keys, ev.buf).value);
      }
    }
  }

  /** Over every run of framed requests the stored keys stay listable: the 32-bit lengths never overflow. */
  lemma {:induction false} RunKeepsFit(c: Crypto, st: AgentState, evs: seq<Event>)
    requires AllFit(st.keys) && NoReload(evs) && Framed(evs)
    ensures AllFit(Run(c, st, evs).keys)
    decreases |evs|
  {
    if evs != [] {
      StepKeepsFit(c, st, evs[0]);
      hide Step, AllFit;
      RunKeepsFit(c, Step(c, st, evs[0]), evs[1..]);
    }
  }

  // ------------------------------------------------------------ what each reply means

  function Listing(keys: seq<KeyPair>): (listed: seq<Listed>)
    requires AllEncodable(keys)
    ensures |listed| == |keys|
  {
    seq(|keys|, i requires 0 <= i < |keys| => Listed(Encode(keys[i].public), keys[i].name))
  }

  lemma ParseOneIdentity(pair: KeyPair, tail: Bytes)
    requires pair.public.Encodable() && Fits(pair)
    ensures ReadString(Identity(pair) + tail) == Parsed(Encode(pair.public), Str(pair.name) + tail)
    ensures ReadString(Str(pair.name) + tail) == Parsed(pair.name, tail)
  {
    var blob := Encode(pair.public);
    assert |blob| < U32_LIMIT;
    hide Encode, FitsBlob, ReadString, Str;
    assert Identity(pair) + tail == Str(blob) + (Str(pair.name) + tail);
    ReadWrittenString(blob, Str(pair.name) + tail);
    ReadWrittenString(pair.name, tail);
  }

  lemma ListingCons(keys: seq<KeyPair>)
    requires keys != [] && AllEncodable(keys)
    ensures Listing(keys) == [Listed(Encode(keys[0].public), keys[0].name)] + Listing(keys[1..])
  {
    hide Encode, PublicKey.Encodable;
  }

  lemma {:induction false} ParseIdentityList(keys: seq<KeyPair>, tail: Bytes)
    requires AllEncodable(keys) && AllFit(keys)
    ensures ParseIdentities(IdentityList(keys) + tail, |keys|) == Parsed(Listing(keys), tail)
  {
    hide Identity, Fits, PublicKey.Encodable, ReadString, Str, Encode, Listing;
    if keys == [] {
      assert IdentityList(keys) + tail == tail;
    } else {
      var rest := IdentityList(keys[1..]) + tail;
      ListingCons(keys);
      ParseOneIdentity(keys[0], rest);
      ParseIdentityList(keys[1..], tail);
      assert IdentityList(keys) + tail == Identity(keys[0]) + rest;
    }
  }

  lemma ParseAnswer(list: Bytes, count: nat, listed: seq<Listed>)
    requires count < U32_LIMIT && ParseIdentities(list, count) == Parsed(listed, [])
    ensures ParseReply([IDENTITIES_ANSWER] + Be32(count) + list) == Some(Identities(listed))
  {
    hide ParseIdentities, FromBe32, Be32;
    var b := Be32(count) + list;
    assert ([IDENTITIES_ANSWER] + Be32(count) + list)[1..] == b;
    assert b[..4] == Be32(count) && b[4..] == list;
    FromBe32Be32(count);
  }

  lemma ParseListing(keys: seq<KeyPair>)
    requires AllEncodable(keys) && AllFit(keys) && |keys| < U32_LIMIT
    ensures ParseReply(IdentitiesAnswer(keys)) == Some(Identities(Listing(keys)))
  {
    hide IdentityList, Listing, AllEncodable, AllFit, ParseReply, ParseIdentities;
    ParseIdentityList(keys, []);
    assert IdentityList(keys) + [] == IdentityList(keys);
    ParseAnswer(IdentityList(keys), |keys|, Listing(keys));
  }

  lemma ParseSignature(c: Crypto, k: PrivateKey, msg: Bytes, flags: nat)
    requires FitsReply(c.sign(k, DigestOf(flags), msg)) && Signature(c, k, msg, flags).Some?
    ensures c.sign(k, DigestOf(flags), msg).Some?
    ensures ParseReply([SIGN_RESPONSE] + Str(Signature(c, k, msg, flags).value))
            == Some(Signed(AlgorithmName(DigestOf(flags)), c.sign(k, DigestOf(flags), msg).value))
  {
    var name := AlgorithmName(DigestOf(flags));
    var sig := c.sign(k, DigestOf(flags), msg).value;
    var blob := Signature(c, k, msg, flags).value;
    var b := [SIGN_RESPONSE] + Str(blob);
    assert b[1..] == Str(blob) + [];
    ReadWrittenString(blob, []);
    ReadWrittenString(name, Str(sig));
    ReadWrittenString(sig, []);
    assert Str(sig) + [] == Str(sig);
  }

  /** What the client should learn from the reply to one request. */
  function Expected(c: Crypto, st: AgentState, buf: Bytes, env: Env): Reply {
    if |buf| == 0 then Refused
    else if buf[0] == REQUEST_IDENTITIES && AllEncodable(st.keys) then Identities(Listing(st.keys))
    else if buf[0] == ADD_IDENTITY && PairFromWire(buf[1..]).Done? then
      if AddedPair(st.keys, buf).None? || env.save.Saved? then Succeeded else Refused
    else
      match RequestedSignature(c, st.keys, buf)
      case None => Refused
      case Some(sig) =>
        if env.answer then Signed(AlgorithmName(DigestOf(ReadSignRequest(buf[1..]).value.flags)), sig) else Refused
  }

  /** Every reply parses completely, and to exactly what the request called for. */
  lemma EveryReplyParses(c: Crypto, st: AgentState, buf: Bytes, env: Env)
    requires AllFit(st.keys) && |st.keys| < U32_LIMIT && FitsReply(RequestedSignature(c, st.keys, buf))
    requires Handle(c, st, buf, env).reply.Some?
    ensures ParseReply(Handle(c, st, buf, env).reply.value) == Some(Expected(c, st, buf, env))
  {
    hide PairFromWire, ReadSignRequest, Fits, IdentitiesAnswer, Listing, ParseIdentitiesAnswer, ParseSignResponse;
    if |buf| > 0 && buf[0] == REQUEST_IDENTITIES {
      ParseListing(st.keys);
    } else if KeyToConfirm(st.keys, buf).Some? {
      var i := KeyToConfirm(st.keys, buf).value;
      var req := ReadSignRequest(buf[1..]).value;
      if Signature(c, st.keys[i].private, req.msg, req.flags).Some? {
        ParseSignature(c, st.keys[i].private, req.msg, req.flags);
      }
    }
  }

  // ------------------------------------------------------------ bytes after a request

  lemma StringBefore(b: Bytes, tail: Bytes)
    requires ReadString(b).Parsed?
    ensures ReadString(b + tail) == Parsed(ReadString(b).value, ReadString(b).rest + tail)
  {
    WrittenReadString(b);
    var Parsed(s, rest) := ReadString(b);
    assert b + tail == Str(s) + (rest + tail);
    ReadWrittenString(s, rest + tail);
  }

  lemma NumberBefore(b: Bytes, tail: Bytes)
    requires ReadMpint(b).Parsed?
    ensures ReadMpint(b + tail) == Parsed(ReadMpint(b).value, ReadMpint(b).rest + tail)
  {
    StringBefore(b, tail);
    hide ReadString, FromSlice;
  }

  lemma TextBefore(b: Bytes, tail: Bytes)
    requires ReadStringUtf8(b).Parsed?
    ensures ReadStringUtf8(b + tail) == Parsed(ReadStringUtf8(b).value, ReadStringUtf8(b).rest + tail)
  {
    StringBefore(b, tail);
    hide ReadString, ValidUtf8;
  }

  lemma ComponentsBefore(b: Bytes, tail: Bytes)
    requires ReadComponents(b).Parsed?
    ensures ReadComponents(b + tail) == Parsed(ReadComponents(b).value, ReadComponents(b).rest + tail)
  {
    hide ReadStringUtf8, ReadMpint;
    var b0 := ReadStringUtf8(b).rest;
    var b1 := ReadMpint(b0).rest;
    var b2 := ReadMpint(b1).rest;
    var b3 := ReadMpint(b2).rest;
    var b4 := ReadMpint(b3).rest;
    var b5 := ReadMpint(b4).rest;
    TextBefore(b, tail);
    NumberBefore(b0, tail);
    NumberBefore(b1, tail);
    NumberBefore(b2, tail);
    NumberBefore(b3, tail);
    NumberBefore(b4, tail);
    NumberBefore(b5, tail);
  }

  lemma PairBefore(b: Bytes, tail: Bytes)
    requires !PairFromWire(b).Failed?
    ensures PairFromWire(b).Panicked? ==> PairFromWire(b + tail).Panicked?
    ensures PairFromWire(b).Done? ==> PairFromWire(b + tail) == Done(PairFromWire(b).value, PairFromWire(b).rest + tail)
  {
    ComponentsBefore(b, tail);
    if PairFromWire(b).Done? {
      TextBefore(ReadComponents(b).rest, tail);
    }
    hide ReadComponents, ReadStringUtf8, ZeroModulus;
  }

  lemma RequestBefore(b: Bytes, tail: Bytes)
    requires ReadSignRequest(b).Parsed?
    ensures ReadSignRequest(b + tail) == Parsed(ReadSignRequest(b).value, ReadSignRequest(b).rest + tail)
  {
    hide ReadString, Decode, FromBe32;
    var b1 := ReadString(b).rest;
    StringBefore(b, tail);
    StringBefore(b1, tail);
    var b2 := ReadString(b1).rest;
    assert (b2 + tail)[..4] == b2[..4] && (b2 + tail)[4..] == b2[4..] + tail;
  }

  lemma AddTrailing(c: Crypto, st: AgentState, body: Bytes, tail: Bytes, save: SaveOutcome)
    requires !PairFromWire(body).Failed?
    ensures ProcessAdd(c, st, body + tail, save) == ProcessAdd(c, st, body, save)
  {
    PairBefore(body, tail);
    hide PairFromWire, AddKey;
  }

  lemma SignTrailing(c: Crypto, keys: seq<KeyPair>, body: Bytes, tail: Bytes, answer: bool)
    requires ReadSignRequest(body).Parsed?
    ensures ProcessSign(c, keys, body + tail, answer) == ProcessSign(c, keys, body, answer)
  {
    RequestBefore(body, tail);
    hide ReadSignRequest, FindKey, Signature;
  }

  /** The request is long enough for what its type asks for. */
  predicate Whole(buf: Bytes) {
    && |buf| > 0
    && (buf[0] == ADD_IDENTITY ==> !PairFromWire(buf[1..]).Failed?)
    && (buf[0] == SIGN_REQUEST ==> ReadSignRequest(buf[1..]).Parsed?)
  }

  /** Whatever follows a whole request in its frame makes no difference. */
  lemma TrailingIgnored(c: Crypto, st: AgentState, buf: Bytes, tail: Bytes, env: Env)
    requires Whole(buf)
    ensures Handle(c, st, buf + tail, env) == Handle(c, st, buf, env)
  {
    hide PairFromWire, ReadSignRequest, ProcessAdd, ProcessSign, IdentitiesAnswer, AllEncodable;
    assert (buf + tail)[0] == buf[0] && (buf + tail)[1..] == buf[1..] + tail;
    if buf[0] == ADD_IDENTITY {
      AddTrailing(c, st, buf[1..], tail, env.save);
    } else if buf[0] == SIGN_REQUEST {
      SignTrailing(c, st.keys, buf[1..], tail, env.answer);
    }
  }

  // ------------------------------------------------------------ list, then sign

  function SignBody(blob: Bytes, msg: Bytes, flags: nat): Bytes {
    [SIGN_REQUEST] + (Str(blob) + (Str(msg) + Be32(flags)))
  }

  lemma ReadSignBody(public: PublicKey, msg: Bytes, flags: nat)
    requires public.Encodable() && FitsBlob(public) && |Encode(public)| < U32_LIMIT
    requires |msg| < U32_LIMIT && flags < U32_LIMIT
    ensures ReadSignRequest(SignBody(Encode(public), msg, flags)[1..]) == Parsed(SignRequest(public, msg, flags), [])
  {
    hide Decode, Encode, FitsBlob, FromBe32, Be32;
    var blob := Encode(public);
    DecodeEncode(public, []);
    assert blob + [] == blob;
    var tail := Str(msg) + Be32(flags);
    assert SignBody(blob, msg, flags)[1..] == Str(blob) + tail;
    ReadWrittenString(blob, tail);
    ReadWrittenString(msg, Be32(flags));
    assert Be32(flags)[..4] == Be32(flags) && Be32(flags)[4..] == [];
    FromBe32Be32(flags);
    hide ReadString, Str;
  }

  lemma FindDistinct(keys: seq<KeyPair>, i: nat)
    requires DistinctPublic(keys) && i < |keys|
    ensures FindKey(keys, keys[i].public) == Some(i)
  {
    var r := FindKey(keys, keys[i].public);
  }

  lemma SignSelected(c: Crypto, st: AgentState, buf: Bytes, i: nat, req: SignRequest, env: Env)
    requires |buf| > 0 && buf[0] == SIGN_REQUEST
    requires ReadSignRequest(buf[1..]) == Parsed(req, []) && FindKey(st.keys, req.public) == Some(i)
    requires FitsReply(c.sign(st.keys[i].private, DigestOf(req.flags), req.msg))
    ensures var signed := Handle(c, st, buf, env);
            var sig := c.sign(st.keys[i].private, DigestOf(req.flags), req.msg);
            && KeyToConfirm(st.keys, buf) == Some(i)
            && signed.reply.Some? && signed.state == st
            && ParseReply(signed.reply.value) ==
               Some(if env.answer && sig.Some? then Signed(AlgorithmName(DigestOf(req.flags)), sig.value) else Refused)
  {
    hide ReadSignRequest, ParseSignResponse;
    if Signature(c, st.keys[i].private, req.msg, req.flags).Some? {
      ParseSignature(c, st.keys[i].private, req.msg, req.flags);
    }
  }

  /**
   Listing and then signing: the client parses the IDENTITIES answer, sends the i-th blob back in a
   SIGN request, and it is the i-th key that the user is asked about and that signs.
   */
  lemma ListThenSign(c: Crypto, st: AgentState, i: nat, msg: Bytes, flags: nat, env: Env, env': Env)
    requires DistinctPublic(st.keys) && AllEncodable(st.keys) && AllFit(st.keys)
    requires i < |st.keys| < U32_LIMIT && |msg| < U32_LIMIT && flags < U32_LIMIT
    requires FitsReply(c.sign(st.keys[i].private, DigestOf(flags), msg))
    ensures var listed := Handle(c, st, [REQUEST_IDENTITIES], env);
            && listed.reply.Some? && listed.state == st
            && ParseReply(listed.reply.value) == Some(Identities(Listing(st.keys)))
    ensures var buf := SignBody(Listing(st.keys)[i].blob, msg, flags);
            var signed := Handle(c, st, buf, env');
            var sig := c.sign(st.keys[i].private, DigestOf(flags), msg);
            && KeyToConfirm(st.keys, buf) == Some(i)
            && signed.reply.Some? && signed.state == st
            && ParseReply(signed.reply.value) ==
               Some(if env'.answer && sig.Some? then Signed(AlgorithmName(DigestOf(flags)), sig.value) else Refused)
  {
    hide ReadSignRequest, Encode, FitsBlob, IdentitiesAnswer, PairFromWire, ParseReply;
    ParseListing(st.keys);
    var public := st.keys[i].public;
    assert Fits(st.keys[i]);
    ReadSignBody(public, msg, flags);
    FindDistinct(st.keys, i);
    var buf := SignBody(Encode(public), msg, flags);
    assert Listing(st.keys)[i].blob == Encode(public);
    SignSelected(c, st, buf, i, SignRequest(public, msg, flags), env');
  }

  /** Blobs that decode to the same numbers, however they are written, name the same key. */
  lemma SameNumbersSameKey(keys: seq<KeyPair>, blob: Bytes, blob': Bytes, msg: Bytes, flags: nat)
    requires |blob| < U32_LIMIT && |blob'| < U32_LIMIT && |msg| < U32_LIMIT
    requires Decode(blob).Parsed? && Decode(blob').Parsed? && Decode(blob).value == Decode(blob').value
    ensures KeyToConfirm(keys, SignBody(blob, msg, flags)) == KeyToConfirm(keys, SignBody(blob', msg, flags))
    ensures KeyToConfirm(keys, SignBody(blob, msg, flags)) == FindKey(keys, Decode(blob).value)
  {
    var tail := Str(msg) + Be32(flags);
    assert SignBody(blob, msg, flags)[1..] == Str(blob) + tail;
    assert SignBody(blob', msg, flags)[1..] == Str(blob') + tail;
    ReadWrittenString(blob, tail);
    ReadWrittenString(blob', tail);
    ReadWrittenString(msg, Be32(flags));
    hide Decode;
  }
}
