/** The agent of src/agent/mod.rs: one request in, one reply out, over a list of keys and a stored file. */
module Agent {
  import opened Wrappers
  import opened Wire
  import opened WireIo
  import opened Keys
  import opened Config
  import opened Sequences

  const REQUEST_IDENTITIES: byte := 11
  const SIGN_REQUEST: byte := 13
  const ADD_IDENTITY: byte := 17
  const FAILURE: byte := 5
  const SUCCESS: byte := 6
  const IDENTITIES_ANSWER: byte := 12
  const SIGN_RESPONSE: byte := 14

  datatype AgentState = AgentState(keys: seq<KeyPair>, file: StoredFile)

  /** What the world decides during one request: the user's answer if asked, and how a save goes. */
  datatype Env = Env(answer: bool, save: SaveOutcome)

  /** How `handle_request_internal` ends. */
  datatype Outcome = Answer(resp: Bytes) | Error | Panic

  /** The reply of `handle_request`, or none when the thread panicked; and the state it leaves. */
  datatype Handled = Handled(reply: Option<Bytes>, state: AgentState)

  // ------------------------------------------------------------ keys

  /** The first key of the list with these public numbers. */
  function FindKey(keys: seq<KeyPair>, public: PublicKey): (r: Option<nat>)
    ensures r.Some? ==> r.value < |keys| && keys[r.value].public == public
    ensures r.Some? ==> forall j :: 0 <= j < r.value ==> keys[j].public != public
    ensures r.None? ==> forall j :: 0 <= j < |keys| ==> keys[j].public != public
  {
    if keys == [] then None
    else if keys[0].public == public then Some(0)
    else
      match FindKey(keys[1..], public)
      case None => None
      case Some(i) =>
        assert forall j :: 0 < j <= i ==> keys[j] == keys[1..][j - 1];
        Some(i + 1)
  }

  function AddKey(c: Crypto, st: AgentState, pair: KeyPair, save: SaveOutcome): (r: (bool, AgentState))
  {
    if FindKey(st.keys, pair.public).Some? then (true, st)
    else
      var keys := st.keys + [pair];
      (save.Saved?, AgentState(keys, FileAfterSave(c, st.file, keys, save)))
  }

  // ------------------------------------------------------------ the three requests

  predicate AllEncodable(keys: seq<KeyPair>) {
    forall i :: 0 <= i < |keys| ==> keys[i].public.Encodable()
  }

  function Identity(pair: KeyPair): Bytes
    requires pair.public.Encodable()
  {
    Str(Encode(pair.public)) + Str(pair.name)
  }

  function IdentityList(keys: seq<KeyPair>): Bytes
    requires AllEncodable(keys)
  {
    if keys == [] then [] else Identity(keys[0]) + IdentityList(keys[1..])
  }

  lemma {:induction false} IdentityListSnoc(keys: seq<KeyPair>, last: KeyPair)
    requires AllEncodable(keys) && last.public.Encodable()
    ensures AllEncodable(keys + [last])
    ensures IdentityList(keys + [last]) == IdentityList(keys) + Identity(last)
  {
    hide Identity, IdentityList, PublicKey.Encodable;
    IdentityListNil();
    if keys == [] {
      Unit([last]);
      IdentityListCons(last, []);
      Unit(Identity(last));
    } else {
      HeadTail(keys);
      IdentityListCons(keys[0], keys[1..]);
      IdentityListSnoc(keys[1..], last);
      Assoc([keys[0]], keys[1..], [last]);
      IdentityListCons(keys[0], keys[1..] + [last]);
      Assoc(Identity(keys[0]), IdentityList(keys[1..]), Identity(last));
    }
  }

  lemma IdentityListNil()
    ensures IdentityList([]) == []
  {
  }

  lemma IdentityListCons(first: KeyPair, keys: seq<KeyPair>)
    requires first.public.Encodable() && AllEncodable(keys)
    ensures AllEncodable([first] + keys)
    ensures IdentityList([first] + keys) == Identity(first) + IdentityList(keys)
  {
    TailOfCons(first, keys);
    hide Identity, PublicKey.Encodable;
  }

  lemma IdentityListPrefix(keys: seq<KeyPair>, i: nat)
    requires i < |keys| && AllEncodable(keys[..i]) && keys[i].public.Encodable()
    ensures AllEncodable(keys[..i + 1])
    ensures IdentityList(keys[..i + 1]) == IdentityList(keys[..i]) + Identity(keys[i])
  {
    assert keys[..i + 1] == keys[..i] + [keys[i]];
    IdentityListSnoc(keys[..i], keys[i]);
  }

  function IdentitiesAnswer(keys: seq<KeyPair>): Bytes
    requires AllEncodable(keys)
  {
    [IDENTITIES_ANSWER] + Be32(|keys|) + IdentityList(keys)
  }

  datatype SignRequest = SignRequest(public: PublicKey, msg: Bytes, flags: nat)

  function ReadSignRequest(b: Bytes): Parsed<SignRequest, Bytes> {
    var (blob, b1) :- ReadString(b);
    match Decode(blob)
    case Malformed => Malformed
    case Parsed(public, _) =>
      var (msg, b2) :- ReadString(b1);
      var (flags, b3) :- ReadU32(b2);
      Parsed(SignRequest(public, msg, flags), b3)
  }

  /** The key a request asks the user about: that of a readable SIGN request for a key the agent holds. */
  function KeyToConfirm(keys: seq<KeyPair>, buf: Bytes): (r: Option<nat>)
    ensures r.Some? ==> r.value < |keys| && |buf| > 0 && buf[0] == SIGN_REQUEST
  {
    if |buf| == 0 || buf[0] != SIGN_REQUEST then None
    else
      match ReadSignRequest(buf[1..])
      case Malformed => None
      case Parsed(req, _) => FindKey(keys, req.public)
  }

  function ProcessAdd(c: Crypto, st: AgentState, body: Bytes, save: SaveOutcome): (Outcome, AgentState) {
    match PairFromWire(body)
    case Failed => (Error, st)
    case Panicked => (Panic, st)
    case Done(pair, _) =>
      var (ok, st') := AddKey(c, st, pair, save);
      (if ok then Answer([SUCCESS]) else Error, st')
  }

  function ProcessSign(c: Crypto, keys: seq<KeyPair>, body: Bytes, answer: bool): Outcome {
    match ReadSignRequest(body)
    case Malformed => Error
    case Parsed(req, _) =>
      match FindKey(keys, req.public)
      case None => Error
      case Some(i) =>
        if !answer then Answer([FAILURE])
        else
          match Signature(c, keys[i].private, req.msg, req.flags)
          case None => Error
          case Some(blob) => Answer([SIGN_RESPONSE] + Str(blob))
  }

  function Process(c: Crypto, st: AgentState, buf: Bytes, env: Env): (Outcome, AgentState) {
    if |buf| == 0 then (Error, st)
    else if buf[0] == REQUEST_IDENTITIES then
      (if AllEncodable(st.keys) then Answer(IdentitiesAnswer(st.keys)) else Panic, st)
    else if buf[0] == ADD_IDENTITY then ProcessAdd(c, st, buf[1..], env.save)
    else if buf[0] == SIGN_REQUEST then (ProcessSign(c, st.keys, buf[1..], env.answer), st)
    else (Answer([FAILURE]), st)
  }

  function Handle(c: Crypto, st: AgentState, buf: Bytes, env: Env): Handled {
    var (outcome, st') := Process(c, st, buf, env);
    match outcome
    case Answer(resp) => Handled(Some(resp), st')
    case Error => Handled(Some([FAILURE]), st')
    case Panic => Handled(None, st')
  }

  // ------------------------------------------------------------ the object

  class SshAgent {
    const crypto: Crypto
    const config: KeyConfig

    ghost function State(): AgentState
      reads config, config.disk
    {
      AgentState(config.keys, config.disk.file)
    }

    constructor (crypto: Crypto, config: KeyConfig)
      ensures this.crypto == crypto && this.config == config
    {
      this.crypto, this.config := crypto, config;
    }

    method GetKey(public: PublicKey) returns (r: Option<nat>)
      ensures r == FindKey(config.keys, public)
    {
      var i := 0;
      while i < |config.keys|
        invariant 0 <= i <= |config.keys|
        invariant forall j :: 0 <= j < i ==> config.keys[j].public != public
      {
        if config.keys[i].public == public {
          return Some(i);
        }
        i := i + 1;
      }
      return None;
    }

    method Add(pair: KeyPair, save: SaveOutcome) returns (ok: bool)
      modifies config, config.disk
      ensures (ok, State()) == AddKey(crypto, old(State()), pair, save)
    {
      var found := GetKey(pair.public);
      ok := true;
      if found.None? {
        config.keys := config.keys + [pair];
        ok := config.Save(crypto, save);
      }
    }

    method WriteIdentity(resp: ByteBuffer, pair: KeyPair)
      requires pair.public.Encodable()
      modifies resp
      ensures resp.bytes == old(resp.bytes) + Identity(pair)
    {
      var blob := EncodePublic(pair.public);
      resp.WriteString(blob);
      resp.WriteString(pair.name);
    }

    method ListIdentities(resp: ByteBuffer) returns (ok: bool)
      requires resp.bytes == []
      modifies resp
      ensures ok == AllEncodable(config.keys)
      ensures ok ==> resp.bytes == IdentitiesAnswer(config.keys)
    {
      hide Identity, IdentityList, PublicKey.Encodable;
      var keys := config.keys;
      IdentityListNil();
      resp.WriteU8(IDENTITIES_ANSWER);
      resp.WriteU32(|keys|);
      ghost var header := resp.bytes;
      for i := 0 to |keys|
        invariant AllEncodable(keys[..i])
        invariant resp.bytes == header + IdentityList(keys[..i])
      {
        if !keys[i].public.Encodable() {
          return false;
        }
        WriteIdentity(resp, keys[i]);
        IdentityListPrefix(keys, i);
        ghost var list := IdentityList(keys[..i]);
        assert header + list + Identity(keys[i]) == header + (list + Identity(keys[i]));
      }
      assert keys[..|keys|] == keys;
      ok := true;
    }

    method HandleAdd(req: Cursor, resp: ByteBuffer, save: SaveOutcome) returns (r: Outcome)
      requires req.Valid() && resp.bytes == []
      modifies req, resp, config, config.disk
      ensures (r, State()) == ProcessAdd(crypto, old(State()), old(req.Remaining()), save)
    {
      hide PairFromWire;
      var pair := KeyPairFromWire(req);
      match pair {
        case Failed => return Error;
        case Panicked => return Panic;
        case Done(p, _) =>
          var ok := Add(p, save);
          if !ok {
            return Error;
          }
          resp.WriteU8(SUCCESS);
          assert [] + [SUCCESS] == [SUCCESS];
          return Answer(resp.bytes);
      }
    }

    method HandleSign(req: Cursor, resp: ByteBuffer, answer: bool) returns (r: Outcome)
      requires req.Valid() && resp.bytes == []
      modifies req, resp
      ensures r == ProcessSign(crypto, config.keys, old(req.Remaining()), answer)
    {
      hide Decode, Signature, FindKey, Wire.ReadString, Wire.ReadU32, Str;
      var blob := req.ReadString();
      if blob.None? { return Error; }
      var public := DecodePublic(blob.value);
      if public.None? { return Error; }
      var msg := req.ReadString();
      if msg.None? { return Error; }
      var flags := req.ReadU32();
      if flags.None? { return Error; }
      var i := GetKey(public.value);
      if i.None? { return Error; }
      if !answer {
        resp.WriteU8(FAILURE);
        return Answer(resp.bytes);
      }
      resp.WriteU8(SIGN_RESPONSE);
      var sig := Sign(crypto, config.keys[i.value].private, msg.value, flags.value);
      if sig.None? { return Error; }
      resp.WriteString(sig.value);
      assert [] + [SIGN_RESPONSE] == [SIGN_RESPONSE];
      return Answer(resp.bytes);
    }

    method HandleRequestInternal(buf: Bytes, env: Env) returns (r: Outcome)
      modifies config, config.disk
      ensures (r, State()) == Process(crypto, old(State()), buf, env)
    {
      hide ProcessAdd, ProcessSign;
      var req := new Cursor(buf);
      var resp := new ByteBuffer();
      var msgType := req.ReadU8();
      assert |buf| > 0 ==> req.Remaining() == buf[1..];
      if msgType.None? {
        return Error;
      }
      if msgType.value == REQUEST_IDENTITIES {
        var ok := ListIdentities(resp);
        r := if ok then Answer(resp.bytes) else Panic;
      } else if msgType.value == ADD_IDENTITY {
        r := HandleAdd(req, resp, env.save);
      } else if msgType.value == SIGN_REQUEST {
        r := HandleSign(req, resp, env.answer);
      } else {
        resp.WriteU8(FAILURE);
        assert [] + [FAILURE] == [FAILURE];
        r := Answer(resp.bytes);
      }
    }

    /** None means that the calling thread panics. */
    method HandleRequest(buf: Bytes, env: Env) returns (reply: Option<Bytes>)
      modifies config, config.disk
      ensures Handled(reply, State()) == Handle(crypto, old(State()), buf, env)
    {
      var r := HandleRequestInternal(buf, env);
      match r {
        case Answer(resp) => return Some(resp);
        case Error => return Some([FAILURE]);
        case Panic => return None;
      }
    }
  }
}
