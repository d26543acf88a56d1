/** Which requests bring the agent down: the ones that panic, and the ones that make a later one panic. */
module Panics {
  import opened Wrappers
  import opened Wire
  import opened Keys
  import opened Config
  import opened Agent
  import opened AgentRuns
  import opened Connection
  import opened Sequences

  // ------------------------------------------------------------ the requests that matter

  /** An ADD whose numbers can be read, one factor being 1: deriving the exponents divides by zero. */
  predicate Crashes(buf: Bytes) {
    && |buf| > 0 && buf[0] == ADD_IDENTITY
    && ReadComponents(buf[1..]).Parsed? && ZeroModulus(ReadComponents(buf[1..]).value)
  }

  /** A readable ADD of a key whose e or n is zero: it is stored, and cannot be listed. */
  predicate Plants(buf: Bytes) {
    && |buf| > 0 && buf[0] == ADD_IDENTITY
    && PairFromWire(buf[1..]).Done? && !PairFromWire(buf[1..]).value.public.Encodable()
  }

  predicate Lists(buf: Bytes) {
    |buf| > 0 && buf[0] == REQUEST_IDENTITIES
  }

  /** A key that cannot be listed is there from the start, or is sent. */
  predicate Planted(start: bool, frames: seq<Bytes>) {
    start || exists j :: 0 <= j < |frames| && Plants(frames[j])
  }

  predicate PanicAt(start: bool, frames: seq<Bytes>, k: nat) {
    k < |frames| && (Crashes(frames[k]) || (Lists(frames[k]) && Planted(start, frames[..k])))
  }

  /** Some request has a factor 1, or some LIST comes after a key with a zero number. */
  predicate BringPanic(start: bool, frames: seq<Bytes>) {
    exists k :: 0 <= k < |frames| && PanicAt(start, frames, k)
  }

  // ------------------------------------------------------------ one request more

  lemma BringPanicCons(start: bool, frame: Bytes, later: seq<Bytes>)
    ensures BringPanic(start, [frame] + later) <==>
            Crashes(frame) || (Lists(frame) && start) || BringPanic(start || Plants(frame), later)
  {
    hide Crashes, Plants, Lists;
    var frames, start' := [frame] + later, start || Plants(frame);
    forall k: nat | k < |later|
      ensures PanicAt(start, frames, k + 1) <==> PanicAt(start', later, k)
    {
      assert frames[..k + 1] == [frame] + later[..k];
      PlantedCons(start, frame, later[..k]);
    }
    assert frames[..0] == [];
    assert PanicAt(start, frames, 0) <==> Crashes(frame) || (Lists(frame) && start);
    if k :| 0 <= k < |frames| && PanicAt(start, frames, k) {
      assert k > 0 ==> PanicAt(start', later, k - 1);
    }
    if k :| 0 <= k < |later| && PanicAt(start', later, k) {
      assert PanicAt(start, frames, k + 1);
    }
  }

  lemma PlantedCons(start: bool, frame: Bytes, later: seq<Bytes>)
    ensures Planted(start, [frame] + later) <==> Planted(start || Plants(frame), later)
  {
    hide Plants;
    var frames := [frame] + later;
    assert Plants(frames[0]) <==> Plants(frame);
    assert forall j :: 0 <= j < |later| ==> frames[j + 1] == later[j];
  }

  lemma BringPanicSnoc(start: bool, frames: seq<Bytes>, frame: Bytes)
    ensures BringPanic(start, frames + [frame]) <==>
            BringPanic(start, frames) || Crashes(frame) || (Lists(frame) && Planted(start, frames))
    ensures Planted(start, frames + [frame]) <==> Planted(start, frames) || Plants(frame)
  {
    hide Crashes, Plants, Lists;
    var all := frames + [frame];
    forall k: nat | k <= |frames|
      ensures all[..k] == frames[..k]
    {
    }
    assert frames[..|frames|] == frames && all[|frames|] == frame;
    assert forall k: nat :: k < |frames| ==> (PanicAt(start, all, k) <==> PanicAt(start, frames, k));
    assert PanicAt(start, all, |frames|) <==> Crashes(frame) || (Lists(frame) && Planted(start, frames));
  }

  /** One request: when it panics, and otherwise when every key can still be listed. */
  lemma PanicStep(c: Crypto, st: AgentState, buf: Bytes, env: Env)
    ensures var h := Handle(c, st, buf, env);
            && (h.reply.None? <==> Crashes(buf) || (Lists(buf) && !AllEncodable(st.keys)))
            && (h.reply.Some? ==> (AllEncodable(h.state.keys) <==> AllEncodable(st.keys) && !Plants(buf)))
  {
    PanicExactly(c, st, buf, env);
    RequestEffect(c, st, buf, env);
    hide Handle, PairFromWire, ReadComponents, ZeroModulus, FileAfterSave;
    if AddedPair(st.keys, buf).Some? {
      EncodableSnoc(st.keys, AddedPair(st.keys, buf).value);
    }
  }

  lemma EncodableSnoc(keys: seq<KeyPair>, pair: KeyPair)
    ensures AllEncodable(keys + [pair]) <==> AllEncodable(keys) && pair.public.Encodable()
  {
    hide PublicKey.Encodable;
    var all := keys + [pair];
    assert all[|keys|] == pair;
    assert forall i :: 0 <= i < |keys| ==> all[i] == keys[i];
  }

  // ------------------------------------------------------------ one connection

  /** One connection panics exactly when its frames, with the keys there are, bring a panic. */
  lemma {:induction false} ServePanicsExactly(c: Crypto, g: Guarded, frames: seq<Bytes>, world: World, i: nat)
    requires !g.poisoned && AllWritten(world)
    ensures Serve(c, g, frames, world, i).state.poisoned <==> BringPanic(!AllEncodable(g.agent.keys), frames)
    decreases |frames|
  {
    hide Handle, AllEncodable, Crashes, Plants, Lists, BringPanic;
    if frames == [] {
      NoFrames(!AllEncodable(g.agent.keys));
    } else {
      var later := frames[1..];
      HeadTail(frames);
      PanicStep(c, g.agent, frames[0], world(i).env);
      BringPanicCons(!AllEncodable(g.agent.keys), frames[0], later);
      assert world(i).write.Written?;
      var (reply, g') := LockedHandle(c, g, frames[0], world(i).env);
      if reply.Some? {
        ServePanicsExactly(c, g', later, world, i + 1);
      }
    }
  }

  lemma NoFrames(start: bool)
    ensures !BringPanic(start, [])
  {
  }

  /** Every frame is answered exactly when none crashes and no LIST comes after a key with a zero number. */
  lemma OneReplyEach(c: Crypto, g: Guarded, frames: seq<Bytes>, world: World)
    requires !g.poisoned && AllWritten(world)
    ensures |Replies(c, g, frames, world, 0)| == |frames| <==> !BringPanic(!AllEncodable(g.agent.keys), frames)
  {
    hide BringPanic, AllEncodable;
    AnsweredUnlessPoisoned(c, g, frames, world, 0);
    ServePanicsExactly(c, g, frames, world, 0);
  }

  // ------------------------------------------------------------ an example

  const NAME: Bytes := [0x61]

  /** A key with the exponent 0, which is an mpint without a body. */
  const ZERO_KEY: RsaComponents := RsaComponents(15, 0, 3, 2, 3, 5)

  function ZeroBody(): Bytes {
    Str(SSH_RSA) + (Mpint(15) + (Str([]) + (Mpint(3) + (Mpint(2) + (Mpint(3) + (Mpint(5) + Str(NAME)))))))
  }

  lemma SmallNumber(n: nat, tail: Bytes)
    requires 0 < n < 0x80
    ensures ReadMpint(Mpint(n) + tail) == Parsed(n, tail)
  {
    MpintBodyLength(n);
    BitLengthByte(n);
    ReadWrittenMpint(n, tail);
  }

  lemma ReadZeroBody()
    ensures PairFromWire(ZeroBody()) == Done(NewPair(Derive(ZERO_KEY), NAME), [])
  {
    SshRsaIsUtf8();
    var b6 := Str(NAME);
    var b5 := Mpint(5) + b6;
    var b4 := Mpint(3) + b5;
    var b3 := Mpint(2) + b4;
    var b2 := Mpint(3) + b3;
    var b1 := Str([]) + b2;
    var b0 := Mpint(15) + b1;
    ReadWrittenString(SSH_RSA, b0);
    SmallNumber(15, b1);
    ReadMpintAgreesExactly([], b2);
    SmallNumber(3, b3);
    SmallNumber(2, b4);
    SmallNumber(3, b5);
    SmallNumber(5, b6);
    assert NAME[1..] == [] && ValidUtf8(NAME);
    ReadWrittenString(NAME, []);
    assert Str(NAME) + [] == Str(NAME);
    hide Mpint, Str, ReadMpint, ReadString, ValidUtf8;
  }

  function AddZero(): Bytes {
    [ADD_IDENTITY] + ZeroBody()
  }

  const LIST: Bytes := [REQUEST_IDENTITIES]

  lemma ZeroKeyAdded(c: Crypto, st: AgentState, env: Env)
    requires env.save.Saved?
    ensures Plants(AddZero())
    ensures Handle(c, st, AddZero(), env).reply == Some([SUCCESS])
    ensures !AllEncodable(Handle(c, st, AddZero(), env).state.keys)
  {
    ReadZeroBody();
    assert AddZero()[1..] == ZeroBody();
    hide ZeroBody, PairFromWire, ReadComponents, ZeroModulus;
    RequestEffect(c, st, AddZero(), env);
    if FindKey(st.keys, RsaPublic(0, 15)).Some? {
      AddIsHeld(c, st, Request(AddZero(), env), RsaPublic(0, 15));
    }
    hide AddZero;
    PanicStep(c, st, AddZero(), env);
  }

  /**
   Any agent is asked to add a key with the exponent 0, and then to list. The first request is answered with SUCCESS,
   the second panics, and no request of anyone is answered after that.
   */
  lemma ZeroKeyExample(c: Crypto, st: AgentState, world: World, later: seq<Bytes>, laterWorld: World)
    requires AllWritten(world) && world(0).env.save.Saved?
    ensures var served := Serve(c, Guarded(st, false), [AddZero(), LIST], world, 0);
            && served.output == Str([SUCCESS]) && served.state.poisoned
            && Serve(c, served.state, later, laterWorld, 0) == Served([], served.state)
  {
    hide AddZero, AllEncodable, Plants, Handle, Str;
    var g := Guarded(st, false);
    ZeroKeyAdded(c, st, world(0).env);
    assert world(0).write.Written? && world(1).write.Written?;
    var g' := LockedHandle(c, g, AddZero(), world(0).env).1;
    assert [AddZero()] + [LIST] == [AddZero(), LIST];
    ServeFirst(c, g, AddZero(), [LIST], world, 0);
    PanicStep(c, g'.agent, LIST, world(1).env);
    ServeFirst(c, g', LIST, [], world, 1);
    assert [LIST] + [] == [LIST];
    var g2 := LockedHandle(c, g', LIST, world(1).env).1;
    PanicEndsServing(c, g2, [], world, 2);
    PanicEndsServing(c, g2, later, laterWorld, 0);
    hide Serve, LockedHandle;
    assert Str([SUCCESS]) + [] == Str([SUCCESS]);
  }
}
