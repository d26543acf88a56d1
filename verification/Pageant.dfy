/** The Pageant exchange of src/platform/win/pageant/mod.rs: request and reply share one memory region. */
module Pageant {
  import opened Wrappers
  import opened Wire
  import opened WireIo
  import opened Config
  import opened Agent
  import opened Frames
  import opened Connection
  import opened Panics

  /** The region afterwards: a panic or a reply that is too long leaves it alone, otherwise its front is overwritten. */
  function RegionAfter(region: Bytes, served: Served): Bytes {
    if served.state.poisoned || |served.output| > |region| then region
    else served.output + region[|served.output|..]
  }

  lemma DeliveredWhole(b: Bytes)
    ensures Delivered([Data(b)]) == b
  {
    assert [Data(b)][1..] == [];
    assert b + [] == b;
  }

  /**
   Runs the connection loop over the region's bytes, collecting the output in a vector, then copies it back.
   Writing to a vector does not fail.
   */
  method Exchange(mutex: AgentMutex, region: array<byte>, world: World)
    requires AllWritten(world)
    modifies mutex, mutex.agent.config, mutex.agent.config.disk, region
    ensures var served := Serve(mutex.agent.crypto, old(mutex.State()), AllFrames(old(region[..])), world, 0);
            && mutex.State() == served.state
            && region[..] == RegionAfter(old(region[..]), served)
  {
    hide AllFrames, LockedHandle, Serve, Delivered;
    var before := region[..];
    DeliveredWhole(before);
    var stream := new Stream([Data(before)]);
    var resp := new ByteBuffer();
    ghost var served := Serve(mutex.agent.crypto, mutex.State(), AllFrames(before), world, 0);
    ConnectionHandler(mutex, stream, world, resp);
    var output := resp.bytes;
    assert output == served.output && mutex.State() == served.state;
    if mutex.poisoned || |output| > region.Length {
      return;
    }
    Overwrite(region, output);
  }

  method Overwrite(region: array<byte>, front: Bytes)
    requires |front| <= region.Length
    modifies region
    ensures region[..] == front + old(region[|front|..])
  {
    for i := 0 to |front|
      invariant forall j :: 0 <= j < i ==> region[j] == front[j]
      invariant forall j :: i <= j < region.Length ==> region[j] == old(region[j])
    {
      region[i] := front[i];
    }
  }

  /** A region that starts with one request holds just that one exactly when no frame starts after it. */
  lemma OneRequestExactly(body: Bytes, tail: Bytes)
    requires 0 < |body| < U32_LIMIT
    ensures AllFrames(Str(body) + tail) == [body] + AllFrames(tail)
    ensures |AllFrames(Str(body) + tail)| == 1 <==> Stuck(tail)
  {
    hide Str, SplitFrame;
    assert [body][1..] == [];
    assert Concat([body]) == Str(body) + [] == Str(body);
    FramesOfConcat([body], tail);
    StuckExactly(tail);
  }

  /**
   One request followed by no other frame: the region ends as the framed reply and its own old bytes, if that
   fits, and otherwise as it was; and the framed reply is what the client reads back.
   */
  lemma SingleRequest(c: Keys.Crypto, st: AgentState, body: Bytes, tail: Bytes, world: World)
    requires 0 < |body| < U32_LIMIT && Stuck(tail) && AllWritten(world)
    ensures var region := Str(body) + tail;
            var served := Serve(c, Guarded(st, false), AllFrames(region), world, 0);
            var h := Handle(c, st, body, world(0).env);
            && served.state.agent == h.state
            && match h.reply
               case None => RegionAfter(region, served) == region
               case Some(resp) =>
                 if |resp| + 4 > |region| then RegionAfter(region, served) == region
                 else
                   && RegionAfter(region, served) == Str(resp) + region[|resp| + 4..]
                   && (|resp| < U32_LIMIT ==>
                       SplitFrame(RegionAfter(region, served)) == Some((resp, region[|resp| + 4..])))
  {
    OneRequestExactly(body, tail);
    StuckHasNoFrames(tail);
    var region := Str(body) + tail;
    assert [body] + [] == [body];
    assert AllFrames(region) == [body];
    assert world(0).write.Written?;
    ReplyNonempty(c, Guarded(st, false), body, world(0).env);
    hide Handle, AllFrames, Str;
    assert [body][1..] == [];
    var g' := LockedHandle(c, Guarded(st, false), body, world(0).env).1;
    assert Serve(c, g', [], world, 1) == Served([], g');
    var h := Handle(c, st, body, world(0).env);
    if h.reply.Some? {
      var resp := h.reply.value;
      assert Str(resp) + [] == Str(resp);
      if |resp| < U32_LIMIT && |resp| + 4 <= |region| {
        SplitFramed(resp, region[|resp| + 4..]);
      }
    }
    hide SplitFrame;
  }

  /** If any of the requests in the region panics it is left as it was, though others may have been answered before. */
  lemma PanicLeavesRegion(c: Keys.Crypto, st: AgentState, region: Bytes, world: World)
    requires AllWritten(world) && BringPanic(!AllEncodable(st.keys), AllFrames(region))
    ensures RegionAfter(region, Serve(c, Guarded(st, false), AllFrames(region), world, 0)) == region
  {
    hide AllFrames, Serve, BringPanic, AllEncodable;
    ServePanicsExactly(c, Guarded(st, false), AllFrames(region), world, 0);
  }

  // ------------------------------------------------------------ a second frame

  const LIST: Bytes := [REQUEST_IDENTITIES]
  const NO_KEYS: Bytes := [IDENTITIES_ANSWER, 0, 0, 0, 0]

  lemma EmptyAgentLists(c: Keys.Crypto, env: Env)
    ensures LockedHandle(c, Guarded(AgentState([], Missing), false), LIST, env)
            == (Some(NO_KEYS), Guarded(AgentState([], Missing), false))
  {
    IdentityListNil();
    assert AllEncodable([]) && Be32(0) == [0, 0, 0, 0];
    assert IdentitiesAnswer([]) == NO_KEYS;
  }

  /**
   An agent without keys is asked for its list through a region of ten bytes. If the five bytes after the request
   are zero it answers. If they happen to be a LIST request too, it answers twice, and as that does not fit, not at all.
   */
  lemma SecondFrameExample(c: Keys.Crypto, world: World)
    requires AllWritten(world)
    ensures var g := Guarded(AgentState([], Missing), false);
            var once, twice := Str(LIST) + [0, 0, 0, 0, 0], Str(LIST) + Str(LIST);
            && AllFrames(once) == [LIST] && AllFrames(twice) == [LIST, LIST]
            && RegionAfter(once, Serve(c, g, AllFrames(once), world, 0)) == Str(NO_KEYS) + [0]
            && Serve(c, g, AllFrames(twice), world, 0).output == Str(NO_KEYS) + Str(NO_KEYS)
            && RegionAfter(twice, Serve(c, g, AllFrames(twice), world, 0)) == twice
  {
    var g := Guarded(AgentState([], Missing), false);
    OneRequestExactly(LIST, [0, 0, 0, 0, 0]);
    OneRequestExactly(LIST, Str(LIST));
    OneRequestExactly(LIST, []);
    assert Str(LIST) + [] == Str(LIST);
    StuckHasNoFrames([]);
    StuckHasNoFrames([0, 0, 0, 0, 0]);
    hide AllFrames, LockedHandle, Str;
    EmptyAgentLists(c, world(0).env);
    EmptyAgentLists(c, world(1).env);
    assert world(0).write.Written? && world(1).write.Written?;
    assert Serve(c, g, [], world, 1) == Serve(c, g, [], world, 2) == Served([], g);
    assert [LIST][1..] == [] && [LIST, LIST][1..] == [LIST] && [LIST] + [LIST] == [LIST, LIST];
    assert Serve(c, g, [LIST], world, 1).output == Str(NO_KEYS) + [] == Str(NO_KEYS);
    assert Serve(c, g, [LIST], world, 0).output == Str(NO_KEYS) + [] == Str(NO_KEYS);
    assert (Str(LIST) + [0, 0, 0, 0, 0])[9..] == [0];
  }
}
