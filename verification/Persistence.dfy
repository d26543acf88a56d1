/** When the stored file and the key list in memory agree, across whole runs and a restart. */
module Persistence {
  import opened Wrappers
  import opened Wire
  import opened Keys
  import opened Config
  import opened Agent
  import opened AgentRuns

  /** The file loads to exactly the keys in memory. */
  predicate Synced(c: Crypto, st: AgentState) {
    Load(c, st.file, true) == Some(st.keys)
  }

  /** Requests whose saves succeed, and reloads; nobody edits the file. */
  ghost predicate Undisturbed(evs: seq<Event>) {
    forall i :: 0 <= i < |evs| ==>
                  && !evs[i].Edit?
                  && (evs[i].Request? ==> evs[i].env.save.Saved?)
  }

  /** What undisturbed steps keep: the file agrees with memory while names are distinct, and then no longer loads. */
  ghost predicate Settled(c: Crypto, st: AgentState) {
    && Coherent(st.keys)
    && (DistinctNames(st.keys) ==> Synced(c, st))
    && (!DistinctNames(st.keys) ==> Load(c, st.file, true).None?)
  }

  lemma ReadableOnly(c: Crypto, file: StoredFile, readable: bool)
    ensures Load(c, file, readable).Some? ==> Load(c, file, readable) == Load(c, file, true)
  {
  }

  lemma StepSettled(c: Crypto, st: AgentState, ev: Event)
    requires c.PemRoundTrips() && Settled(c, st)
    requires !ev.Edit? && (ev.Request? ==> ev.env.save.Saved?)
    ensures Settled(c, Step(c, st, ev))
    ensures ev.Reload? ==> Step(c, st, ev) == st
  {
    match ev
    case Reload(readable) =>
      ReadableOnly(c, st.file, readable);
    case Request(buf, env) =>
      RequestEffect(c, st, buf, env);
      StepKeepsCoherence(c, st, ev);
      hide Handle, PairFromWire;
      if AddedPair(st.keys, buf).Some? {
        var keys := st.keys + [AddedPair(st.keys, buf).value];
        LoadAfterSave(c, keys, st.file);
        SavedLoads(c, keys);
      }
  }

  /** A saved list that does not load back to itself because of its names does not load at all. */
  lemma SavedLoads(c: Crypto, keys: seq<KeyPair>)
    ensures !DistinctNames(keys) ==> Load(c, Tables(Serialize(c, keys)), true).None?
  {
  }

  lemma {:induction false} RunSettled(c: Crypto, st: AgentState, evs: seq<Event>)
    requires c.PemRoundTrips() && Settled(c, st) && Undisturbed(evs)
    ensures Settled(c, Run(c, st, evs))
    decreases |evs|
  {
    if evs != [] {
      StepSettled(c, st, evs[0]);
      hide Step, Settled;
      RunSettled(c, Step(c, st, evs[0]), evs[1..]);
    }
  }

  /**
   In every undisturbed run from a synced state: the file loads back to the same ordered list exactly
   when no two stored keys share a name, and a reload at the end changes nothing in either case.
   */
  lemma RunSyncedExactly(c: Crypto, st: AgentState, evs: seq<Event>, readable: bool)
    requires c.PemRoundTrips() && Synced(c, st) && Undisturbed(evs)
    ensures var end := Run(c, st, evs);
            && (Synced(c, end) <==> DistinctNames(end.keys))
            && Reloaded(c, end, readable) == end
  {
    RunSettled(c, st, evs);
    StepSettled(c, Run(c, st, evs), Reload(readable));
  }

  /** Restarting from a synced state, with the file readable and the save successful, gives the same keys, synced. */
  lemma RestartSame(c: Crypto, st: AgentState)
    requires c.PemRoundTrips() && Synced(c, st)
    ensures Restart(c, st.file, true, Saved).Some?
    ensures var again := Restart(c, st.file, true, Saved).value; again.keys == st.keys && Synced(c, again)
  {
    LoadAfterSave(c, st.keys, st.file);
  }

  /** The first start, without a file, gives an empty agent whose new file agrees with it. */
  lemma FirstStart(c: Crypto, readable: bool)
    ensures Restart(c, Missing, readable, Saved).Some?
    ensures var first := Restart(c, Missing, readable, Saved).value; first.keys == [] && Synced(c, first)
  {
    assert Serialize(c, []) == [];
    assert Deserialize(c, []) == Some([]);
  }

  /** After an undisturbed run the agent restarts exactly when no two keys share a name, and then with the same keys. */
  lemma RestartAfterRun(c: Crypto, st: AgentState, evs: seq<Event>)
    requires c.PemRoundTrips() && Synced(c, st) && Undisturbed(evs)
    ensures var end := Run(c, st, evs);
            && (Restart(c, end.file, true, Saved).Some? <==> DistinctNames(end.keys))
            && (DistinctNames(end.keys) ==> Restart(c, end.file, true, Saved).value.keys == end.keys)
  {
    RunSettled(c, st, evs);
    var end := Run(c, st, evs);
    if DistinctNames(end.keys) {
      RestartSame(c, end);
    }
  }

  /** An ADD that could not be saved is not saved by repeating it, which reports SUCCESS and leaves the file alone. */
  lemma RetryDoesNotSave(c: Crypto, st: AgentState, buf: Bytes, env: Env, again: Env)
    requires AddedPair(st.keys, buf).Some? && !env.save.Saved?
    ensures var first := Handle(c, st, buf, env);
            var second := Handle(c, first.state, buf, again);
            && first.reply == Some([FAILURE])
            && second.reply == Some([SUCCESS])
            && second.state == first.state
            && (env.save.CreateFailed? ==> second.state.file == st.file)
  {
    RequestEffect(c, st, buf, env);
    var first := Handle(c, st, buf, env).state;
    var public := AddedPair(st.keys, buf).value.public;
    assert Adds(Request(buf, again), public);
    assert first.keys[|first.keys| - 1].public == public;
    AddIsHeld(c, first, Request(buf, again), public);
    hide Handle, PairFromWire;
  }

  /** The request is a readable ADD. */
  predicate ReadableAdd(buf: Bytes) {
    |buf| > 0 && buf[0] == ADD_IDENTITY && PairFromWire(buf[1..]).Done?
  }

  /**
   What a SUCCESS says about the file: after an ADD answered with it the file loads to the keys in memory exactly
   when, for a key already held, it did so before, and, for a new one, no two names are the same with it.
   */
  lemma SuccessIsStoredExactly(c: Crypto, st: AgentState, buf: Bytes, env: Env)
    requires c.PemRoundTrips() && Coherent(st.keys)
    requires ReadableAdd(buf) && Handle(c, st, buf, env).reply == Some([SUCCESS])
    ensures Synced(c, Handle(c, st, buf, env).state) <==>
            match AddedPair(st.keys, buf)
            case None => Synced(c, st)
            case Some(pair) => DistinctNames(st.keys + [pair])
  {
    RequestEffect(c, st, buf, env);
    StepKeepsCoherence(c, st, Request(buf, env));
    hide Handle, PairFromWire;
    if AddedPair(st.keys, buf).Some? {
      LoadAfterSave(c, st.keys + [AddedPair(st.keys, buf).value], st.file);
    }
  }

  // ------------------------------------------------------------ reading the file

  /** A reload brings in exactly what the file holds, if its names are distinct; otherwise the keys stay as they are. */
  lemma ReloadReadsFile(c: Crypto, st: AgentState, keys: seq<KeyPair>)
    requires c.PemRoundTrips() && Coherent(keys)
    ensures var file := Tables(Serialize(c, keys));
            Step(c, Step(c, st, Edit(file)), Reload(true))
            == AgentState(if DistinctNames(keys) then keys else st.keys, file)
  {
    LoadAfterSave(c, keys, st.file);
    if !DistinctNames(keys) {
      SavedLoads(c, keys);
    }
    hide Load, Serialize;
  }

  /** A file that is not a key file, or cannot be read, changes no keys on reload; a missing one empties the list. */
  lemma ReloadOfBadFile(c: Crypto, st: AgentState, entries: seq<Entry>, readable: bool)
    ensures Step(c, Step(c, st, Edit(Garbled)), Reload(readable)) == AgentState(st.keys, Garbled)
    ensures Step(c, Step(c, st, Edit(Tables(entries))), Reload(false)) == AgentState(st.keys, Tables(entries))
    ensures Step(c, Step(c, st, Edit(Missing)), Reload(readable)) == AgentState([], Missing)
  {
  }

  /** With such a file, or if the first save fails, the agent does not start, so it does not write the file over. */
  lemma StartOnBadFile(c: Crypto, file: StoredFile, entries: seq<Entry>, readable: bool, save: SaveOutcome)
    ensures Restart(c, Garbled, readable, save).None?
    ensures Restart(c, Tables(entries), false, save).None?
    ensures !save.Saved? ==> Restart(c, file, readable, save).None?
  {
  }

  /** One table whose PEM text is bad spoils the whole file, as does a table that occurs twice. */
  lemma OneBadTable(c: Crypto, st: AgentState, entries: seq<Entry>, i: nat)
    requires i < |entries|
    requires c.fromPem(entries[i].data).None? || exists j :: 0 <= j < i && entries[j].name == entries[i].name
    ensures Step(c, Step(c, st, Edit(Tables(entries))), Reload(true)) == AgentState(st.keys, Tables(entries))
    ensures Restart(c, Tables(entries), true, Saved).None?
  {
    if c.fromPem(entries[i].data).None? {
      BadPem(c, entries, i);
    }
    hide Deserialize;
  }

  lemma {:induction false} BadPem(c: Crypto, entries: seq<Entry>, i: nat)
    requires i < |entries| && c.fromPem(entries[i].data).None?
    ensures Deserialize(c, entries).None?
    decreases i
  {
    if i > 0 {
      BadPem(c, entries[1..], i - 1);
    }
  }

  // ------------------------------------------------------------ a retry, and two keys under one name

  const FIRST: RsaComponents := RsaComponents(15, 3, 3, 2, 3, 5)
  const SECOND: RsaComponents := RsaComponents(21, 5, 5, 1, 3, 7)
  const NAME: Bytes := [0x61]

  lemma SmallMpint(n: nat)
    requires 0 < n < 0x80
    ensures |MpintBody(n)| == 1
  {
    MpintBodyLength(n);
    BitLengthByte(n);
  }

  lemma ExampleImports(comps: RsaComponents)
    requires comps == FIRST || comps == SECOND
    ensures Positive(comps)
    ensures PairFromWire(AddBody(comps, NAME)) == Done(NewPair(Derive(comps), NAME), [])
  {
    SmallMpint(comps.n);
    SmallMpint(comps.e);
    SmallMpint(comps.d);
    SmallMpint(comps.iqmp);
    SmallMpint(comps.p);
    SmallMpint(comps.q);
    assert NAME[1..] == [] && ValidUtf8(NAME);
    PairDerived(comps, NAME);
  }

  function AddEvent(comps: RsaComponents): Event
    requires Positive(comps)
  {
    Request([ADD_IDENTITY] + AddBody(comps, NAME), Env(true, Saved))
  }

  lemma ExampleStep(c: Crypto, st: AgentState, comps: RsaComponents)
    requires comps == FIRST || comps == SECOND
    requires FindKey(st.keys, RsaPublic(comps.e, comps.n)).None?
    ensures Positive(comps)
    ensures var keys := st.keys + [NewPair(Derive(comps), NAME)];
            Step(c, st, AddEvent(comps)) == AgentState(keys, Tables(Serialize(c, keys)))
  {
    ExampleImports(comps);
    var ev := AddEvent(comps);
    assert ev.buf[1..] == AddBody(comps, NAME);
    hide AddBody, PairFromWire;
    RequestEffect(c, st, ev.buf, ev.env);
    hide Handle;
  }

  lemma FailedStep(c: Crypto, st: AgentState, comps: RsaComponents, save: SaveOutcome)
    requires comps == FIRST || comps == SECOND
    requires FindKey(st.keys, RsaPublic(comps.e, comps.n)).None? && !save.Saved?
    ensures Positive(comps)
    ensures AddedPair(st.keys, AddEvent(comps).buf) == Some(NewPair(Derive(comps), NAME))
    ensures var keys := st.keys + [NewPair(Derive(comps), NAME)];
            Handle(c, st, AddEvent(comps).buf, Env(true, save))
            == Handled(Some([FAILURE]), AgentState(keys, FileAfterSave(c, st.file, keys, save)))
  {
    hide AddBody, PairFromWire, Handle, FindKey, FileAfterSave, Derive;
    ExampleImports(comps);
    var buf := AddEvent(comps).buf;
    assert buf[1..] == AddBody(comps, NAME);
    RequestEffect(c, st, buf, Env(true, save));
    ExamplePublic(comps);
    hide AddEvent;
  }

  lemma ExamplePublic(comps: RsaComponents)
    requires comps == FIRST || comps == SECOND
    ensures !ZeroModulus(comps) && NewPair(Derive(comps), NAME).public == RsaPublic(comps.e, comps.n)
  {
  }

  /** A save that fails half way, leaving text that is no key file: keys stored before are lost to a restart. */
  lemma FailedWriteExample(c: Crypto, st: AgentState)
    requires FindKey(st.keys, RsaPublic(FIRST.e, FIRST.n)).None?
    ensures Positive(FIRST)
    ensures var h := Handle(c, st, AddEvent(FIRST).buf, Env(true, WriteFailed(Garbled)));
            && h.reply == Some([FAILURE])
            && h.state == AgentState(st.keys + [NewPair(Derive(FIRST), NAME)], Garbled)
            && Restart(c, h.state.file, true, Saved).None?
  {
    FailedStep(c, st, FIRST, WriteFailed(Garbled));
    hide Handle, AddEvent, FindKey;
  }

  lemma EmptyFile(c: Crypto)
    ensures Load(c, Tables([]), true) == Some([])
    ensures Restart(c, Missing, true, Saved) == Restart(c, Tables([]), true, Saved) == Some(AgentState([], Tables([])))
  {
    assert Serialize(c, []) == [] && Deserialize(c, []) == Some([]);
  }

  /** A key added twice to an agent just started, the first save failing: SUCCESS, and a restart has lost the key. */
  lemma FailedRetryExample(c: Crypto)
    ensures Positive(FIRST)
    ensures Restart(c, Missing, true, Saved) == Some(AgentState([], Tables([])))
    ensures var buf := AddEvent(FIRST).buf;
            var first := Handle(c, AgentState([], Tables([])), buf, Env(true, CreateFailed));
            var second := Handle(c, first.state, buf, Env(true, Saved));
            && first.reply == Some([FAILURE])
            && second.reply == Some([SUCCESS])
            && second.state == AgentState([NewPair(Derive(FIRST), NAME)], Tables([]))
            && !Synced(c, second.state)
            && Restart(c, second.state.file, true, Saved).Some?
            && Restart(c, second.state.file, true, Saved).value.keys == []
  {
    var st := AgentState([], Tables([]));
    EmptyFile(c);
    hide Load, Restart;
    FailedStep(c, st, FIRST, CreateFailed);
    var pair := NewPair(Derive(FIRST), NAME);
    assert st.keys + [pair] == [pair];
    RetryDoesNotSave(c, st, AddEvent(FIRST).buf, Env(true, CreateFailed), Env(true, Saved));
    hide Handle, AddEvent, AddedPair;
  }

  /** Two keys added under one name, every save succeeding: the file no longer loads and the agent cannot restart. */
  lemma SharedNameExample(c: Crypto)
    requires c.PemRoundTrips()
    ensures Positive(FIRST) && Positive(SECOND)
    ensures var end := Run(c, AgentState([], Tables([])), [AddEvent(FIRST), AddEvent(SECOND)]);
            && end.keys == [NewPair(Derive(FIRST), NAME), NewPair(Derive(SECOND), NAME)]
            && !Synced(c, end)
            && Restart(c, end.file, true, Saved).None?
  {
    var st := AgentState([], Tables([]));
    var p1, p2 := NewPair(Derive(FIRST), NAME), NewPair(Derive(SECOND), NAME);
    ExampleStep(c, st, FIRST);
    assert st.keys + [p1] == [p1];
    var mid := Step(c, st, AddEvent(FIRST));
    ExampleStep(c, mid, SECOND);
    assert [p1] + [p2] == [p1, p2];
    var end := Step(c, mid, AddEvent(SECOND));
    assert [AddEvent(FIRST), AddEvent(SECOND)][1..] == [AddEvent(SECOND)];
    assert [AddEvent(SECOND)][1..] == [];
    hide Step, AddEvent, Serialize, Load;
    assert Run(c, end, []) == end;
    assert Run(c, mid, [AddEvent(SECOND)]) == end;
    assert end.keys[0].name == end.keys[1].name;
    SavedLoads(c, end.keys);
  }
}
