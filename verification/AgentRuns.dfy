/** What every request, reload and restart keeps, over whole runs of the agent. */
module AgentRuns {
  import opened Wrappers
  import opened Wire
  import opened Keys
  import opened Config
  import opened Agent

  /** A request, a "reload" from the taskbar menu, or the user editing the file by hand. */
  datatype Event = Request(buf: Bytes, env: Env) | Reload(readable: bool) | Edit(file: StoredFile)

  function Reloaded(c: Crypto, st: AgentState, readable: bool): AgentState {
    match Load(c, st.file, readable)
    case None => st
    case Some(keys) => AgentState(keys, st.file)
  }

  function Step(c: Crypto, st: AgentState, ev: Event): AgentState {
    match ev
    case Request(buf, env) => Handle(c, st, buf, env).state
    case Reload(readable) => Reloaded(c, st, readable)
    case Edit(file) => AgentState(st.keys, file)
  }

  function Run(c: Crypto, st: AgentState, evs: seq<Event>): AgentState
    decreases |evs|
  {
    if evs == [] then st else Run(c, Step(c, st, evs[0]), evs[1..])
  }

  /** The program starts by loading the file and saving it back; it gives up if either fails. */
  function Restart(c: Crypto, file: StoredFile, readable: bool, save: SaveOutcome): Option<AgentState> {
    match Load(c, file, readable)
    case None => None
    case Some(keys) =>
      if save.Saved? then Some(AgentState(keys, FileAfterSave(c, file, keys, save))) else None
  }

  method Start(c: Crypto, disk: Disk, readable: bool, save: SaveOutcome) returns (agent: SshAgent?)
    modifies disk
    ensures agent == null <==> Restart(c, old(disk.file), readable, save).None?
    ensures agent != null ==> Restart(c, old(disk.file), readable, save) == Some(agent.State())
    ensures agent != null ==> agent.crypto == c && agent.config.disk == disk
  {
    var keys := LoadConfig(c, disk, readable);
    if keys.None? {
      return null;
    }
    var config := new KeyConfig(keys.value, disk);
    var ok := config.Save(c, save);
    if !ok {
      return null;
    }
    agent := new SshAgent(c, config);
  }

  /** The reload arm of the taskbar window. */
  method ReloadAgent(agent: SshAgent, readable: bool) returns (ok: bool)
    modifies agent.config
    ensures agent.State() == Reloaded(agent.crypto, old(agent.State()), readable)
  {
    ok := agent.config.Reload(agent.crypto, readable);
  }

  // ------------------------------------------------------------ one request

  /** The key a request appends: that of a readable ADD whose public numbers are new. */
  function AddedPair(keys: seq<KeyPair>, buf: Bytes): Option<KeyPair> {
    if |buf| == 0 || buf[0] != ADD_IDENTITY then None
    else
      match PairFromWire(buf[1..])
      case Failed => None
      case Panicked => None
      case Done(pair, _) => if FindKey(keys, pair.public).None? then Some(pair) else None
  }

  /** The whole effect of a request on keys and file. */
  lemma RequestEffect(c: Crypto, st: AgentState, buf: Bytes, env: Env)
    ensures var h := Handle(c, st, buf, env);
            match AddedPair(st.keys, buf)
            case None => h.state == st
            case Some(pair) =>
              && h.state == AgentState(st.keys + [pair], FileAfterSave(c, st.file, st.keys + [pair], env.save))
              && h.reply == Some(if env.save.Saved? then [SUCCESS] else [FAILURE])
  {
    hide PairFromWire, ReadSignRequest;
  }

  /** A request that fails anywhere answers one FAILURE byte, and leaves everything as it was unless a save failed. */
  lemma ErrorAtomicity(c: Crypto, st: AgentState, buf: Bytes, env: Env)
    requires Process(c, st, buf, env).0.Error?
    ensures var h := Handle(c, st, buf, env);
            && h.reply == Some([FAILURE])
            && (h.state != st ==>
                && AddedPair(st.keys, buf).Some? && !env.save.Saved?
                && h.state.keys == st.keys + [AddedPair(st.keys, buf).value]
                && (env.save.CreateFailed? ==> h.state.file == st.file))
  {
    hide PairFromWire, ReadSignRequest;
  }

  /** A panic changes nothing either; it comes from listing an unencodable key or importing a factor 1 alone. */
  lemma PanicExactly(c: Crypto, st: AgentState, buf: Bytes, env: Env)
    ensures var h := Handle(c, st, buf, env);
            && (h.reply.None? <==>
                && |buf| > 0
                && (|| (buf[0] == REQUEST_IDENTITIES &&
                        exists i :: 0 <= i < |st.keys| && (st.keys[i].public.e == 0 || st.keys[i].public.n == 0))
                    || (buf[0] == ADD_IDENTITY && ReadComponents(buf[1..]).Parsed? &&
                        ZeroModulus(ReadComponents(buf[1..]).value))))
            && (h.reply.None? ==> h.state == st)
  {
    hide ReadComponents, ReadSignRequest, ZeroModulus;
  }

  /** The user's answer makes a difference only to a request that asks. */
  lemma AnswerMattersOnlyIfAsked(c: Crypto, st: AgentState, buf: Bytes, env: Env, answer: bool)
    requires KeyToConfirm(st.keys, buf).None?
    ensures Handle(c, st, buf, env) == Handle(c, st, buf, env.(answer := answer))
  {
    hide PairFromWire, ReadSignRequest;
  }

  // ------------------------------------------------------------ invariants over runs

  predicate DistinctPublic(keys: seq<KeyPair>) {
    forall i, j :: 0 <= i < j < |keys| ==> keys[i].public != keys[j].public
  }

  /** In every run, reloads and edits included, public halves stay those of the private halves. */
  lemma {:induction false} RunKeepsCoherence(c: Crypto, st: AgentState, evs: seq<Event>)
    requires Coherent(st.keys)
    ensures Coherent(Run(c, st, evs).keys)
    decreases |evs|
  {
    if evs != [] {
      StepKeepsCoherence(c, st, evs[0]);
      hide Step, Coherent;
      RunKeepsCoherence(c, Step(c, st, evs[0]), evs[1..]);
    }
  }

  lemma StepKeepsCoherence(c: Crypto, st: AgentState, ev: Event)
    requires Coherent(st.keys)
    ensures Coherent(Step(c, st, ev).keys)
  {
    if ev.Request? {
      RequestEffect(c, st, ev.buf, ev.env);
      hide Handle, ReadComponents;
    }
  }

  ghost predicate NoReload(evs: seq<Event>) {
    forall i :: 0 <= i < |evs| ==> !evs[i].Reload?
  }

  /** Without reloads no public key is ever stored twice, and the list only grows at its end. */
  lemma {:induction false} RunKeepsDistinct(c: Crypto, st: AgentState, evs: seq<Event>)
    requires DistinctPublic(st.keys) && NoReload(evs)
    ensures DistinctPublic(Run(c, st, evs).keys)
    ensures st.keys <= Run(c, st, evs).keys
    decreases |evs|
  {
    if evs != [] {
      StepKeepsDistinct(c, st, evs[0]);
      hide Step, DistinctPublic;
      RunKeepsDistinct(c, Step(c, st, evs[0]), evs[1..]);
    }
  }

  lemma StepKeepsDistinct(c: Crypto, st: AgentState, ev: Event)
    requires DistinctPublic(st.keys) && !ev.Reload?
    ensures DistinctPublic(Step(c, st, ev).keys) && st.keys <= Step(c, st, ev).keys
  {
    if ev.Request? {
      RequestEffect(c, st, ev.buf, ev.env);
      hide Handle, PairFromWire, FileAfterSave;
      if AddedPair(st.keys, ev.buf).Some? {
        NewIsDistinct(st.keys, AddedPair(st.keys, ev.buf).value);
      }
      hide AddedPair, DistinctPublic;
    }
  }

  lemma NewIsDistinct(keys: seq<KeyPair>, pair: KeyPair)
    requires DistinctPublic(keys) && FindKey(keys, pair.public).None?
    ensures DistinctPublic(keys + [pair])
  {
  }

  /** The event is an ADD request, with any name and any outcome of its save, for the given public key. */
  ghost predicate Adds(ev: Event, public: PublicKey) {
    && ev.Request? && |ev.buf| > 0 && ev.buf[0] == ADD_IDENTITY
    && PairFromWire(ev.buf[1..]).Done?
    && PairFromWire(ev.buf[1..]).value.public == public
  }

  lemma AddIsHeld(c: Crypto, st: AgentState, ev: Event, public: PublicKey)
    requires Adds(ev, public)
    ensures FindKey(Step(c, st, ev).keys, public).Some?
    ensures FindKey(st.keys, public).Some? ==> Step(c, st, ev) == st
    ensures FindKey(st.keys, public).Some? ==> Handle(c, st, ev.buf, ev.env).reply == Some([SUCCESS])
  {
    RequestEffect(c, st, ev.buf, ev.env);
    hide PairFromWire, Process;
    if FindKey(st.keys, public).None? {
      var keys := Step(c, st, ev).keys;
      assert keys[|keys| - 1].public == public;
    }
  }

  /** The events without the ADDs of one key. */
  ghost function Without(evs: seq<Event>, public: PublicKey): seq<Event> {
    if evs == [] then []
    else (if Adds(evs[0], public) then [] else [evs[0]]) + Without(evs[1..], public)
  }

  lemma StepKeepsHeld(c: Crypto, st: AgentState, ev: Event, public: PublicKey)
    requires FindKey(st.keys, public).Some? && !ev.Reload?
    ensures FindKey(Step(c, st, ev).keys, public).Some?
  {
    var k := FindKey(st.keys, public).value;
    if ev.Request? {
      RequestEffect(c, st, ev.buf, ev.env);
    }
    hide Handle, AddedPair, FileAfterSave;
    assert Step(c, st, ev).keys[k].public == public;
  }

  /** Once a key is held, later ADDs of it can be left out of a run without reload. */
  lemma {:induction false} HeldAddsDropOut(c: Crypto, st: AgentState, evs: seq<Event>, public: PublicKey)
    requires FindKey(st.keys, public).Some? && NoReload(evs)
    ensures Run(c, st, evs) == Run(c, st, Without(evs, public))
    decreases |evs|
  {
    hide Step, Adds, FindKey;
    if evs != [] {
      var rest := Without(evs[1..], public);
      StepKeepsHeld(c, st, evs[0], public);
      HeldAddsDropOut(c, Step(c, st, evs[0]), evs[1..], public);
      if Adds(evs[0], public) {
        AddIsHeld(c, st, evs[0], public);
        assert [] + rest == rest;
      } else {
        assert ([evs[0]] + rest)[1..] == rest;
      }
    }
  }

  /**
   After a first ADD of a key, further ADDs of it make no difference, however often they come, under whatever names,
   and whatever comes between them: two runs without reload that differ in them alone end in the same state.
   */
  lemma AddRepeated(c: Crypto, st: AgentState, first: Event, evs: seq<Event>, evs': seq<Event>, public: PublicKey)
    requires Adds(first, public) && NoReload(evs) && NoReload(evs')
    requires Without(evs, public) == Without(evs', public)
    ensures Run(c, st, [first] + evs) == Run(c, st, [first] + evs')
  {
    AddIsHeld(c, st, first, public);
    var st' := Step(c, st, first);
    assert ([first] + evs)[1..] == evs && ([first] + evs')[1..] == evs';
    hide Step, Adds, FindKey, Without;
    HeldAddsDropOut(c, st', evs, public);
    HeldAddsDropOut(c, st', evs', public);
  }
}
