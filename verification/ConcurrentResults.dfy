/** What clients and the user can rely on, whatever the interleaving: order, consent and equivalence to one thread. */
module ConcurrentResults {
  import opened Wrappers
  import opened Wire
  import opened Keys
  import opened Config
  import opened Agent
  import opened AgentRuns
  import opened Frames
  import opened Connection
  import opened Concurrent
  import opened ConcurrentSafety
  import opened ConcurrentInputs
  import opened Sequences

  // ------------------------------------------------------------ serializability

  /** Every complete request the client sent has been handled and answered: it is idle, or has ended its stream. */
  predicate UpToDate(conn: Conn) {
    (conn.pc.Reading? && SplitFrame(conn.input).None?) || conn.pc == Ended(StreamEnded)
  }

  /**
   After any interleaving of any number of connections, reloads and edits: keys, file and every reply are those
   of one sequential agent serving the log; each connection's requests are in the log in the order it sent them,
   with none skipped; and it has been written its replies in that same order.
   */
  lemma Serializable(c: Crypto, agent: AgentState, parent: Parents, moves: seq<Move>, i: nat)
    requires RunMoves(c, Initial(agent, parent), moves).Some?
    requires i < |RunMoves(c, Initial(agent, parent), moves).value.conns|
    ensures var s := RunMoves(c, Initial(agent, parent), moves).value;
            var conn := s.conns[i];
            && s.shared == Replay(c, Guarded(agent, false), s.log)
            && Faithful(c, Guarded(agent, false), s.log)
            && AllFrames(conn.received) == FramesOf(s.log, i) + AllFrames(conn.pc.Unhandled() + conn.input)
            && conn.output <= Concat(RepliesOf(s.log, i))
            && (conn.pc.Reading? || conn.pc == Ended(StreamEnded) ==>
                && conn.output == Concat(RepliesOf(s.log, i))
                && |RepliesOf(s.log, i)| == |FramesOf(s.log, i)|)
            && (UpToDate(conn) ==> FramesOf(s.log, i) == AllFrames(conn.received))
  {
    var g := Guarded(agent, false);
    InitialInv(c, agent, parent);
    ReachableInv(c, g, Initial(agent, parent), moves);
    var s := RunMoves(c, Initial(agent, parent), moves).value;
    hide RunMoves, Replay, Faithful, MutexInv, QuestionInv, PanicInv, ClicksInv;
    ConnectionView(s.log, i, s.conns[i]);
    hide ConnInv;
  }

  lemma ConnectionView(log: seq<LogEntry>, i: nat, conn: Conn)
    requires ConnInv(log, i, conn)
    ensures AllFrames(conn.received) == FramesOf(log, i) + AllFrames(conn.pc.Unhandled() + conn.input)
    ensures conn.output <= Concat(RepliesOf(log, i))
    ensures conn.pc.Reading? || conn.pc == Ended(StreamEnded) || conn.pc == Ended(ThreadPanicked) ==>
              conn.output == Concat(RepliesOf(log, i))
    ensures conn.pc != Ended(ThreadPanicked) ==> |RepliesOf(log, i)| == |FramesOf(log, i)|
    ensures UpToDate(conn) ==> FramesOf(log, i) == AllFrames(conn.received)
  {
    hide FramesOf, RepliesOf, Concat, AllFrames, SplitFrame, Str, Delivery;
    if conn.pc.Cut() {
      DeliveryPrefix(RepliesOf(log, i), conn.pc.how.sent);
    }
    Assoc(Concat(FramesOf(log, i)), conn.pc.Unhandled(), conn.input);
    FramesOfConcat(FramesOf(log, i), conn.pc.Unhandled() + conn.input);
    Unit(conn.output);
    if UpToDate(conn) {
      Unit(conn.input);
      StuckExactly(conn.input);
      StuckHasNoFrames(conn.input);
      Unit(FramesOf(log, i));
    }
  }

  /** Requests enter the log while their thread holds the mutex, so the log's order is that of the mutex. */
  lemma LoggedByHolder(c: Crypto, s: System, m: Move)
    requires MutexInv(s) && Enabled(s, m) && !s.shared.poisoned
    ensures var s' := Do(c, s, m);
            |s'.log| > |s.log| && s'.log[|s.log|].Served? ==> s.owner == Thread(s'.log[|s.log|].id)
    ensures var s' := Do(c, s, m);
            |s'.log| > |s.log| && s'.log[|s.log|].ReloadedFile? ==> s.owner == MainThread
  {
    hide Handle, SplitFrame, KeyToConfirm, Str, Truncate, Reloaded;
  }

  lemma {:induction false} RepliesOfNonempty(c: Crypto, g: Guarded, log: seq<LogEntry>, i: nat)
    requires Faithful(c, g, log)
    ensures var replies := RepliesOf(log, i);
            forall k :: 0 <= k < |replies| ==> |replies[k]| > 0
  {
    hide LockedHandle;
    if log != [] {
      var init, last := log[..|log| - 1], log[|log| - 1];
      RepliesOfNonempty(c, g, init, i);
      var one := if last.Served? && last.id == i && last.reply.Some? then [last.reply.value] else [];
      assert RepliesOf(log, i) == RepliesOf(init, i) + one;
      if last.Served? {
        ReplyNonempty(c, Replay(c, g, init), last.frame, last.env);
        assert last.reply.Some? ==> |last.reply.value| > 0;
      }
      hide RepliesOf, Replay, Faithful;
    }
  }

  // ------------------------------------------------------------ the log as a run of the agent

  /** What the log's entries are to the agent alone. A request that finds the mutex poisoned does not reach it. */
  function EventsOf(c: Crypto, g: Guarded, log: seq<LogEntry>): seq<Event> {
    if log == [] then []
    else
      var init, last := log[..|log| - 1], log[|log| - 1];
      EventsOf(c, g, init) +
        match last
        case Served(_, frame, env, _) => if Replay(c, g, init).poisoned then [] else [Request(frame, env)]
        case ReloadedFile(readable) => [Reload(readable)]
        case EditedFile(file) => [Edit(file)]
  }

  lemma {:induction false} RunSnoc(c: Crypto, st: AgentState, evs: seq<Event>, ev: Event)
    ensures Run(c, st, evs + [ev]) == Step(c, Run(c, st, evs), ev)
    decreases |evs|
  {
    hide Step;
    if evs == [] {
      assert evs + [ev] == [ev] && [ev][1..] == [];
      assert Run(c, Step(c, st, ev), []) == Step(c, st, ev);
    } else {
      assert (evs + [ev])[1..] == evs[1..] + [ev];
      RunSnoc(c, Step(c, st, evs[0]), evs[1..], ev);
    }
  }

  /** Keys and file after any log are those of a run of the agent, so all that holds of its runs holds here. */
  lemma {:induction false} ReplayIsRun(c: Crypto, g: Guarded, log: seq<LogEntry>)
    ensures Replay(c, g, log).agent == Run(c, g.agent, EventsOf(c, g, log))
  {
    hide Handle, Reloaded;
    if log != [] {
      var init, last := log[..|log| - 1], log[|log| - 1];
      ReplayIsRun(c, g, init);
      var evs, before := EventsOf(c, g, init), Replay(c, g, init);
      Unit(evs);
      match last
      case Served(_, frame, env, _) => RunSnoc(c, g.agent, evs, Request(frame, env));
      case ReloadedFile(readable) => RunSnoc(c, g.agent, evs, Reload(readable));
      case EditedFile(file) => RunSnoc(c, g.agent, evs, Edit(file));
      hide Run;
    }
  }

  /** A client that is idle or has ended its stream reads back, with the same frame reader, its replies in order. */
  lemma ClientReadsReplies(c: Crypto, agent: AgentState, parent: Parents, moves: seq<Move>, i: nat)
    requires RunMoves(c, Initial(agent, parent), moves).Some?
    requires var s := RunMoves(c, Initial(agent, parent), moves).value;
             && i < |s.conns| && (s.conns[i].pc.Reading? || s.conns[i].pc == Ended(StreamEnded))
             && ShortBodies(RepliesOf(s.log, i))
    ensures var s := RunMoves(c, Initial(agent, parent), moves).value;
            AllFrames(s.conns[i].output) == RepliesOf(s.log, i) && Leftover(s.conns[i].output) == []
  {
    Serializable(c, agent, parent, moves, i);
    var s := RunMoves(c, Initial(agent, parent), moves).value;
    hide RunMoves, Replay, Faithful, RepliesOf, FramesOf, Concat, SplitFrame;
    RepliesOfNonempty(c, Guarded(agent, false), s.log, i);
    assert ValidBodies(RepliesOf(s.log, i));
    FramesUnique(RepliesOf(s.log, i), []);
    Unit(Concat(RepliesOf(s.log, i)));
  }

  // ------------------------------------------------------------ one connection alone

  /** Only requests: no reload and no edit of the file. */
  predicate AllServed(log: seq<LogEntry>) {
    forall k :: 0 <= k < |log| ==> log[k].Served?
  }

  /** What the world decided while the logged requests were served, all writes succeeding except perhaps the last. */
  function WorldOf(log: seq<LogEntry>, cuts: seq<nat>): World {
    (k: nat) => Turn(if k < |log| && log[k].Served? then log[k].env else NO_ANSWER,
                     if cuts != [] && k + 1 == |log| then WriteFails(cuts[0]) else Written)
  }

  lemma {:induction false} FaithfulPrefix(c: Crypto, g: Guarded, log: seq<LogEntry>, k: nat)
    requires Faithful(c, g, log) && k < |log|
    ensures Faithful(c, g, log[..k])
    ensures log[k].Served? ==> log[k].reply == LockedHandle(c, Replay(c, g, log[..k]), log[k].frame, log[k].env).0
    decreases |log|
  {
    hide LockedHandle;
    if k < |log| - 1 {
      FaithfulPrefix(c, g, log[..|log| - 1], k);
      assert log[..|log| - 1][..k] == log[..k];
    }
  }

  lemma ServedEntry(c: Crypto, g: Guarded, log: seq<LogEntry>, i: nat, k: nat)
    requires Faithful(c, g, log) && k < |log| && log[k].Served? && log[k].id == i
    ensures LockedHandle(c, Replay(c, g, log[..k]), log[k].frame, log[k].env)
            == (log[k].reply, Replay(c, g, log[..k + 1]))
    ensures FramesOf(log[..k + 1], i) == FramesOf(log[..k], i) + [log[k].frame]
    ensures RepliesOf(log[..k + 1], i) ==
            RepliesOf(log[..k], i) + (if log[k].reply.Some? then [log[k].reply.value] else [])
  {
    hide LockedHandle, Replay, Faithful, RepliesOf, FramesOf, QuestionsOf;
    FaithfulPrefix(c, g, log, k);
    assert log[..k + 1] == log[..k] + [log[k]];
    Appended(c, g, log[..k], log[k]);
  }

  /** The loop over the frames one thread has served, and others: the replies logged, and then the others from there. */
  lemma {:induction false} LoneServe(c: Crypto, g: Guarded, log: seq<LogEntry>, i: nat, cuts: seq<nat>, k: nat,
                                     later: seq<Bytes>)
    requires k <= |log| && Faithful(c, g, log) && AllServed(log) && (forall j :: 0 <= j < |log| ==> log[j].id == i)
    requires cuts != [] ==> k < |log|
    ensures var rest := Serve(c, Replay(c, g, log[..k]), later, WorldOf(log, cuts), k);
            Serve(c, g, FramesOf(log[..k], i) + later, WorldOf(log, cuts), 0)
            == Connection.Served(Concat(RepliesOf(log[..k], i)) + rest.output, rest.state)
    decreases k
  {
    hide LockedHandle, Str, Concat, Faithful, Serve;
    var world := WorldOf(log, cuts);
    if k == 0 {
      assert log[..0] == [] && FramesOf([], i) == [] && RepliesOf([], i) == [] && Replay(c, g, []) == g;
      Unit(later);
      ConcatNil(Serve(c, g, later, world, 0).output);
    } else {
      hide FramesOf, RepliesOf, Replay;
      var e := log[k - 1];
      LoneServe(c, g, log, i, cuts, k - 1, [e.frame] + later);
      ServedEntry(c, g, log, i, k - 1);
      ServeFirst(c, Replay(c, g, log[..k - 1]), e.frame, later, world, k - 1);
      Assoc(FramesOf(log[..k - 1], i), [e.frame], later);
      var before := Concat(RepliesOf(log[..k - 1], i));
      var output := Serve(c, Replay(c, g, log[..k]), later, world, k).output;
      if e.reply.Some? {
        ConcatOne(RepliesOf(log[..k - 1], i), e.reply.value);
        Assoc(before, Str(e.reply.value), output);
      } else {
        Unit(RepliesOf(log[..k - 1], i));
        Unit(output);
      }
    }
  }

  /**
   With one connection, no reload and no edit of the file, the process is the connection loop: once the thread is up
   to date or has ended, output and shared state are those of the loop over the stream the client sent.
   */
  lemma LoneConnection(c: Crypto, agent: AgentState, parent: Parents, moves: seq<Move>)
    requires RunMoves(c, Initial(agent, parent), moves).Some?
    requires var s := RunMoves(c, Initial(agent, parent), moves).value;
             && |s.conns| == 1 && AllServed(s.log)
             && (UpToDate(s.conns[0]) || s.conns[0].pc.Ended?)
    ensures var s := RunMoves(c, Initial(agent, parent), moves).value;
            Serve(c, Guarded(agent, false), AllFrames(SentBy(moves, 0)), WorldOf(s.log, CutsIn(moves, 0)), 0)
            == Connection.Served(s.conns[0].output, s.shared)
  {
    var g := Guarded(agent, false);
    InitialInv(c, agent, parent);
    ReachableInv(c, g, Initial(agent, parent), moves);
    WorldDecides(c, agent, parent, moves, 0);
    var s := RunMoves(c, Initial(agent, parent), moves).value;
    hide RunMoves, MutexInv, QuestionInv, ClicksInv, ConnInv, UpToDate, Serve, Replay, Faithful, SentBy, CutsIn;
    hide AllFrames;
    var conn := s.conns[0];
    var pc := conn.pc;
    assert pc.Ended? ==> pc.how == StreamEnded || pc.how == ThreadPanicked || pc.how.WriteBroken?;
    if pc.Cut() {
      CutStream(c, g, s.log, conn);
    } else {
      StreamEndedUpToDate(conn);
      LoneStream(c, g, s.log, conn);
    }
  }

  lemma StreamEndedUpToDate(conn: Conn)
    ensures conn.pc == Ended(StreamEnded) ==> UpToDate(conn)
  {
  }

  lemma LoneStream(c: Crypto, g: Guarded, log: seq<LogEntry>, conn: Conn)
    requires Faithful(c, g, log) && AllServed(log) && (forall j :: 0 <= j < |log| ==> log[j].id == 0)
    requires ConnInv(log, 0, conn)
    requires UpToDate(conn) || (conn.pc == Ended(ThreadPanicked) && Replay(c, g, log).poisoned)
    ensures Serve(c, g, AllFrames(conn.received), WorldOf(log, []), 0)
            == Connection.Served(conn.output, Replay(c, g, log))
  {
    ConnectionView(log, 0, conn);
    hide ConnInv, Serve, Replay, Faithful, FramesOf, RepliesOf, Concat, AllFrames, SplitFrame, WorldOf, Pc.Unhandled;
    var later := AllFrames(conn.pc.Unhandled() + conn.input);
    assert log[..|log|] == log;
    LoneServe(c, g, log, 0, [], |log|, later);
    PanicEndsServing(c, Replay(c, g, log), later, WorldOf(log, []), |log|);
    if UpToDate(conn) {
      NothingLeft(FramesOf(log, 0), later);
    }
    Unit(conn.output);
  }

  lemma {:induction false} FewerReplies(log: seq<LogEntry>, i: nat)
    ensures |RepliesOf(log, i)| <= |FramesOf(log, i)|
  {
    if log != [] {
      FewerReplies(log[..|log| - 1], i);
    }
  }

  /** When the last reply could not be written in full. */
  lemma CutStream(c: Crypto, g: Guarded, log: seq<LogEntry>, conn: Conn)
    requires Faithful(c, g, log) && AllServed(log) && (forall j :: 0 <= j < |log| ==> log[j].id == 0)
    requires ConnInv(log, 0, conn) && conn.pc.Cut()
    ensures Serve(c, g, AllFrames(conn.received), WorldOf(log, [conn.pc.how.sent]), 0)
            == Connection.Served(conn.output, Replay(c, g, log))
  {
    ConnectionView(log, 0, conn);
    var sent, n := conn.pc.how.sent, |log|;
    assert n > 0;
    var world, before, e := WorldOf(log, [sent]), log[..n - 1], log[n - 1];
    assert world(n - 1).write == WriteFails(sent) && world(n - 1).env == e.env;
    hide Serve, Replay, Faithful, FramesOf, RepliesOf, Concat, AllFrames, SplitFrame, WorldOf, Pc.Unhandled, Delivery;
    var later := AllFrames(conn.pc.Unhandled() + conn.input);
    ServedEntry(c, g, log, 0, n - 1);
    assert log[..n] == log;
    FewerReplies(before, 0);
    LoneServe(c, g, log, 0, [sent], n - 1, [e.frame] + later);
    ServeFirstCut(c, Replay(c, g, before), e.frame, later, world, n - 1);
    Assoc(FramesOf(before, 0), [e.frame], later);
    LastDelivery(RepliesOf(before, 0), e.reply.value, sent);
  }

  lemma ServeFirstCut(c: Crypto, g: Guarded, frame: Bytes, later: seq<Bytes>, world: World, k: nat)
    requires world(k).write.WriteFails? && LockedHandle(c, g, frame, world(k).env).0.Some?
    ensures var (reply, g') := LockedHandle(c, g, frame, world(k).env);
            Serve(c, g, [frame] + later, world, k)
            == Connection.Served(Truncate(Str(reply.value), world(k).write.sent), g')
  {
    hide Handle, Str;
  }

  lemma LastDelivery(replies: seq<Bytes>, last: Bytes, sent: nat)
    ensures Delivery(replies + [last], sent) == Concat(replies) + Truncate(Str(last), sent)
  {
    assert (replies + [last])[..|replies|] == replies;
    hide Str, Concat, Truncate, Delivery;
    DeliveryParts(replies + [last], sent);
  }

  lemma NothingLeft(frames: seq<Bytes>, later: seq<Bytes>)
    requires frames == frames + later
    ensures later == []
  {
    assert |frames + later| == |frames| + |later|;
  }

  // ------------------------------------------------------------ confirmations

  /**
   In every reachable state at most one confirmation is outstanding; while one is, its asker holds the mutex and
   is waiting for it, and the key shown is the one the asker's request will be signed with.
   */
  lemma OneConfirmation(c: Crypto, agent: AgentState, parent: Parents, moves: seq<Move>)
    requires RunMoves(c, Initial(agent, parent), moves).Some?
    ensures var s := RunMoves(c, Initial(agent, parent), moves).value;
            && |s.queue| + |s.dialogs| + |s.channels| <= 1
            && (forall ask :: ask in s.queue || ask in s.dialogs ==>
                  && s.owner == Thread(ask.id)
                  && ask.id < |s.conns| && s.conns[ask.id].pc.Asking?
                  && KeyToConfirm(s.shared.agent.keys, s.conns[ask.id].pc.frame).Some?
                  && ask.key == s.shared.agent.keys[KeyToConfirm(s.shared.agent.keys, s.conns[ask.id].pc.frame).value]
                  && (DistinctShown(s.shared.agent.keys) ==> Recognised(s.shared.agent.keys, ask.key)))
            && (forall i :: i in s.channels ==> s.owner == Thread(i) && i < |s.conns| && s.conns[i].pc.Asking?)
  {
    InitialInv(c, agent, parent);
    ReachableInv(c, Guarded(agent, false), Initial(agent, parent), moves);
    var s := RunMoves(c, Initial(agent, parent), moves).value;
    hide RunMoves, ReplayInv, StreamsInv, ClicksInv, KnownIds, KeyToConfirm, PanicInv, DistinctShown, Recognised;
    OneQuestion(s);
    hide MutexInv, QuestionInv;
    forall ask | ask in s.queue || ask in s.dialogs
      ensures DistinctShown(s.shared.agent.keys) ==> Recognised(s.shared.agent.keys, ask.key)
    {
      if DistinctShown(s.shared.agent.keys) {
        RecognisedIfDistinct(s.shared.agent.keys, ask.key);
      }
    }
  }

  lemma OneQuestion(s: System)
    requires MutexInv(s) && QuestionInv(s)
    ensures |s.queue| + |s.dialogs| + |s.channels| <= 1
    ensures forall ask :: ask in s.queue || ask in s.dialogs ==>
              && s.owner == Thread(ask.id)
              && ask.id < |s.conns| && s.conns[ask.id].pc.Asking?
              && KeyToConfirm(s.shared.agent.keys, s.conns[ask.id].pc.frame).Some?
              && ask.key == s.shared.agent.keys[KeyToConfirm(s.shared.agent.keys, s.conns[ask.id].pc.frame).value]
    ensures forall i :: i in s.channels ==> s.owner == Thread(i) && i < |s.conns| && s.conns[i].pc.Asking?
  {
    hide KeyToConfirm;
    SizeOfChannels(s);
  }

  lemma SizeOfChannels(s: System)
    ensures |s.channels| == |s.channels.Keys|
  {
  }

  // ------------------------------------------------------------ what the dialog shows

  /** The dialog shows the key's name alone, up to its first NUL character. */
  function NameShown(name: Bytes): Bytes {
    if name == [] || name[0] == 0 then [] else [name[0]] + NameShown(name[1..])
  }

  lemma {:induction false} WholeNameShown(name: Bytes)
    requires 0 !in name
    ensures NameShown(name) == name
  {
    if name != [] {
      WholeNameShown(name[1..]);
    }
  }

  /** What the user sees tells the key apart from all others. */
  predicate Recognised(keys: seq<KeyPair>, key: KeyPair) {
    key in keys && forall other :: other in keys && NameShown(other.name) == NameShown(key.name) ==> other == key
  }

  /** The names that are shown are distinct. */
  predicate DistinctShown(keys: seq<KeyPair>) {
    forall i, j :: 0 <= i < j < |keys| ==> NameShown(keys[i].name) != NameShown(keys[j].name)
  }

  lemma RecognisedIfDistinct(keys: seq<KeyPair>, key: KeyPair)
    requires key in keys && DistinctShown(keys)
    ensures Recognised(keys, key)
  {
    hide NameShown;
  }

  /** Different keys are recognised exactly when the names shown are distinct, as distinct names without NUL are. */
  lemma RecognisedExactly(keys: seq<KeyPair>)
    requires DistinctPublic(keys)
    ensures (forall key :: key in keys ==> Recognised(keys, key)) <==> DistinctShown(keys)
    ensures DistinctNames(keys) && (forall key :: key in keys ==> 0 !in key.name) ==> DistinctShown(keys)
  {
    if DistinctNames(keys) && forall key :: key in keys ==> 0 !in key.name {
      forall i | 0 <= i < |keys|
        ensures NameShown(keys[i].name) == keys[i].name
      {
        WholeNameShown(keys[i].name);
      }
    }
    hide NameShown;
    if DistinctShown(keys) {
      forall key | key in keys
        ensures Recognised(keys, key)
      {
        RecognisedIfDistinct(keys, key);
      }
    }
    if forall key :: key in keys ==> Recognised(keys, key) {
      forall i, j | 0 <= i < j < |keys|
        ensures NameShown(keys[i].name) != NameShown(keys[j].name)
      {
        assert Recognised(keys, keys[i]);
        assert keys[j] in keys && keys[j] != keys[i];
      }
    }
  }

  /** The names "a" and "a", NUL, "b" are different and look the same. */
  lemma SameLookExample()
    ensures ValidUtf8([0x61]) && ValidUtf8([0x61, 0, 0x62]) && NameShown([0x61]) == NameShown([0x61, 0, 0x62])
  {
    var a: Bytes := [0x61];
    var b: Bytes := [0x61, 0, 0x62];
    assert a[1..] == [] && b[1..] == [0, 0x62] && b[1..][1..] == [0x62] && b[1..][1..][1..] == [];
    assert ValidUtf8([0x62]) && ValidUtf8([0, 0x62]);
  }

  // ------------------------------------------------------------ consent

  /** Which of the user's clicks the log entry `k` was answered by, if its request asked. */
  function ClickOf(c: Crypto, g: Guarded, log: seq<LogEntry>, k: nat): nat
    requires k <= |log|
  {
    |QuestionsOf(c, g, log[..k])|
  }

  lemma {:induction false} QuestionsPrefix(c: Crypto, g: Guarded, log: seq<LogEntry>, k: nat)
    requires k <= |log|
    ensures QuestionsOf(c, g, log[..k]) <= QuestionsOf(c, g, log)
    decreases |log|
  {
    hide Question;
    if k < |log| {
      QuestionsPrefix(c, g, log[..|log| - 1], k);
      assert log[..|log| - 1][..k] == log[..k];
    } else {
      assert log[..k] == log;
    }
  }

  /** The click said OK, on the dialog of the connection that got this reply, which showed the key that signed. */
  predicate Consented(c: Crypto, e: LogEntry, click: Answered) {
    && e.Served? && |e.frame| > 0
    && click.answer && click.id == e.id
    && match ReadSignRequest(e.frame[1..])
       case Malformed => false
       case Parsed(req, _) =>
         && click.key.public == req.public
         && match Signature(c, click.key.private, req.msg, req.flags)
            case None => false
            case Some(blob) => e.reply == Some([SIGN_RESPONSE] + Str(blob))
  }

  /** A reply that is a signature was asked for, agreed to, and made by the key shown. */
  lemma SignedReply(c: Crypto, g: Guarded, e: LogEntry)
    requires IsSignature(e) && e.reply == LockedHandle(c, g, e.frame, e.env).0
    ensures |Question(g, e)| == 1 && Consented(c, e, Question(g, e)[0]) && Question(g, e)[0].key in g.agent.keys
  {
    hide PairFromWire, ReadSignRequest, Signature, Encode, IdentityList;
  }

  lemma QuestionAt(c: Crypto, g: Guarded, log: seq<LogEntry>, k: nat)
    requires Faithful(c, g, log) && k < |log| && IsSignature(log[k])
    ensures ClickOf(c, g, log, k + 1) == ClickOf(c, g, log, k) + 1
    ensures ClickOf(c, g, log, k) < |QuestionsOf(c, g, log)|
    ensures var click := QuestionsOf(c, g, log)[ClickOf(c, g, log, k)];
            Consented(c, log[k], click) && click.key in Replay(c, g, log[..k]).agent.keys
  {
    hide Replay, Faithful, QuestionsOf, Question, Consented, LockedHandle, ApplyEntry, FramesOf, RepliesOf;
    FaithfulPrefix(c, g, log, k);
    SignedReply(c, Replay(c, g, log[..k]), log[k]);
    QuestionsPrefix(c, g, log, k + 1);
    assert log[..k + 1] == log[..k] + [log[k]];
    Appended(c, g, log[..k], log[k]);
  }

  lemma ClickOfMonotone(c: Crypto, g: Guarded, log: seq<LogEntry>, k: nat, l: nat)
    requires k <= l <= |log|
    ensures ClickOf(c, g, log, k) <= ClickOf(c, g, log, l)
  {
    QuestionsPrefix(c, g, log[..l], k);
    assert log[..l][..k] == log[..k];
  }

  lemma ConsentIn(c: Crypto, g: Guarded, s: System, k: nat)
    requires Faithful(c, g, s.log) && ClicksInv(c, g, s)
    requires k < |s.log| && IsSignature(s.log[k])
    ensures ClickOf(c, g, s.log, k) < |s.clicks|
    ensures var click := s.clicks[ClickOf(c, g, s.log, k)];
            Consented(c, s.log[k], click) && click.key in Replay(c, g, s.log[..k]).agent.keys
    ensures forall l :: k < l < |s.log| ==> ClickOf(c, g, s.log, k) < ClickOf(c, g, s.log, l)
  {
    hide PendingClick, Consented, QuestionsOf, Faithful, Replay;
    QuestionAt(c, g, s.log, k);
    var click := QuestionsOf(c, g, s.log)[ClickOf(c, g, s.log, k)];
    assert s.clicks[ClickOf(c, g, s.log, k)] == click;
    hide ClickOf;
    forall l | k < l < |s.log|
      ensures ClickOf(c, g, s.log, k) < ClickOf(c, g, s.log, l)
    {
      ClickOfMonotone(c, g, s.log, k + 1, l);
    }
  }

  /** The move of the user to which the signature in log entry `k` goes back. */
  function ConsentMove(c: Crypto, g: Guarded, log: seq<LogEntry>, moves: seq<Move>, k: nat): nat
    requires k <= |log| && ClickOf(c, g, log, k) < |ClicksOf(moves)|
  {
    ClickAt(moves, ClickOf(c, g, log, k))
  }

  /**
   Consent: the signatures of the whole history map one to one into the moves by which the user pressed OK: on the
   dialog of the connection that got the signature, about the key that made it. No two signatures share such a move.
   If the names shown for the keys held at that moment are distinct, the user could recognise the key.
   */
  lemma SignaturesHaveConsent(c: Crypto, agent: AgentState, parent: Parents, moves: seq<Move>, k: nat)
    requires RunMoves(c, Initial(agent, parent), moves).Some?
    requires var s := RunMoves(c, Initial(agent, parent), moves).value;
             k < |s.log| && IsSignature(s.log[k])
    ensures var g, s := Guarded(agent, false), RunMoves(c, Initial(agent, parent), moves).value;
            var keys := Replay(c, g, s.log[..k]).agent.keys;
            && ClickOf(c, g, s.log, k) < |ClicksOf(moves)|
            && var m := moves[ConsentMove(c, g, s.log, moves, k)];
            && m.Click? && m.ok
            && Consented(c, s.log[k], Answered(m.dialog.id, m.dialog.key, m.ok))
            && (DistinctShown(keys) ==> Recognised(keys, m.dialog.key))
            && forall l :: k < l < |s.log| && ClickOf(c, g, s.log, l) < |ClicksOf(moves)| ==>
                 ConsentMove(c, g, s.log, moves, k) < ConsentMove(c, g, s.log, moves, l)
  {
    hide RunMoves, Consented, ClickOf, MutexInv, StreamsInv, KnownIds, QuestionInv, ClicksInv, ClicksOf;
    var g := Guarded(agent, false);
    InitialInv(c, agent, parent);
    ReachableInv(c, g, Initial(agent, parent), moves);
    WorldDecides(c, agent, parent, moves, 0);
    var s := RunMoves(c, Initial(agent, parent), moves).value;
    ConsentIn(c, g, s, k);
    var click := s.clicks[ClickOf(c, g, s.log, k)];
    ConsentSaysOk(c, s.log[k], click);
    var keys := Replay(c, g, s.log[..k]).agent.keys;
    if DistinctShown(keys) {
      RecognisedIfDistinct(keys, click.key);
    }
    forall l | k < l < |s.log| && ClickOf(c, g, s.log, l) < |ClicksOf(moves)|
      ensures ConsentMove(c, g, s.log, moves, k) < ConsentMove(c, g, s.log, moves, l)
    {
      ClickAtMonotone(moves, ClickOf(c, g, s.log, k), ClickOf(c, g, s.log, l));
    }
    hide Replay, Faithful, DistinctShown, Recognised;
  }

  lemma ConsentSaysOk(c: Crypto, e: LogEntry, click: Answered)
    requires Consented(c, e, click)
    ensures click.answer
  {
  }

  predicate IsSignature(e: LogEntry) {
    e.Served? && e.reply.Some? && |e.reply.value| > 0 && e.reply.value[0] == SIGN_RESPONSE
  }
}
