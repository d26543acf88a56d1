/** When the running agent gets stuck, and that otherwise every request is answered. */
module ConcurrentProgress {
  import opened Wrappers
  import opened Wire
  import opened Keys
  import opened Config
  import opened Agent
  import opened AgentRuns
  import opened Frames
  import opened Connection
  import opened Requester
  import opened Concurrent
  import opened ConcurrentSafety
  import opened ConcurrentInputs
  import opened ConcurrentResults
  import opened ConcurrentStalls
  import opened ConcurrentPanics
  import opened Panics
  import opened Sequences

  // ------------------------------------------------------------ deadlock

  /** Thread `i` has a request, a reply or an introduction under way. */
  predicate InFlight(s: System, i: nat) {
    && i < |s.conns|
    && !s.conns[i].pc.Ended?
    && (s.conns[i].pc.Reading? ==> SplitFrame(s.conns[i].input).Some?)
  }

  /** The main thread waits for the mutex to reload, while its holder waits for a dialog the main thread must serve. */
  predicate Deadlocked(s: System) {
    && s.main.WantReload?
    && s.owner.Thread? && s.owner.id < |s.conns|
    && s.conns[s.owner.id].pc.Asking?
    && s.owner.id !in s.channels
  }

  /** The mutex's holder waits for a dialog's answer that has not been given, or is about to ask for one. */
  predicate AwaitsDialog(s: System) {
    && s.owner.Thread? && s.owner.id < |s.conns|
    && match s.conns[s.owner.id].pc
       case Locked(frame) => Asked(s, frame).Some?
       case Asking(_) => s.owner.id !in s.channels
       case _ => false
  }

  /** The same, or the holder has yet to ask and will then wait for ever: from here no request is ever served again. */
  predicate Doomed(s: System) {
    s.main.WantReload? && AwaitsDialog(s)
  }

  /** A move that brings the agent forward while thread `i` is in flight. */
  function NextMove(s: System, i: nat): Move
    requires InFlight(s, i)
  {
    match s.owner
    case MainThread => ReloadKeys
    case Thread(j) =>
      if j >= |s.conns| then ReloadKeys
      else (
        match s.conns[j].pc
        case Describing(pid) => if pid == 0 then Describe(j) else WalkUp(j)
        case Locked(frame) => if Asked(s, frame).None? then HandleRequest(j, Saved) else Post(j)
        case Asking(_) =>
          if j in s.channels then Receive(j)
          else if s.queue != [] then ShowDialog
          else if OpenQuestion(s).Some? then Click(OpenQuestion(s).value, true)
          else ReloadKeys
        case _ => Unlock(j)
      )
    case Free =>
      match s.conns[i].pc
      case Introducing(_) => LockToDescribe(i)
      case Wanting(_) => Lock(i)
      case Writing(_) => Write(i, Written)
      case _ => ReadRequest(i)
  }

  /** With a request in flight something can move, unless the process is deadlocked or has crashed. */
  lemma Progress(c: Crypto, g: Guarded, s: System, i: nat)
    requires Inv(c, g, s) && InFlight(s, i) && !s.main.Crashed? && !Deadlocked(s)
    ensures NextMove(s, i).Internal() && Enabled(s, NextMove(s, i))
  {
    hide ReplayInv, StreamsInv, KnownIds, ClicksInv, SplitFrame, KeyToConfirm;
  }

  /** Doom is for ever: no move of anyone ends it, and no request is served after it. */
  lemma DoomStays(c: Crypto, g: Guarded, s: System, m: Move)
    requires Inv(c, g, s) && Doomed(s) && Enabled(s, m)
    ensures Doomed(Do(c, s, m)) && (Deadlocked(s) ==> Deadlocked(Do(c, s, m)))
    ensures Do(c, s, m).log == s.log || (m.EditFile? && Do(c, s, m).log == s.log + [EditedFile(m.file)])
  {
    hide ReplayInv, StreamsInv, KnownIds, ClicksInv, SplitFrame, KeyToConfirm, Handle, Str, Truncate;
  }

  lemma {:induction false} DoomedForever(c: Crypto, g: Guarded, s: System, moves: seq<Move>, i: nat)
    requires Inv(c, g, s) && Doomed(s) && RunMoves(c, s, moves).Some?
    ensures var end := RunMoves(c, s, moves).value;
            && Doomed(end) && (Deadlocked(s) ==> Deadlocked(end))
            && FramesOf(end.log, i) == FramesOf(s.log, i)
            && RepliesOf(end.log, i) == RepliesOf(s.log, i)
    decreases |moves|
  {
    hide Inv, Do, Enabled, Deadlocked, Doomed;
    if moves != [] {
      var s' := Do(c, s, moves[0]);
      DoomStays(c, g, s, moves[0]);
      MoveKeepsInv(c, g, s, moves[0]);
      if s'.log != s.log {
        Appended(c, g, s.log, EditedFile(moves[0].file));
      }
      DoomedForever(c, g, s', moves[1..], i);
    }
  }

  /** The two ways into doom: "reload" chosen while a dialog is awaited, or a request that asks overtaking a reload. */
  predicate Dooms(s: System, m: Move)
    requires Enabled(s, m)
  {
    || (m.ChooseReload? && AwaitsDialog(s))
    || (m.Lock? && s.main.WantReload? && !s.shared.poisoned && Asked(s, s.conns[m.id].pc.frame).Some?)
  }

  lemma DoomedByExactly(c: Crypto, g: Guarded, s: System, m: Move)
    requires Inv(c, g, s) && !Doomed(s) && Enabled(s, m)
    ensures Doomed(Do(c, s, m)) <==> Dooms(s, m)
  {
    hide ReplayInv, StreamsInv, KnownIds, ClicksInv, PanicInv;
    if MayServe(m) {
      ServingDooms(c, s, m);
    } else {
      QuietDooms(c, s, m);
    }
  }

  lemma ServingDooms(c: Crypto, s: System, m: Move)
    requires MutexInv(s) && !Doomed(s) && Enabled(s, m) && MayServe(m)
    ensures Doomed(Do(c, s, m)) <==> Dooms(s, m)
  {
    hide SplitFrame, KeyToConfirm, Handle, Str, Truncate;
  }

  lemma QuietDooms(c: Crypto, s: System, m: Move)
    requires MutexInv(s) && QuestionInv(s) && !Doomed(s) && Enabled(s, m) && !MayServe(m)
    ensures Doomed(Do(c, s, m)) <==> Dooms(s, m)
  {
    hide SplitFrame, KeyToConfirm, ServeRequest, Str, Truncate;
  }

  ghost predicate NoReloadChosen(moves: seq<Move>) {
    forall k :: 0 <= k < |moves| ==> !moves[k].ChooseReload?
  }

  lemma {:induction false} MainKeepsPumping(c: Crypto, s: System, moves: seq<Move>)
    requires s.main.Pumping? && NoReloadChosen(moves) && RunMoves(c, s, moves).Some?
    ensures var end := RunMoves(c, s, moves).value; end.main.Pumping? && (QuietLog(s.log) ==> QuietLog(end.log))
    decreases |moves|
  {
    if moves != [] {
      PumpingMove(c, s, moves[0]);
      hide Do, Enabled, QuietLog;
      MainKeepsPumping(c, Do(c, s, moves[0]), moves[1..]);
    }
  }

  lemma PumpingMove(c: Crypto, s: System, m: Move)
    requires s.main.Pumping? && !m.ChooseReload? && Enabled(s, m)
    ensures Do(c, s, m).main.Pumping?
    ensures QuietLog(s.log) ==> QuietLog(Do(c, s, m).log)
  {
    hide SplitFrame, KeyToConfirm, LockedHandle, Str, Truncate;
  }

  /** Without "reload" nothing is ever doomed or crashed: all can be finished unless an endless walk prevents it. */
  lemma NoDeadlockWithoutReload(c: Crypto, agent: AgentState, parent: Parents, moves: seq<Move>, i: nat)
    requires NoReloadChosen(moves) && RunMoves(c, Initial(agent, parent), moves).Some?
    ensures var s := RunMoves(c, Initial(agent, parent), moves).value;
            && !Doomed(s)
            && (CanFinish(c, s) <==> WalksEnd(s) || CanPanic(c, s))
            && (InFlight(s, i) ==> NextMove(s, i).Internal() && Enabled(s, NextMove(s, i)))
  {
    var s := RunMoves(c, Initial(agent, parent), moves).value;
    MainKeepsPumping(c, Initial(agent, parent), moves);
    InitialInv(c, agent, parent);
    ReachableInv(c, Guarded(agent, false), Initial(agent, parent), moves);
    hide RunMoves, Inv, NextMove, Enabled, InFlight, CanFinish, CanPanic, WalksEnd;
    if InFlight(s, i) {
      Progress(c, Guarded(agent, false), s, i);
    }
    CanFinishExactly(c, Guarded(agent, false), s);
  }

  /** The reload is chosen in time, but the request takes the mutex before the main thread does. */
  lemma SignerOvertakes(c: Crypto, agent: AgentState, parent: Parents, frame: Bytes, readable: bool)
    requires KeyToConfirm(agent.keys, frame).Some?
    ensures var s := OneThread(agent, parent, Wanting(frame), Str(frame), [], Free, Pumping, []);
            var mid := RunMoves(c, s, [ChooseReload(readable)] + []);
            var end := RunMoves(c, s, [ChooseReload(readable)] + ([Lock(0)] + []));
            && mid.Some? && !Doomed(mid.value)
            && end.Some? && Doomed(end.value)
  {
    hide KeyToConfirm, Str;
    var s3 := OneThread(agent, parent, Wanting(frame), Str(frame), [], Free, Pumping, []);
    var s4 := OneThread(agent, parent, Wanting(frame), Str(frame), [], Free, WantReload(readable), []);
    FirstMove(c, s3, ChooseReload(readable), []);
    FirstMove(c, s3, ChooseReload(readable), [Lock(0)] + []);
    FirstMove(c, s4, Lock(0), []);
    assert RunMoves(c, s4, []) == Some(s4);
    assert RunMoves(c, Do(c, s4, Lock(0)), []) == Some(Do(c, s4, Lock(0)));
  }

  /** It also happens when "reload" is chosen before the request has the mutex, if the request gets it first. */
  lemma OvertakingReachable(c: Crypto, agent: AgentState, parent: Parents, frame: Bytes, readable: bool)
    requires 0 < |frame| < U32_LIMIT && KeyToConfirm(agent.keys, frame).Some?
    ensures var moves := [Connect(None), Arrive(0, Str(frame)), ReadRequest(0), ChooseReload(readable)];
            var mid := RunMoves(c, Initial(agent, parent), moves);
            var end := RunMoves(c, Initial(agent, parent), moves + [Lock(0)]);
            && mid.Some? && !Doomed(mid.value)
            && end.Some? && Doomed(end.value)
  {
    hide KeyToConfirm, Str, RunMoves, Doomed, Initial;
    RequestArrives(c, agent, parent, frame, [ChooseReload(readable)] + []);
    RequestArrives(c, agent, parent, frame, [ChooseReload(readable)] + ([Lock(0)] + []));
    SignerOvertakes(c, agent, parent, frame, readable);
    var moves := [Connect(None), Arrive(0, Str(frame)), ReadRequest(0), ChooseReload(readable)];
    assert [Connect(None)] + ([Arrive(0, Str(frame))] + ([ReadRequest(0)] + ([ChooseReload(readable)] + []))) == moves;
    assert [Connect(None)] + ([Arrive(0, Str(frame))] + ([ReadRequest(0)]
           + ([ChooseReload(readable)] + ([Lock(0)] + [])))) == moves + [Lock(0)];
  }

  /** One connection whose thread stands at `pc`, as the main thread stands at `main`. */
  function OneThread(agent: AgentState, parent: Parents, pc: Pc, received: Bytes, input: Bytes, owner: Owner,
                     main: MainPc, queue: seq<Confirmation>): System {
    System(Guarded(agent, false), owner, [Conn(pc, received, input, [])], main, queue, {}, map[], [], [], parent)
  }

  lemma RequestArrives(c: Crypto, agent: AgentState, parent: Parents, frame: Bytes, rest: seq<Move>)
    requires 0 < |frame| < U32_LIMIT
    ensures RunMoves(c, Initial(agent, parent), [Connect(None)] + ([Arrive(0, Str(frame))] + ([ReadRequest(0)] + rest)))
            == RunMoves(c, OneThread(agent, parent, Wanting(frame), Str(frame), [], Free, Pumping, []), rest)
  {
    hide Str, RunMoves, Do, Enabled, SplitFrame, Initial, OneThread;
    ArrivingMoves(c, agent, parent, frame);
    var m0, m1, m2 := Connect(None), Arrive(0, Str(frame)), ReadRequest(0);
    FirstMove(c, Initial(agent, parent), m0, [m1] + ([m2] + rest));
    FirstMove(c, OneThread(agent, parent, Reading, [], [], Free, Pumping, []), m1, [m2] + rest);
    FirstMove(c, OneThread(agent, parent, Reading, Str(frame), Str(frame), Free, Pumping, []), m2, rest);
  }

  ghost predicate Moves(c: Crypto, s: System, m: Move, s': System) {
    Enabled(s, m) && Do(c, s, m) == s'
  }

  lemma ArrivingMoves(c: Crypto, agent: AgentState, parent: Parents, frame: Bytes)
    requires 0 < |frame| < U32_LIMIT
    ensures var s1 := OneThread(agent, parent, Reading, [], [], Free, Pumping, []);
            var s2 := OneThread(agent, parent, Reading, Str(frame), Str(frame), Free, Pumping, []);
            var s3 := OneThread(agent, parent, Wanting(frame), Str(frame), [], Free, Pumping, []);
            && Moves(c, Initial(agent, parent), Connect(None), s1)
            && Moves(c, s1, Arrive(0, Str(frame)), s2)
            && Moves(c, s2, ReadRequest(0), s3)
  {
    hide Str;
    SplitFramed(frame, []);
    Unit(Str(frame));
    hide SplitFrame;
  }

  lemma SignerAsks(c: Crypto, agent: AgentState, parent: Parents, frame: Bytes, readable: bool)
    requires KeyToConfirm(agent.keys, frame).Some?
    ensures var s := OneThread(agent, parent, Wanting(frame), Str(frame), [], Free, Pumping, []);
            var mid := RunMoves(c, s, [Lock(0)] + ([ChooseReload(readable)] + []));
            var end := RunMoves(c, s, [Lock(0)] + ([ChooseReload(readable)] + ([Post(0)] + [])));
            && mid.Some? && Doomed(mid.value) && !Deadlocked(mid.value)
            && end.Some? && Deadlocked(end.value)
  {
    hide KeyToConfirm, Str;
    var s3 := OneThread(agent, parent, Wanting(frame), Str(frame), [], Free, Pumping, []);
    var s4 := OneThread(agent, parent, Locked(frame), Str(frame), [], Thread(0), Pumping, []);
    var s5 := OneThread(agent, parent, Locked(frame), Str(frame), [], Thread(0), WantReload(readable), []);
    assert Do(c, s3, Lock(0)).conns == s4.conns;
    FirstMove(c, s3, Lock(0), [ChooseReload(readable)] + []);
    FirstMove(c, s4, ChooseReload(readable), []);
    FirstMove(c, s3, Lock(0), [ChooseReload(readable)] + ([Post(0)] + []));
    FirstMove(c, s4, ChooseReload(readable), [Post(0)] + []);
    FirstMove(c, s5, Post(0), []);
    assert RunMoves(c, s5, []) == Some(s5);
    assert RunMoves(c, Do(c, s5, Post(0)), []) == Some(Do(c, s5, Post(0)));
  }

  /**
   With reload it does happen. For any SIGN request the agent would ask about, the fifth of these moves dooms the
   agent, before the question is even asked, and the sixth completes the deadlock.
   */
  lemma DeadlockReachable(c: Crypto, agent: AgentState, parent: Parents, frame: Bytes, readable: bool)
    requires 0 < |frame| < U32_LIMIT && KeyToConfirm(agent.keys, frame).Some?
    ensures var moves := [Connect(None), Arrive(0, Str(frame)), ReadRequest(0), Lock(0), ChooseReload(readable)];
            var mid := RunMoves(c, Initial(agent, parent), moves);
            var end := RunMoves(c, Initial(agent, parent), moves + [Post(0)]);
            && mid.Some? && Doomed(mid.value) && !Deadlocked(mid.value)
            && end.Some? && Deadlocked(end.value)
  {
    hide KeyToConfirm, Str, RunMoves, Deadlocked, Doomed, Initial;
    RequestArrives(c, agent, parent, frame, [Lock(0)] + ([ChooseReload(readable)] + []));
    RequestArrives(c, agent, parent, frame, [Lock(0)] + ([ChooseReload(readable)] + ([Post(0)] + [])));
    SignerAsks(c, agent, parent, frame, readable);
    var moves := [Connect(None), Arrive(0, Str(frame)), ReadRequest(0), Lock(0), ChooseReload(readable)];
    assert [Connect(None)] + ([Arrive(0, Str(frame))] + ([ReadRequest(0)]
           + ([Lock(0)] + ([ChooseReload(readable)] + [])))) == moves;
    assert [Connect(None)] + ([Arrive(0, Str(frame))] + ([ReadRequest(0)]
           + ([Lock(0)] + ([ChooseReload(readable)] + ([Post(0)] + []))))) == moves + [Post(0)];
  }

  // ------------------------------------------------------------ termination

  ghost function PcRank(parent: Parents, pc: Pc): nat {
    match pc
    case Ended(_) => 0
    case Reading => 1
    case Describing(pid) => 2 + WalkLength(parent, pid)
    case Introducing(peer) => 3 + WalkLength(parent, peer)
    case Writing(_) => 2
    case Replied(_) => 3
    case Asking(_) => 4
    case Locked(_) => 7
    case Wanting(_) => 8
  }

  ghost function ConnRank(parent: Parents, conn: Conn): nat {
    PcRank(parent, conn.pc) + 2 * |conn.input|
  }

  ghost function TotalRank(parent: Parents, conns: seq<Conn>): nat {
    if conns == [] then 0 else ConnRank(parent, conns[0]) + TotalRank(parent, conns[1..])
  }

  function MainRank(main: MainPc): nat {
    match main
    case WantReload(_) => 2
    case Reloading(_) => 1
    case _ => 0
  }

  /** How many moves the process and its user can make at most before new input is needed, an endless walk apart. */
  ghost function Rank(s: System): nat {
    TotalRank(s.parent, s.conns) + 2 * |s.queue| + |s.dialogs| + MainRank(s.main)
  }

  lemma {:induction false} TotalRankUpdate(parent: Parents, conns: seq<Conn>, i: nat, conn: Conn)
    requires i < |conns|
    ensures TotalRank(parent, conns[i := conn]) + ConnRank(parent, conns[i])
            == TotalRank(parent, conns) + ConnRank(parent, conn)
    decreases i
  {
    hide ConnRank;
    if i == 0 {
      assert conns[0 := conn][1..] == conns[1..];
    } else {
      TotalRankUpdate(parent, conns[1..], i - 1, conn);
      assert conns[i := conn][1..] == conns[1..][i - 1 := conn];
    }
  }

  function Mover(m: Move): Option<nat> {
    match m
    case LockToDescribe(i) => Some(i)
    case WalkUp(i) => Some(i)
    case Describe(i) => Some(i)
    case ReadRequest(i) => Some(i)
    case EndOfStream(i) => Some(i)
    case Lock(i) => Some(i)
    case HandleRequest(i, _) => Some(i)
    case Post(i) => Some(i)
    case Receive(i) => Some(i)
    case Unlock(i) => Some(i)
    case Write(i, _) => Some(i)
    case _ => None
  }

  /** A step of a walk that does not end. */
  ghost predicate EndlessStep(s: System, m: Move) {
    m.WalkUp? && Endless(s, m.id)
  }

  /** A connection thread's move changes that thread alone, and uses up more of its rank than it posts as messages. */
  lemma ThreadMove(c: Crypto, s: System, m: Move)
    requires Enabled(s, m) && Mover(m).Some? && !EndlessStep(s, m)
    ensures var i, s' := Mover(m).value, Do(c, s, m);
            && i < |s.conns| == |s'.conns|
            && s'.conns == s.conns[i := s'.conns[i]]
            && ConnRank(s.parent, s'.conns[i]) + 2 * |s'.queue| < ConnRank(s.parent, s.conns[i]) + 2 * |s.queue|
            && s'.dialogs == s.dialogs && s'.main == s.main && s'.parent == s.parent
  {
    hide Handle, KeyToConfirm, Str, Truncate, Reloaded, SplitFrame, WalkLength, WalkEnds;
    if m.WalkUp? {
      WalkLengthUp(s.parent, s.conns[m.id].pc.pid);
    }
  }

  lemma DialogShown(queue: seq<Confirmation>, dialogs: set<Confirmation>)
    requires queue != []
    ensures |queue[1..]| == |queue| - 1 && |dialogs + {queue[0]}| <= |dialogs| + 1
  {
  }

  lemma DialogClosed(dialogs: set<Confirmation>, dialog: Confirmation)
    requires dialog in dialogs
    ensures |dialogs - {dialog}| == |dialogs| - 1
  {
  }

  lemma MainMove(c: Crypto, s: System, m: Move)
    requires Enabled(s, m) && m.Internal() && Mover(m).None?
    ensures var s' := Do(c, s, m);
            && s'.conns == s.conns && s'.parent == s.parent
            && 2 * |s'.queue| + |s'.dialogs| + MainRank(s'.main) < 2 * |s.queue| + |s.dialogs| + MainRank(s.main)
  {
    hide ServeRequest, SetPc, KeyToConfirm, Str, Truncate, Reloaded, SplitFrame;
    match m
    case ShowDialog => DialogShown(s.queue, s.dialogs);
    case Click(dialog, _) => DialogClosed(s.dialogs, dialog);
    case LockToReload =>
    case ReloadKeys =>
  }

  lemma MoveDecreasesRank(c: Crypto, s: System, m: Move)
    requires Enabled(s, m) && m.Internal() && !EndlessStep(s, m)
    ensures Rank(Do(c, s, m)) < Rank(s)
  {
    hide Do, Enabled, ConnRank, EndlessStep;
    if Mover(m).Some? {
      ThreadMove(c, s, m);
      TotalRankUpdate(s.parent, s.conns, Mover(m).value, Do(c, s, m).conns[Mover(m).value]);
    } else {
      NoEndlessStep(s, m);
      MainMove(c, s, m);
    }
  }

  lemma NoEndlessStep(s: System, m: Move)
    ensures Mover(m).None? ==> !EndlessStep(s, m)
    ensures MutexInv(s) && Enabled(s, m) && EndlessStep(s, m) ==> Stalled(s)
  {
    hide WalkEnds;
  }

  ghost predicate AllInternal(moves: seq<Move>) {
    forall k :: 0 <= k < |moves| ==> moves[k].Internal()
  }

  /** Left to itself with its user, the process makes only finitely many moves, unless it stalls. */
  lemma {:induction false} InternalRunsEnd(c: Crypto, s: System, moves: seq<Move>)
    requires MutexInv(s) && AllInternal(moves) && RunMoves(c, s, moves).Some?
    ensures var end := RunMoves(c, s, moves).value; Stalled(end) || |moves| + Rank(end) <= Rank(s)
    decreases |moves|
  {
    hide Do, Enabled, Rank, Move.Internal, MutexInv, Stalled, EndlessStep;
    if moves != [] {
      var s' := Do(c, s, moves[0]);
      NoEndlessStep(s, moves[0]);
      if Stalled(s) {
        StalledForever(c, s, moves, 0);
      } else {
        MoveDecreasesRank(c, s, moves[0]);
        MoveKeepsMutex(c, s, moves[0]);
        InternalRunsEnd(c, s', moves[1..]);
      }
    }
  }

  /** A stalled process keeps walking: there are runs of every length, all without the outside world. */
  lemma {:induction false} StalledWalksOn(c: Crypto, s: System, n: nat) returns (moves: seq<Move>)
    requires MutexInv(s) && Stalled(s) && !s.main.Crashed?
    decreases n
    ensures |moves| == n && AllInternal(moves) && RunMoves(c, s, moves).Some?
  {
    if n == 0 {
      moves := [];
    } else {
      var m := WalkUp(s.owner.id);
      ZeroEnds(s.parent);
      StallStays(c, s, m);
      MoveKeepsMutex(c, s, m);
      assert Do(c, s, m).main == s.main;
      hide MutexInv, Do, Enabled, Stalled;
      var rest := StalledWalksOn(c, Do(c, s, m), n - 1);
      moves := [m] + rest;
      assert moves[1..] == rest;
    }
  }

  ghost predicate Settled(s: System) {
    forall m: Move :: m.Internal() ==> !Enabled(s, m)
  }

  /** The process, left to itself with its user, can come to rest, or stalls; if all walks end it can rest. */
  lemma CanSettle(c: Crypto, g: Guarded, s: System) returns (moves: seq<Move>)
    requires Inv(c, g, s)
    ensures AllInternal(moves) && RunMoves(c, s, moves).Some?
    ensures Settled(RunMoves(c, s, moves).value) || Stalled(RunMoves(c, s, moves).value)
    ensures WalksEnd(s) ==> Settled(RunMoves(c, s, moves).value)
    decreases Rank(s)
  {
    hide Do, Enabled, Rank, Move.Internal, MutexInv, StreamsInv, KnownIds, PanicInv, QuestionInv, ClicksInv;
    hide Stalled, EndlessStep, WalksEnd;
    if Stalled(s) {
      moves := [];
      StalledIsEndless(c, g, s);
    } else if Settled(s) {
      moves := [];
    } else {
      var m: Move :| m.Internal() && Enabled(s, m);
      NoEndlessStep(s, m);
      MoveDecreasesRank(c, s, m);
      MoveKeepsInv(c, g, s, m);
      if WalksEnd(s) {
        InternalIsNoConnect(m);
        WalksEndStays(c, s, m);
      }
      var rest := CanSettle(c, g, Do(c, s, m));
      moves := [m] + rest;
      assert moves[1..] == rest;
    }
  }

  lemma InternalIsNoConnect(m: Move)
    requires m.Internal()
    ensures !m.Connect?
  {
  }

  // ------------------------------------------------------------ exactly when everything can be finished

  /** Nothing is under way in any thread. */
  ghost predicate Finished(s: System) {
    forall i: nat :: !InFlight(s, i)
  }

  /** Left to itself with its user, the process can finish what is under way. */
  ghost predicate CanFinish(c: Crypto, s: System) {
    exists moves :: AllInternal(moves) && RunMoves(c, s, moves).Some? && Finished(RunMoves(c, s, moves).value)
  }

  /** What to do next to finish: let the main thread reload while the mutex is free, and else what `NextMove` says. */
  function FinishMove(s: System, i: nat): Move
    requires InFlight(s, i)
  {
    if s.main.WantReload? && s.owner.Free? && !s.shared.poisoned then LockToReload else NextMove(s, i)
  }

  lemma FinishStep(c: Crypto, g: Guarded, s: System, i: nat)
    requires Inv(c, g, s) && InFlight(s, i) && !s.main.Crashed? && !Doomed(s)
    ensures var m := FinishMove(s, i);
            && m.Internal() && Enabled(s, m)
            && !Do(c, s, m).main.Crashed? && !Doomed(Do(c, s, m))
  {
    Progress(c, g, s, i);
    if s.main.WantReload? {
      WaitingStep(c, g, s, i);
    } else {
      PumpingStep(c, s, i);
    }
  }

  lemma PumpingStep(c: Crypto, s: System, i: nat)
    requires MutexInv(s) && InFlight(s, i) && !s.main.Crashed? && !s.main.WantReload?
    requires NextMove(s, i).Internal() && Enabled(s, NextMove(s, i))
    ensures Do(c, s, NextMove(s, i)).main.Pumping?
  {
    hide Do, Enabled, InFlight;
    if s.main.Pumping? {
      PumpingMove(c, s, NextMove(s, i));
      hide NextMove;
    } else {
      ReloadedPumps(c, s);
      assert NextMove(s, i) == ReloadKeys;
    }
  }

  lemma ReloadedPumps(c: Crypto, s: System)
    requires Enabled(s, ReloadKeys)
    ensures Do(c, s, ReloadKeys).main.Pumping?
  {
  }

  lemma WaitingStep(c: Crypto, g: Guarded, s: System, i: nat)
    requires Inv(c, g, s) && InFlight(s, i) && s.main.WantReload? && !AwaitsDialog(s)
    requires Enabled(s, NextMove(s, i))
    ensures var m := FinishMove(s, i);
            && m.Internal() && Enabled(s, m)
            && !Do(c, s, m).main.Crashed? && !Doomed(Do(c, s, m))
  {
    hide ReplayInv, StreamsInv, KnownIds, ClicksInv, SplitFrame, KeyToConfirm, Handle, Str, Truncate;
  }

  lemma {:induction false} FinishFrom(c: Crypto, g: Guarded, s: System) returns (moves: seq<Move>)
    requires Inv(c, g, s) && !s.main.Crashed? && !Doomed(s) && WalksEnd(s)
    ensures AllInternal(moves) && RunMoves(c, s, moves).Some? && Finished(RunMoves(c, s, moves).value)
    decreases Rank(s)
  {
    hide Inv, Do, Enabled, Doomed, Rank, InFlight, FinishMove, WalksEnd, EndlessStep;
    if Finished(s) {
      moves := [];
    } else {
      var i: nat :| InFlight(s, i);
      var m := FinishMove(s, i);
      FinishStep(c, g, s, i);
      MoveKeepsInv(c, g, s, m);
      WalksEndStays(c, s, m);
      NotEndlessStep(c, g, s, m);
      MoveDecreasesRank(c, s, m);
      var rest := FinishFrom(c, g, Do(c, s, m));
      moves := [m] + rest;
      assert moves[1..] == rest;
    }
  }

  lemma NotEndlessStep(c: Crypto, g: Guarded, s: System, m: Move)
    requires Inv(c, g, s) && WalksEnd(s) && Enabled(s, m)
    ensures !EndlessStep(s, m)
  {
    hide StreamsInv, KnownIds, PanicInv, QuestionInv, ClicksInv, WalksEnd, Stalled, EndlessStep, Enabled;
    NoEndlessStep(s, m);
    if Stalled(s) {
      StalledIsEndless(c, g, s);
    }
  }

  lemma DoomedUnfinished(s: System)
    requires Doomed(s) || Stalled(s) || exists i: nat :: Endless(s, i)
    ensures !Finished(s)
  {
    if Doomed(s) || Stalled(s) {
      assert InFlight(s, s.owner.id);
    } else {
      var i: nat :| Endless(s, i);
      assert InFlight(s, i);
    }
  }

  /** Some run without the outside world meets a panic. */
  ghost predicate CanPanic(c: Crypto, s: System) {
    exists moves :: AllInternal(moves) && RunMoves(c, s, moves).Some? && RunMoves(c, s, moves).value.shared.poisoned
  }

  lemma FinishAfter(c: Crypto, s: System, m: Move)
    requires m.Internal() && Enabled(s, m) && CanFinish(c, Do(c, s, m))
    ensures CanFinish(c, s)
  {
    hide Do, Enabled, Finished, Move.Internal;
    var rest :| AllInternal(rest) && RunMoves(c, Do(c, s, m), rest).Some?
                && Finished(RunMoves(c, Do(c, s, m), rest).value);
    FirstMove(c, s, m, rest);
    assert AllInternal([m] + rest);
  }

  lemma OnlyPoisonCrashes(c: Crypto, s: System, m: Move)
    requires Enabled(s, m) && !s.shared.poisoned
    ensures !Do(c, s, m).main.Crashed?
  {
    hide SplitFrame, KeyToConfirm, LockedHandle, Str, Truncate, Reloaded;
  }

  /** Once a panic has poisoned the mutex everything can be finished, since no description is started any more. */
  lemma {:induction false} FinishByPanic(c: Crypto, g: Guarded, s: System, moves: seq<Move>)
    requires Inv(c, g, s) && !s.main.Crashed?
    requires AllInternal(moves) && RunMoves(c, s, moves).Some? && RunMoves(c, s, moves).value.shared.poisoned
    ensures CanFinish(c, s)
    decreases |moves|
  {
    if s.shared.poisoned {
      assert !Doomed(s);
      var all := FinishFrom(c, g, s);
    } else {
      hide Inv, Do, Enabled, CanFinish;
      OnlyPoisonCrashes(c, s, moves[0]);
      MoveKeepsInv(c, g, s, moves[0]);
      FinishByPanic(c, g, Do(c, s, moves[0]), moves[1..]);
      FinishAfter(c, s, moves[0]);
    }
  }

  /**
   What is under way can be finished exactly when the state is not doomed, and every description under way or to come
   can end or a panic can come before it.
   */
  lemma CanFinishExactly(c: Crypto, g: Guarded, s: System)
    requires Inv(c, g, s) && !s.main.Crashed?
    ensures CanFinish(c, s) <==> !Doomed(s) && (WalksEnd(s) || CanPanic(c, s))
    ensures Stalled(s) ==> !CanFinish(c, s)
  {
    hide RunMoves, Doomed, Stalled, InFlight, Endless, Finished;
    if CanFinish(c, s) {
      var moves :| AllInternal(moves) && RunMoves(c, s, moves).Some? && Finished(RunMoves(c, s, moves).value);
      FinishedMeans(c, g, s, moves);
    } else if !Doomed(s) && WalksEnd(s) {
      var moves := FinishFrom(c, g, s);
    } else if CanPanic(c, s) {
      var moves :| AllInternal(moves) && RunMoves(c, s, moves).Some? && RunMoves(c, s, moves).value.shared.poisoned;
      FinishByPanic(c, g, s, moves);
    }
  }

  lemma FinishedMeans(c: Crypto, g: Guarded, s: System, moves: seq<Move>)
    requires Inv(c, g, s) && AllInternal(moves) && RunMoves(c, s, moves).Some?
    requires Finished(RunMoves(c, s, moves).value)
    ensures !Doomed(s) && !Stalled(s) && (WalksEnd(s) || CanPanic(c, s))
  {
    var end := RunMoves(c, s, moves).value;
    hide RunMoves, Doomed, Stalled, InFlight, Endless, Finished;
    if Doomed(s) {
      DoomedForever(c, g, s, moves, 0);
      DoomedUnfinished(end);
    }
    if Stalled(s) {
      StalledForever(c, s, moves, 0);
      DoomedUnfinished(end);
    }
    if !WalksEnd(s) {
      var i: nat :| Endless(s, i);
      EndlessForever(c, s, moves, i);
      if Endless(end, i) {
        DoomedUnfinished(end);
      }
    }
  }

  /**
   Exactly when, with "reload" chosen, what is under way can still be finished, if all walks end: when the mutex's
   holder neither waits for an answer nor is about to ask. Otherwise no request is ever served again.
   */
  lemma FinishableAfterReload(c: Crypto, agent: AgentState, parent: Parents, moves: seq<Move>, readable: bool)
    requires RunMoves(c, Initial(agent, parent), moves).Some?
    requires RunMoves(c, Initial(agent, parent), moves).value.main.Pumping?
    ensures var s := RunMoves(c, Initial(agent, parent), moves).value;
            var s' := Do(c, s, ChooseReload(readable));
            CanFinish(c, s') <==> !AwaitsDialog(s) && (WalksEnd(s) || CanPanic(c, s'))
  {
    var g := Guarded(agent, false);
    InitialInv(c, agent, parent);
    ReachableInv(c, g, Initial(agent, parent), moves);
    var s := RunMoves(c, Initial(agent, parent), moves).value;
    MoveKeepsInv(c, g, s, ChooseReload(readable));
    hide Inv, RunMoves, CanFinish, CanPanic;
    CanFinishExactly(c, g, Do(c, s, ChooseReload(readable)));
    SameWalks(s, Do(c, s, ChooseReload(readable)));
  }

  lemma SameWalks(s: System, s': System)
    requires s.conns == s'.conns && s.parent == s'.parent && s.shared == s'.shared
    ensures WalksEnd(s) <==> WalksEnd(s')
  {
    hide WalkEnds;
    assert forall i: nat :: Endless(s, i) <==> Endless(s', i);
  }

  // ------------------------------------------------------------ every request is answered

  /**
   Every request is answered. Take any run in which nobody chooses "reload", and let the agent and its user go on,
   in any order, until nothing can move. Then every connection, open or ended by its client, has had each complete
   request it sent handled, in order, and has been written one reply for each, in that order. The exceptions are those
   whose client could not be written to, and those that met a panic. A panic comes exactly if the requests served bring
   one; if the keys can be listed at first and no client sends anything harmful, none comes.
   */
  lemma EveryRequestAnswered(c: Crypto, agent: AgentState, parent: Parents, before: seq<Move>, after: seq<Move>, i: nat)
    requires NoReloadChosen(before) && AllInternal(after)
    requires RunMoves(c, Initial(agent, parent), before).Some?
    requires var s := RunMoves(c, Initial(agent, parent), before).value;
             RunMoves(c, s, after).Some? && Settled(RunMoves(c, s, after).value)
             && i < |RunMoves(c, s, after).value.conns|
    ensures var s := RunMoves(c, Initial(agent, parent), before).value;
            var end := RunMoves(c, s, after).value;
            var conn := end.conns[i];
            && |after| <= Rank(s)
            && (UpToDate(conn) || conn.pc.Cut() || conn.pc == Ended(ThreadPanicked))
            && (UpToDate(conn) ==>
                && FramesOf(end.log, i) == AllFrames(conn.received)
                && |RepliesOf(end.log, i)| == |AllFrames(conn.received)|
                && conn.output == Concat(RepliesOf(end.log, i)))
            && (conn.pc == Ended(ThreadPanicked) ==> BringPanic(!AllEncodable(agent.keys), ServedFrames(end.log)))
            && (AllEncodable(agent.keys) && HarmlessStreams(end) ==> UpToDate(conn) || conn.pc.Cut())
            && (conn.pc.Cut() <==> CutsIn(before, i) != [] || CutsIn(after, i) != [])
            && (conn.pc.Reading? ==> |conn.input| < 4 || conn.input[..4] != [0, 0, 0, 0])
  {
    var g := Guarded(agent, false);
    InitialInv(c, agent, parent);
    ReachableInv(c, g, Initial(agent, parent), before);
    MainKeepsPumping(c, Initial(agent, parent), before);
    var s := RunMoves(c, Initial(agent, parent), before).value;
    ReachableInv(c, g, s, after);
    MainKeepsPumping(c, s, after);
    InternalRunsEnd(c, s, after);
    var end := RunMoves(c, s, after).value;
    hide RunMoves, Inv, Rank, Settled, QuietLog, BringPanic, AllEncodable, HarmlessStreams, UpToDate;
    SettledIsNotStalled(end);
    SettledAtRest(c, g, end, i);
    EndNoticed(end, i);
    StreamsAfter(c, Initial(agent, parent), before, i);
    StreamsAfter(c, s, after, i);
    assert Cuts(Initial(agent, parent), i) == [];
    assert Cuts(end, i) == CutAt(end.conns[i].pc);
    hide Stalled, InFlight, Cuts, CutsIn;
    RestingView(c, g, end, i);
    RestingPanic(c, g, end, i);
    hide FramesOf, RepliesOf, ServedFrames, AllFrames, Concat;
  }

  /** A zero length does not go unnoticed. */
  lemma EndNoticed(s: System, i: nat)
    requires Settled(s) && s.main.Pumping? && i < |s.conns|
    ensures s.conns[i].pc.Reading? ==> |s.conns[i].input| < 4 || s.conns[i].input[..4] != [0, 0, 0, 0]
  {
    var m := EndOfStream(i);
    assert m.Internal();
    assert !Enabled(s, m);
    hide Settled, Move.Internal;
  }

  /** Nothing harmful in what any client has sent. */
  predicate HarmlessStreams(s: System) {
    forall i :: 0 <= i < |s.conns| ==> Harmless(AllFrames(s.conns[i].received))
  }

  lemma RestingPanic(c: Crypto, g: Guarded, s: System, i: nat)
    requires Inv(c, g, s) && i < |s.conns| && QuietLog(s.log) && !g.poisoned
    ensures s.conns[i].pc == Ended(ThreadPanicked) ==> BringPanic(!AllEncodable(g.agent.keys), ServedFrames(s.log))
    ensures AllEncodable(g.agent.keys) && HarmlessStreams(s) ==> s.conns[i].pc != Ended(ThreadPanicked)
  {
    PanickedExactly(c, g, s.log);
    if AllEncodable(g.agent.keys) && HarmlessStreams(s) {
      HarmlessClients(c, g, s);
    }
    hide MutexInv, StreamsInv, KnownIds, QuestionInv, ClicksInv, BringPanic, AllEncodable, HarmlessStreams, LogTells;
    hide Replay, Faithful, QuietLog;
  }

  lemma StalledMoves(s: System)
    requires Stalled(s) && !s.main.Crashed?
    ensures WalkUp(s.owner.id).Internal() && Enabled(s, WalkUp(s.owner.id))
  {
    ZeroEnds(s.parent);
    hide WalkEnds;
  }

  lemma SettledIsNotStalled(s: System)
    requires Settled(s) && s.main.Pumping?
    ensures !Stalled(s)
  {
    if Stalled(s) {
      StalledMoves(s);
    }
    hide Enabled, Move.Internal;
  }

  lemma SettledAtRest(c: Crypto, g: Guarded, s: System, i: nat)
    requires Inv(c, g, s) && Settled(s) && s.main.Pumping?
    ensures !InFlight(s, i)
  {
    if InFlight(s, i) {
      Progress(c, g, s, i);
    }
    hide Inv, InFlight, NextMove, Enabled, Move.Internal;
  }

  lemma RestingView(c: Crypto, g: Guarded, s: System, i: nat)
    requires Inv(c, g, s) && i < |s.conns| && !InFlight(s, i)
    ensures var conn := s.conns[i];
            && (UpToDate(conn) || conn.pc.Cut() || conn.pc == Ended(ThreadPanicked))
            && (UpToDate(conn) ==>
                && FramesOf(s.log, i) == AllFrames(conn.received)
                && |RepliesOf(s.log, i)| == |AllFrames(conn.received)|
                && conn.output == Concat(RepliesOf(s.log, i)))
            && (conn.pc == Ended(ThreadPanicked) ==> s.shared.poisoned)
  {
    hide MutexInv, ReplayInv, QuestionInv, ClicksInv, KnownIds, FramesOf, RepliesOf, Concat, SplitFrame, AllFrames;
    hide ConnInv;
    ConnectionView(s.log, i, s.conns[i]);
    var pc := s.conns[i].pc;
    assert pc.Ended? ==> pc.how == StreamEnded || pc.how == ThreadPanicked || pc.how.WriteBroken?;
  }
}
