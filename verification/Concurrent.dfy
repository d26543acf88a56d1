/**
 The whole running agent as a step relation: any number of connection threads, the listeners that
 describe their peers, and the main thread with its message queue, dialogs and reload menu, all
 sharing one mutex (src/utils.rs, src/platform/win/pipe.rs, confirmation.rs, mod.rs, taskbar.rs).
 */
module Concurrent {
  import opened Wrappers
  import opened Wire
  import opened Keys
  import opened Config
  import opened Agent
  import opened AgentRuns
  import opened Frames
  import opened Connection
  import opened Requester

  // ------------------------------------------------------------ states

  /** Why a thread left its loop: end of its stream or a zero length; a panic; or part of a reply went unwritten. */
  datatype Ending = StreamEnded | ThreadPanicked | WriteBroken(sent: nat)

  /** The parent of each process, 0 if it has none. */
  type Parents = Pid -> Pid

  /**
   Where a connection thread stands. The mutex is held while Describing, Locked, Asking and Replied.
   Describing is the walk up the ancestors of the peer, of which `pid` is the next.
   */
  datatype Pc =
    | Introducing(peer: Pid)
    | Describing(pid: Pid)
    | Reading
    | Wanting(frame: Bytes)
    | Locked(frame: Bytes)
    | Asking(frame: Bytes)
    | Replied(reply: Bytes)
    | Writing(reply: Bytes)
    | Ended(how: Ending)
  {
    predicate Holds() {
      Describing? || Locked? || Asking? || Replied?
    }

    /** The request read from the stream but not yet handled. */
    function InHand(): Option<Bytes> {
      match this
      case Wanting(frame) => Some(frame)
      case Locked(frame) => Some(frame)
      case Asking(frame) => Some(frame)
      case _ => None
    }

    /** The same, as it stood in the stream. */
    function Unhandled(): Bytes {
      if InHand().Some? then Str(InHand().value) else []
    }

    /** The reply computed but not yet written. */
    function Due(): Option<Bytes> {
      match this
      case Replied(reply) => Some(reply)
      case Writing(reply) => Some(reply)
      case _ => None
    }

    /** The same, as it will stand in the stream. */
    function Unwritten(): Bytes {
      if Due().Some? then Str(Due().value) else []
    }

    /** The thread ended because a write failed. */
    predicate Cut() {
      Ended? && how.WriteBroken?
    }
  }

  /** `received` is everything the client ever sent; `input` is the part not yet read; `output` is what was written. */
  datatype Conn = Conn(pc: Pc, received: Bytes, input: Bytes, output: Bytes)

  datatype MainPc = Pumping | WantReload(readable: bool) | Reloading(readable: bool) | Crashed

  datatype Owner = Free | Thread(id: nat) | MainThread

  /** One atomic change of the shared state, in the order the mutex imposed. */
  datatype LogEntry =
    | Served(id: nat, frame: Bytes, env: Env, reply: Option<Bytes>)
    | ReloadedFile(readable: bool)
    | EditedFile(file: StoredFile)

  /** What a posted message carries: who asks, and the key it is about. */
  datatype Confirmation = Confirmation(id: nat, key: KeyPair)

  /** One click of the user on a confirmation dialog: whose, for which key, and OK or Cancel. */
  datatype Answered = Answered(id: nat, key: KeyPair, answer: bool)

  datatype System = System(
    shared: Guarded,
    owner: Owner,
    conns: seq<Conn>,
    main: MainPc,
    queue: seq<Confirmation>,
    dialogs: set<Confirmation>,
    channels: map<nat, bool>,
    log: seq<LogEntry>,
    clicks: seq<Answered>,
    parent: Parents
  )

  function Initial(agent: AgentState, parent: Parents): System {
    System(Guarded(agent, false), Free, [], Pumping, [], {}, map[], [], [], parent)
  }

  // ------------------------------------------------------------ steps

  datatype Move =
    // the world outside the process
    | Connect(peer: Option<Pid>)
    | Arrive(id: nat, bytes: Bytes)
    | HangUp(id: nat)
    | ChooseReload(readable: bool)
    | EditFile(file: StoredFile)
    // connection threads
    | LockToDescribe(id: nat)
    | WalkUp(id: nat)
    | Describe(id: nat)
    | ReadRequest(id: nat)
    | EndOfStream(id: nat)
    | Lock(id: nat)
    | HandleRequest(id: nat, save: SaveOutcome)
    | Post(id: nat)
    | Receive(id: nat)
    | Unlock(id: nat)
    | Write(id: nat, outcome: WriteOutcome)
    // the main thread and its user
    | ShowDialog
    | Click(dialog: Confirmation, ok: bool)
    | LockToReload
    | ReloadKeys
  {
    /** The process and its user act on their own; only the first five moves need the outside world. */
    predicate Internal() {
      !Connect? && !Arrive? && !HangUp? && !ChooseReload? && !EditFile?
    }
  }

  predicate At(s: System, i: nat, pc: Pc) {
    i < |s.conns| && s.conns[i].pc == pc
  }

  function Asked(s: System, frame: Bytes): Option<nat> {
    KeyToConfirm(s.shared.agent.keys, frame)
  }

  predicate Enabled(s: System, m: Move) {
    !s.main.Crashed? &&
    match m
    case Connect(_) => true
    case Arrive(i, _) => i < |s.conns| && !s.conns[i].pc.Ended?
    case HangUp(i) => At(s, i, Reading) && SplitFrame(s.conns[i].input).None?
    case ChooseReload(_) => s.main.Pumping?
    case EditFile(_) => true
    case LockToDescribe(i) => i < |s.conns| && s.conns[i].pc.Introducing? && s.owner.Free?
    case WalkUp(i) => i < |s.conns| && s.conns[i].pc.Describing? && s.conns[i].pc.pid != 0
    case Describe(i) => At(s, i, Describing(0))
    case ReadRequest(i) => At(s, i, Reading) && SplitFrame(s.conns[i].input).Some?
    case EndOfStream(i) => At(s, i, Reading) && |s.conns[i].input| >= 4 && s.conns[i].input[..4] == [0, 0, 0, 0]
    case Lock(i) => i < |s.conns| && s.conns[i].pc.Wanting? && s.owner.Free?
    case HandleRequest(i, _) => i < |s.conns| && s.conns[i].pc.Locked? && Asked(s, s.conns[i].pc.frame).None?
    case Post(i) => i < |s.conns| && s.conns[i].pc.Locked? && Asked(s, s.conns[i].pc.frame).Some?
    case Receive(i) => i < |s.conns| && s.conns[i].pc.Asking? && i in s.channels
    case Unlock(i) => i < |s.conns| && s.conns[i].pc.Replied?
    case Write(i, _) => i < |s.conns| && s.conns[i].pc.Writing?
    case ShowDialog => s.main.Pumping? && s.queue != []
    case Click(dialog, _) => s.main.Pumping? && dialog in s.dialogs
    case LockToReload => s.main.WantReload? && s.owner.Free?
    case ReloadKeys => s.main.Reloading?
  }

  function SetPc(s: System, i: nat, pc: Pc): System
    requires i < |s.conns|
  {
    s.(conns := s.conns[i := s.conns[i].(pc := pc)])
  }

  /**
   The request of thread `i` is handled, with the mutex held throughout. A panic poisons and frees the
   mutex and ends the thread; a thread that finds the mutex poisoned panics as well.
   */
  function ServeRequest(c: Crypto, s: System, i: nat, frame: Bytes, env: Env): System
    requires i < |s.conns|
  {
    var (reply, shared) := LockedHandle(c, s.shared, frame, env);
    var s' := s.(shared := shared, log := s.log + [LogEntry.Served(i, frame, env, reply)]);
    match reply
    case Some(resp) => SetPc(s', i, Replied(resp))
    case None => SetPc(s'.(owner := Free), i, Ended(ThreadPanicked))
  }

  const NO_ANSWER: Env := Env(false, Saved)

  function Do(c: Crypto, s: System, m: Move): System
    requires Enabled(s, m)
  {
    match m
    case Connect(peer) =>
      s.(conns := s.conns + [Conn(if peer.Some? then Introducing(peer.value) else Reading, [], [], [])])
    case Arrive(i, bytes) =>
      var conn := s.conns[i];
      s.(conns := s.conns[i := conn.(received := conn.received + bytes, input := conn.input + bytes)])
    case HangUp(i) => SetPc(s, i, Ended(StreamEnded))
    case ChooseReload(readable) => s.(main := WantReload(readable))
    case EditFile(file) =>
      s.(shared := s.shared.(agent := s.shared.agent.(file := file)), log := s.log + [EditedFile(file)])
    case LockToDescribe(i) =>
      if s.shared.poisoned then SetPc(s, i, Ended(ThreadPanicked))
      else SetPc(s.(owner := Thread(i)), i, Describing(s.conns[i].pc.peer))
    case WalkUp(i) => SetPc(s, i, Describing(s.parent(s.conns[i].pc.pid)))
    case Describe(i) => SetPc(s.(owner := Free), i, Reading)
    case ReadRequest(i) =>
      var (frame, rest) := SplitFrame(s.conns[i].input).value;
      s.(conns := s.conns[i := s.conns[i].(pc := Wanting(frame), input := rest)])
    case EndOfStream(i) => SetPc(s, i, Ended(StreamEnded))
    case Lock(i) =>
      if s.shared.poisoned then ServeRequest(c, s, i, s.conns[i].pc.frame, NO_ANSWER)
      else SetPc(s.(owner := Thread(i)), i, Locked(s.conns[i].pc.frame))
    case HandleRequest(i, save) => ServeRequest(c, s, i, s.conns[i].pc.frame, Env(false, save))
    case Post(i) =>
      var frame := s.conns[i].pc.frame;
      var key := s.shared.agent.keys[Asked(s, frame).value];
      SetPc(s.(queue := s.queue + [Confirmation(i, key)]), i, Asking(frame))
    case Receive(i) =>
      ServeRequest(c, s.(channels := s.channels - {i}), i, s.conns[i].pc.frame, Env(s.channels[i], Saved))
    case Unlock(i) => SetPc(s.(owner := Free), i, Writing(s.conns[i].pc.reply))
    case Write(i, outcome) =>
      var conn := s.conns[i];
      var framed := Str(conn.pc.reply);
      var conn' := match outcome
        case Written => conn.(pc := Reading, output := conn.output + framed)
        case WriteFails(sent) => conn.(pc := Ended(WriteBroken(sent)), output := conn.output + Truncate(framed, sent));
      s.(conns := s.conns[i := conn'])
    case ShowDialog => s.(queue := s.queue[1..], dialogs := s.dialogs + {s.queue[0]})
    case Click(dialog, ok) =>
      s.(dialogs := s.dialogs - {dialog}, channels := s.channels[dialog.id := ok],
         clicks := s.clicks + [Answered(dialog.id, dialog.key, ok)])
    case LockToReload =>
      if s.shared.poisoned then s.(main := Crashed) else s.(owner := MainThread, main := Reloading(s.main.readable))
    case ReloadKeys =>
      s.(shared := s.shared.(agent := Reloaded(c, s.shared.agent, s.main.readable)),
         owner := Free, main := Pumping, log := s.log + [ReloadedFile(s.main.readable)])
  }

  // ------------------------------------------------------------ runs

  /** The state after the moves, if every one of them is enabled when its turn comes. */
  function RunMoves(c: Crypto, s: System, moves: seq<Move>): Option<System>
    decreases |moves|
  {
    if moves == [] then Some(s)
    else if Enabled(s, moves[0]) then RunMoves(c, Do(c, s, moves[0]), moves[1..])
    else None
  }

  lemma FirstMove(c: Crypto, s: System, m: Move, rest: seq<Move>)
    requires Enabled(s, m)
    ensures RunMoves(c, s, [m] + rest) == RunMoves(c, Do(c, s, m), rest)
  {
    hide Do, Enabled;
    assert ([m] + rest)[1..] == rest;
  }

  // ------------------------------------------------------------ the sequential agent

  function ApplyEntry(c: Crypto, g: Guarded, e: LogEntry): Guarded {
    match e
    case Served(_, frame, env, _) => LockedHandle(c, g, frame, env).1
    case ReloadedFile(readable) => g.(agent := Reloaded(c, g.agent, readable))
    case EditedFile(file) => g.(agent := g.agent.(file := file))
  }

  /** One agent, run by one thread, doing what the log says in the log's order. */
  function Replay(c: Crypto, g: Guarded, log: seq<LogEntry>): Guarded {
    if log == [] then g else ApplyEntry(c, Replay(c, g, log[..|log| - 1]), log[|log| - 1])
  }

  /** Every logged reply is the one the sequential agent gives. */
  predicate Faithful(c: Crypto, g: Guarded, log: seq<LogEntry>) {
    log == [] ||
    (var init, last := log[..|log| - 1], log[|log| - 1];
     && Faithful(c, g, init)
     && (last.Served? ==> last.reply == LockedHandle(c, Replay(c, g, init), last.frame, last.env).0))
  }

  function FramesOf(log: seq<LogEntry>, id: nat): seq<Bytes> {
    if log == [] then []
    else
      var last := log[|log| - 1];
      FramesOf(log[..|log| - 1], id) + (if last.Served? && last.id == id then [last.frame] else [])
  }

  function RepliesOf(log: seq<LogEntry>, id: nat): seq<Bytes> {
    if log == [] then []
    else
      var last := log[|log| - 1];
      RepliesOf(log[..|log| - 1], id) +
        (if last.Served? && last.id == id && last.reply.Some? then [last.reply.value] else [])
  }

  /** The questions the sequential agent asks on the way, with the answers it is given. */
  function QuestionsOf(c: Crypto, g: Guarded, log: seq<LogEntry>): seq<Answered> {
    if log == [] then []
    else
      var init, last := log[..|log| - 1], log[|log| - 1];
      QuestionsOf(c, g, init) + Question(Replay(c, g, init), last)
  }

  function Question(g: Guarded, e: LogEntry): seq<Answered> {
    if e.Served? && !g.poisoned && KeyToConfirm(g.agent.keys, e.frame).Some? then
      [Answered(e.id, g.agent.keys[KeyToConfirm(g.agent.keys, e.frame).value], e.env.answer)]
    else []
  }

  lemma Appended(c: Crypto, g: Guarded, log: seq<LogEntry>, e: LogEntry)
    ensures (log + [e])[..|log|] == log
    ensures Replay(c, g, log + [e]) == ApplyEntry(c, Replay(c, g, log), e)
    ensures Faithful(c, g, log + [e]) <==>
            Faithful(c, g, log) && (e.Served? ==> e.reply == LockedHandle(c, Replay(c, g, log), e.frame, e.env).0)
    ensures QuestionsOf(c, g, log + [e]) == QuestionsOf(c, g, log) + Question(Replay(c, g, log), e)
    ensures forall id :: FramesOf(log + [e], id) ==
                         FramesOf(log, id) + (if e.Served? && e.id == id then [e.frame] else [])
    ensures forall id :: RepliesOf(log + [e], id) ==
                         RepliesOf(log, id) + (if e.Served? && e.id == id && e.reply.Some? then [e.reply.value] else [])
  {
    hide LockedHandle, ApplyEntry, Question;
    assert (log + [e])[..|log|] == log;
  }
}
