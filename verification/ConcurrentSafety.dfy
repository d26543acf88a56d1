/** What holds in every reachable state of the running agent, and what it means for clients and the user. */
module ConcurrentSafety {
  import opened Wrappers
  import opened Wire
  import opened Keys
  import opened Agent
  import opened AgentRuns
  import opened Frames
  import opened Connection
  import opened Concurrent
  import opened Sequences

  // ------------------------------------------------------------ the invariants

  /** The mutex: held by exactly the threads whose program counter says so, hence by at most one. */
  predicate MutexInv(s: System) {
    && (forall i :: 0 <= i < |s.conns| ==> (s.conns[i].pc.Holds() <==> s.owner == Thread(i)))
    && (s.owner.Thread? ==> s.owner.id < |s.conns|)
    && (s.main.Reloading? <==> s.owner == MainThread)
  }

  /** The shared state is that of one sequential agent doing what the log says, in the log's order. */
  predicate ReplayInv(c: Crypto, g: Guarded, s: System) {
    && s.shared == Replay(c, g, s.log)
    && Faithful(c, g, s.log)
    && (s.shared.poisoned ==> !s.owner.Thread? && s.owner != MainThread)
  }

  /** One connection's streams against the log: its requests in order, its replies in order, nothing in between lost. */
  predicate ConnInv(log: seq<LogEntry>, i: nat, conn: Conn) {
    ConnOk(FramesOf(log, i), RepliesOf(log, i), conn)
  }

  predicate ConnOk(frames: seq<Bytes>, replies: seq<Bytes>, conn: Conn) {
    && ValidBodies(frames)
    && (conn.pc.InHand().Some? ==> 0 < |conn.pc.InHand().value| < U32_LIMIT)
    && conn.received == Concat(frames) + conn.pc.Unhandled() + conn.input
    && |replies| <= |frames|
    && (conn.pc != Ended(ThreadPanicked) ==> |replies| == |frames|)
    && (!conn.pc.Cut() ==> Concat(replies) == conn.output + conn.pc.Unwritten())
    && (conn.pc.Cut() ==> replies != [] && conn.output == Delivery(replies, conn.pc.how.sent))
    && (conn.pc.Due().Some? ==> replies != [] && replies[|replies| - 1] == conn.pc.Due().value)
    && (conn.pc == Ended(StreamEnded) ==> SplitFrame(conn.input).None?)
  }

  predicate StreamsInv(s: System) {
    forall i :: 0 <= i < |s.conns| ==> ConnInv(s.log, i, s.conns[i])
  }

  /** Threads that do not exist have not been served. */
  predicate KnownIds(s: System) {
    forall k :: 0 <= k < |s.log| && s.log[k].Served? ==> s.log[k].id < |s.conns|
  }

  /** A panic leaves the mutex poisoned. */
  predicate PanicInv(s: System) {
    forall i :: 0 <= i < |s.conns| && s.conns[i].pc == Ended(ThreadPanicked) ==> s.shared.poisoned
  }

  /** The one question that may be open, if the thread holding the mutex is asking. */
  function OpenQuestion(s: System): Option<Confirmation> {
    if s.owner.Thread? && s.owner.id < |s.conns| && s.conns[s.owner.id].pc.Asking? then
      match Asked(s, s.conns[s.owner.id].pc.frame)
      case None => None
      case Some(k) => Some(Confirmation(s.owner.id, s.shared.agent.keys[k]))
    else None
  }

  /**
   At most one confirmation exists anywhere: a posted message, or an open dialog, or an answer on its way.
   It exists exactly while some thread is asking; that thread holds the mutex, and the question is about the
   key its request will be signed with.
   */
  predicate QuestionInv(s: System) {
    && (forall i :: 0 <= i < |s.conns| && s.conns[i].pc.Asking? ==> s.owner == Thread(i) && OpenQuestion(s).Some?)
    && match OpenQuestion(s)
       case None => s.queue == [] && s.dialogs == {} && s.channels == map[]
       case Some(ask) =>
         || (s.queue == [ask] && s.dialogs == {} && s.channels == map[])
         || (s.queue == [] && s.dialogs == {ask} && s.channels == map[])
         || (s.queue == [] && s.dialogs == {} && s.channels.Keys == {ask.id})
  }

  /** The answer on its way to the thread that asked, if any. */
  function PendingClick(s: System): seq<Answered> {
    match OpenQuestion(s)
    case None => []
    case Some(ask) => if ask.id in s.channels then [Answered(ask.id, ask.key, s.channels[ask.id])] else []
  }

  /** The clicks are, one for one and in order, the answers the sequential agent was given, and one still on its way. */
  predicate ClicksInv(c: Crypto, g: Guarded, s: System) {
    s.clicks == QuestionsOf(c, g, s.log) + PendingClick(s)
  }

  predicate Inv(c: Crypto, g: Guarded, s: System) {
    && MutexInv(s) && ReplayInv(c, g, s) && StreamsInv(s) && KnownIds(s) && PanicInv(s)
    && QuestionInv(s) && ClicksInv(c, g, s)
  }

  lemma InitialInv(c: Crypto, agent: AgentState, parent: Parents)
    ensures Inv(c, Guarded(agent, false), Initial(agent, parent))
  {
  }

  // ------------------------------------------------------------ each move keeps them

  /** The moves that may handle a request. */
  predicate MayServe(m: Move) {
    m.Lock? || m.HandleRequest? || m.Receive?
  }

  lemma ServingKeepsMutex(c: Crypto, s: System, m: Move)
    requires MutexInv(s) && Enabled(s, m) && MayServe(m)
    ensures MutexInv(Do(c, s, m))
  {
    hide Handle, SplitFrame, KeyToConfirm, Str, Truncate, Reloaded;
  }

  lemma QuietKeepsMutex(c: Crypto, s: System, m: Move)
    requires MutexInv(s) && Enabled(s, m) && !MayServe(m)
    ensures MutexInv(Do(c, s, m))
  {
    hide ServeRequest, SplitFrame, KeyToConfirm, Str, Truncate, Reloaded;
  }

  lemma MoveKeepsMutex(c: Crypto, s: System, m: Move)
    requires MutexInv(s) && Enabled(s, m)
    ensures MutexInv(Do(c, s, m))
  {
    hide Do, MutexInv, Enabled;
    if MayServe(m) {
      ServingKeepsMutex(c, s, m);
    } else {
      QuietKeepsMutex(c, s, m);
    }
  }

  /** What the move does to the shared state is what its log entry, if it makes one, does to the sequential agent. */
  lemma MoveIsLogged(c: Crypto, s: System, m: Move)
    requires MutexInv(s) && Enabled(s, m)
    requires s.shared.poisoned ==> !s.owner.Thread? && s.owner != MainThread
    ensures var s' := Do(c, s, m);
            && (s'.log == s.log || (|s'.log| == |s.log| + 1 && s'.log == s.log + [s'.log[|s.log|]]))
            && (s'.log == s.log ==> s'.shared == s.shared)
            && (s'.log != s.log ==>
                && s'.shared == ApplyEntry(c, s.shared, s'.log[|s.log|])
                && (s'.log[|s.log|].Served? ==>
                    s'.log[|s.log|].reply == LockedHandle(c, s.shared, s'.log[|s.log|].frame, s'.log[|s.log|].env).0))
            && (s'.shared.poisoned ==> !s'.owner.Thread? && s'.owner != MainThread)
  {
    hide SplitFrame, KeyToConfirm, Str, Truncate, Reloaded, Handle;
  }

  lemma MoveKeepsReplay(c: Crypto, g: Guarded, s: System, m: Move)
    requires MutexInv(s) && ReplayInv(c, g, s) && Enabled(s, m)
    ensures ReplayInv(c, g, Do(c, s, m))
  {
    MoveIsLogged(c, s, m);
    var s' := Do(c, s, m);
    hide Do, Enabled, MutexInv, ApplyEntry, LockedHandle;
    if s'.log != s.log {
      Appended(c, g, s.log, s'.log[|s.log|]);
    }
    hide Replay, Faithful, FramesOf, RepliesOf, QuestionsOf;
  }

  lemma MoveKeepsIds(c: Crypto, s: System, m: Move)
    requires KnownIds(s) && Enabled(s, m)
    ensures KnownIds(Do(c, s, m))
  {
    hide LockedHandle, SplitFrame, KeyToConfirm, Str, Truncate, Reloaded;
  }

  lemma MoveKeepsPanics(c: Crypto, s: System, m: Move)
    requires PanicInv(s) && Enabled(s, m)
    ensures PanicInv(Do(c, s, m))
  {
    hide Handle, SplitFrame, KeyToConfirm, Str, Truncate, Reloaded;
  }

  lemma {:induction false} UnknownHasNothing(log: seq<LogEntry>, i: nat)
    requires forall k :: 0 <= k < |log| && log[k].Served? ==> log[k].id != i
    ensures FramesOf(log, i) == [] && RepliesOf(log, i) == []
  {
    if log != [] {
      UnknownHasNothing(log[..|log| - 1], i);
    }
  }

  lemma OtherEntry(c: Crypto, g: Guarded, log: seq<LogEntry>, e: LogEntry, i: nat, conn: Conn)
    requires ConnInv(log, i, conn) && (e.Served? ==> e.id != i)
    ensures ConnInv(log + [e], i, conn)
  {
    Appended(c, g, log, e);
    hide FramesOf, RepliesOf, Concat, ValidBodies, Pc.Unhandled, Pc.Unwritten;
    assert FramesOf(log, i) + [] == FramesOf(log, i) && RepliesOf(log, i) + [] == RepliesOf(log, i);
  }

  lemma HandledAnswered(frames: seq<Bytes>, replies: seq<Bytes>, conn: Conn, body: Bytes, resp: Bytes)
    requires ConnOk(frames, replies, conn) && conn.pc.InHand() == Some(body)
    ensures ConnOk(frames + [body], replies + [resp], conn.(pc := Replied(resp)))
  {
    hide Concat, Str;
    ConcatOne(frames, body);
    ConcatOne(replies, resp);
    assert conn.output + [] == conn.output;
    assert Concat(frames) + Str(body) + conn.input == Concat(frames + [body]) + [] + conn.input;
  }

  lemma HandledPanicked(frames: seq<Bytes>, replies: seq<Bytes>, conn: Conn, body: Bytes)
    requires ConnOk(frames, replies, conn) && conn.pc.InHand() == Some(body)
    ensures ConnOk(frames + [body], replies, conn.(pc := Ended(ThreadPanicked)))
  {
    hide Concat, Str;
    ConcatOne(frames, body);
    assert conn.output + [] == conn.output;
    assert Concat(frames) + Str(body) + conn.input == Concat(frames + [body]) + [] + conn.input;
  }

  /** Handling a request moves its frame into the log, and its reply to the unwritten part. */
  lemma HandledConn(c: Crypto, g: Guarded, log: seq<LogEntry>, i: nat, conn: Conn, body: Bytes, env: Env,
                    reply: Option<Bytes>)
    requires ConnInv(log, i, conn) && conn.pc.InHand() == Some(body)
    ensures var e := LogEntry.Served(i, body, env, reply);
            match reply
            case Some(resp) => ConnInv(log + [e], i, conn.(pc := Replied(resp)))
            case None => ConnInv(log + [e], i, conn.(pc := Ended(ThreadPanicked)))
  {
    hide ConnOk;
    var e := LogEntry.Served(i, body, env, reply);
    Appended(c, g, log, e);
    var frames, replies := FramesOf(log, i), RepliesOf(log, i);
    match reply
    case Some(resp) =>
      HandledAnswered(frames, replies, conn, body, resp);
    case None =>
      HandledPanicked(frames, replies, conn, body);
      assert replies + [] == replies;
  }

  /**
   How one thread's own moves treat its streams: `more` arrives from the client, bytes pass from unread to
   read and from unwritten to written, and none is lost before the thread ends.
   */
  predicate Passes(conn: Conn, conn': Conn, more: Bytes) {
    && !conn.pc.Ended?
    && (conn'.pc.InHand().Some? ==> 0 < |conn'.pc.InHand().value| < U32_LIMIT)
    && conn'.received == conn.received + more
    && conn'.pc.Unhandled() + conn'.input == conn.pc.Unhandled() + (conn.input + more)
    && (!conn'.pc.Cut() ==>
        conn'.output + conn'.pc.Unwritten() == conn.output + conn.pc.Unwritten())
    && (conn'.pc.Cut() ==>
        && conn.pc.Due().Some?
        && conn'.output == conn.output + Truncate(Str(conn.pc.Due().value), conn'.pc.how.sent))
    && (conn'.pc.Due().Some? ==> conn'.pc.Due() == conn.pc.Due())
    && (conn'.pc == Ended(StreamEnded) ==> SplitFrame(conn'.input).None?)
  }

  lemma PassesKeeps(log: seq<LogEntry>, i: nat, conn: Conn, conn': Conn, more: Bytes)
    requires ConnInv(log, i, conn) && Passes(conn, conn', more)
    ensures ConnInv(log, i, conn')
  {
    hide FramesOf, RepliesOf, Concat, ValidBodies, Delivery, Str, Pc.Unhandled, Pc.InHand, SplitFrame, Truncate;
    var past := Concat(FramesOf(log, i));
    Assoc(past, conn'.pc.Unhandled(), conn'.input);
    Assoc(past, conn.pc.Unhandled(), conn.input + more);
    Assoc(past + conn.pc.Unhandled(), conn.input, more);
    if conn'.pc.Cut() {
      CutDelivery(RepliesOf(log, i), conn.output, conn'.pc.how.sent);
    }
  }

  /** Part of the last reply, after all of the others. */
  lemma CutDelivery(replies: seq<Bytes>, output: Bytes, sent: nat)
    requires replies != [] && Concat(replies) == output + Str(replies[|replies| - 1])
    ensures Delivery(replies, sent) == output + Truncate(Str(replies[|replies| - 1]), sent)
  {
    var init, last := replies[..|replies| - 1], replies[|replies| - 1];
    hide *;
    SnocParts(replies);
    ConcatOne(init, last);
    SameFront(output, Concat(init), Str(last));
    DeliveryParts(replies, sent);
  }

  lemma ArrivePasses(conn: Conn, bytes: Bytes)
    requires !conn.pc.Ended? && (conn.pc.InHand().Some? ==> 0 < |conn.pc.InHand().value| < U32_LIMIT)
    ensures Passes(conn, conn.(received := conn.received + bytes, input := conn.input + bytes), bytes)
  {
    hide Str;
  }

  lemma ReadPasses(conn: Conn)
    requires conn.pc.Reading? && SplitFrame(conn.input).Some?
    ensures var (frame, rest) := SplitFrame(conn.input).value;
            Passes(conn, conn.(pc := Wanting(frame), input := rest), [])
  {
    FramedSplit(conn.input);
    hide SplitFrame, Str;
    assert conn.received + [] == conn.received && [] + (conn.input + []) == conn.input;
  }

  lemma WritePasses(conn: Conn, sent: nat)
    requires conn.pc.Writing?
    ensures Passes(conn, conn.(pc := Reading, output := conn.output + Str(conn.pc.reply)), [])
    ensures Passes(conn, conn.(pc := Ended(WriteBroken(sent)),
                               output := conn.output + Truncate(Str(conn.pc.reply), sent)), [])
  {
    hide Str;
    assert conn.received + [] == conn.received && conn.input + [] == conn.input;
    var output := conn.output + Str(conn.pc.reply);
    assert output + [] == output;
  }

  /** A thread that only moves on, with the same request in hand and the same reply to write. */
  lemma PcPasses(conn: Conn, pc: Pc)
    requires !conn.pc.Ended? && pc.InHand() == conn.pc.InHand()
    requires conn.pc.InHand().Some? ==> 0 < |conn.pc.InHand().value| < U32_LIMIT
    requires pc.Due() == conn.pc.Due() && !pc.Cut()
    requires pc == Ended(StreamEnded) ==> SplitFrame(conn.input).None?
    ensures Passes(conn, conn.(pc := pc), [])
  {
    hide Str, SplitFrame;
    assert conn.received + [] == conn.received && conn.input + [] == conn.input;
  }

  lemma ShortInHand(log: seq<LogEntry>, i: nat, conn: Conn)
    requires ConnInv(log, i, conn) && conn.pc.InHand().Some?
    ensures 0 < |conn.pc.InHand().value| < U32_LIMIT
  {
  }

  /** A handled request is always logged, so a move that logs nothing has not called `ServeRequest`. */
  lemma ServesLogs(c: Crypto, s: System, m: Move)
    requires Enabled(s, m) && |Do(c, s, m).log| == |s.log|
    ensures !m.HandleRequest? && !m.Receive? && !(m.Lock? && s.shared.poisoned)
  {
    hide Handle, KeyToConfirm, Reloaded, Str, Truncate, SplitFrame;
  }

  /** The moves by which bytes come and go. */
  predicate Transfers(m: Move) {
    m.Arrive? || m.ReadRequest? || m.Write?
  }

  lemma TransferPasses(c: Crypto, s: System, m: Move, i: nat)
    requires Enabled(s, m) && i < |s.conns| && |Do(c, s, m).log| == |s.log|
    requires s.conns[i].pc.InHand().Some? ==> 0 < |s.conns[i].pc.InHand().value| < U32_LIMIT
    requires Transfers(m)
    ensures var conn, conn' := s.conns[i], Do(c, s, m).conns[i];
            conn' == conn || Passes(conn, conn', if m.Arrive? then m.bytes else [])
  {
    hide KeyToConfirm, Str, Passes, Truncate, SplitFrame;
    var conn, conn' := s.conns[i], Do(c, s, m).conns[i];
    if conn' != conn {
      match m {
        case Arrive(_, bytes) => ArrivePasses(conn, bytes);
        case ReadRequest(_) => ReadPasses(conn);
        case Write(_, outcome) => WritePasses(conn, if outcome.WriteFails? then outcome.sent else 0);
      }
    }
  }

  lemma StandingPasses(c: Crypto, s: System, m: Move, i: nat)
    requires Enabled(s, m) && i < |s.conns| && |Do(c, s, m).log| == |s.log|
    requires s.conns[i].pc.InHand().Some? ==> 0 < |s.conns[i].pc.InHand().value| < U32_LIMIT
    requires !Transfers(m)
    ensures i < |Do(c, s, m).conns|
    ensures var conn, conn' := s.conns[i], Do(c, s, m).conns[i];
            conn' == conn || Passes(conn, conn', if m.Arrive? then m.bytes else [])
  {
    hide ServeRequest, KeyToConfirm, Reloaded, Str, Passes, Truncate, SplitFrame;
    SameOrMoreThreads(c, s, m);
    ServesLogs(c, s, m);
    var conn, conn' := s.conns[i], Do(c, s, m).conns[i];
    if conn' != conn {
      if m.EndOfStream? {
        StuckExactly(conn.input);
      }
      PcPasses(conn, conn'.pc);
    }
  }

  /** What the move does to thread `i`, when it serves no request. */
  lemma QuietPasses(c: Crypto, s: System, m: Move, i: nat)
    requires Enabled(s, m) && i < |s.conns| && |Do(c, s, m).log| == |s.log|
    requires s.conns[i].pc.InHand().Some? ==> 0 < |s.conns[i].pc.InHand().value| < U32_LIMIT
    ensures i < |Do(c, s, m).conns|
    ensures var conn, conn' := s.conns[i], Do(c, s, m).conns[i];
            conn' == conn || Passes(conn, conn', if m.Arrive? then m.bytes else [])
  {
    SameOrMoreThreads(c, s, m);
    hide Do, Enabled, Passes;
    if Transfers(m) {
      TransferPasses(c, s, m, i);
    } else {
      StandingPasses(c, s, m, i);
    }
  }

  /** The connection thread `i` after the move, when the move serves no request. */
  lemma QuietMove(c: Crypto, s: System, m: Move, i: nat)
    requires Enabled(s, m) && i < |s.conns| && ConnInv(s.log, i, s.conns[i])
    requires |Do(c, s, m).log| == |s.log|
    ensures ConnInv(s.log, i, Do(c, s, m).conns[i])
  {
    SameOrMoreThreads(c, s, m);
    hide Do, Enabled, Passes, ConnInv;
    if s.conns[i].pc.InHand().Some? {
      ShortInHand(s.log, i, s.conns[i]);
    }
    QuietPasses(c, s, m, i);
    var conn, conn' := s.conns[i], Do(c, s, m).conns[i];
    if conn' != conn {
      PassesKeeps(s.log, i, conn, conn', if m.Arrive? then m.bytes else []);
    }
  }

  lemma SameOrMoreThreads(c: Crypto, s: System, m: Move)
    requires Enabled(s, m)
    ensures |s.conns| <= |Do(c, s, m).conns|
  {
    hide Handle, KeyToConfirm, Reloaded, Str, Truncate, SplitFrame;
  }

  /** The connection thread `i` after the move, when the move serves a request or changes the agent. */
  lemma ServingMove(c: Crypto, g: Guarded, s: System, m: Move, i: nat)
    requires Enabled(s, m) && i < |s.conns| && ConnInv(s.log, i, s.conns[i])
    requires var s' := Do(c, s, m); |s'.log| > |s.log|
    ensures i < |Do(c, s, m).conns| && ConnInv(Do(c, s, m).log, i, Do(c, s, m).conns[i])
  {
    hide Handle, KeyToConfirm, FramesOf, RepliesOf, Concat, ValidBodies, ConnInv, Reloaded, Str, SplitFrame;
    var s' := Do(c, s, m);
    var e := s'.log[|s.log|];
    if e.Served? && e.id == i {
      HandledConn(c, g, s.log, i, s.conns[i], e.frame, e.env, e.reply);
    } else {
      OtherEntry(c, g, s.log, e, i, s.conns[i]);
    }
  }

  lemma MoveKeepsStreams(c: Crypto, g: Guarded, s: System, m: Move)
    requires StreamsInv(s) && KnownIds(s) && Enabled(s, m)
    ensures StreamsInv(Do(c, s, m))
  {
    hide ServeRequest, Handle, KeyToConfirm, Reloaded, Str, SplitFrame, Truncate, ConnInv, SetPc;
    var s' := Do(c, s, m);
    forall i | 0 <= i < |s'.conns|
      ensures ConnInv(s'.log, i, s'.conns[i])
    {
      if m.Connect? {
        if i == |s.conns| {
          NewConn(s.log, i, s'.conns[i]);
        }
      } else {
        SameThreads(c, s, m);
        if |s'.log| == |s.log| {
          assert s'.log == s.log;
          QuietMove(c, s, m, i);
        } else {
          ServingMove(c, g, s, m, i);
        }
      }
    }
  }

  lemma SameThreads(c: Crypto, s: System, m: Move)
    requires Enabled(s, m) && !m.Connect?
    ensures |Do(c, s, m).conns| == |s.conns|
    ensures s.log <= Do(c, s, m).log
  {
    hide Handle, KeyToConfirm, Reloaded, Str, SplitFrame, Truncate;
  }

  lemma NewConn(log: seq<LogEntry>, i: nat, conn: Conn)
    requires forall k :: 0 <= k < |log| && log[k].Served? ==> log[k].id < i
    requires conn.pc.Introducing? || conn.pc.Reading?
    requires conn == Conn(conn.pc, [], [], [])
    ensures ConnInv(log, i, conn)
  {
    UnknownHasNothing(log, i);
  }

  // ------------------------------------------------------------ questions and clicks

  lemma ServingKeepsQuestion(c: Crypto, s: System, m: Move)
    requires MutexInv(s) && QuestionInv(s) && Enabled(s, m) && MayServe(m)
    requires s.shared.poisoned ==> !s.owner.Thread?
    ensures QuestionInv(Do(c, s, m))
  {
    hide Handle, SplitFrame, Str, Truncate, Reloaded, KeyToConfirm;
  }

  /** The moves by which a question is asked and answered. */
  predicate Asks(m: Move) {
    m.Post? || m.ShowDialog? || m.Click?
  }

  lemma AskingKeepsQuestion(c: Crypto, s: System, m: Move)
    requires MutexInv(s) && QuestionInv(s) && Enabled(s, m) && Asks(m)
    ensures QuestionInv(Do(c, s, m))
  {
    hide ServeRequest, SplitFrame, Str, Truncate, Reloaded, KeyToConfirm;
  }

  lemma QuietKeepsQuestion(c: Crypto, s: System, m: Move)
    requires MutexInv(s) && QuestionInv(s) && Enabled(s, m) && !MayServe(m) && !Asks(m)
    requires s.shared.poisoned ==> !s.owner.Thread?
    ensures QuestionInv(Do(c, s, m))
  {
    hide ServeRequest, SplitFrame, Str, Truncate, Reloaded, KeyToConfirm;
  }

  lemma MoveKeepsQuestion(c: Crypto, s: System, m: Move)
    requires MutexInv(s) && QuestionInv(s) && Enabled(s, m)
    requires s.shared.poisoned ==> !s.owner.Thread?
    ensures QuestionInv(Do(c, s, m))
  {
    hide Do, QuestionInv, MutexInv, Enabled;
    if MayServe(m) {
      ServingKeepsQuestion(c, s, m);
    } else if Asks(m) {
      AskingKeepsQuestion(c, s, m);
    } else {
      QuietKeepsQuestion(c, s, m);
    }
  }

  function LoggedQuestion(s: System, s': System): seq<Answered> {
    if |s'.log| > |s.log| then Question(s.shared, s'.log[|s.log|]) else []
  }

  /** How a move changes the record of clicks against what is pending and what is logged. */
  predicate ClicksTally(s: System, s': System) {
    || (s'.clicks == s.clicks && LoggedQuestion(s, s') + PendingClick(s') == PendingClick(s))
    || (s'.clicks == s.clicks + PendingClick(s') && PendingClick(s) == [] && LoggedQuestion(s, s') == [])
  }

  lemma ServingClickMove(c: Crypto, s: System, m: Move)
    requires MutexInv(s) && QuestionInv(s) && Enabled(s, m) && MayServe(m)
    requires s.shared.poisoned ==> !s.owner.Thread?
    ensures ClicksTally(s, Do(c, s, m))
  {
    hide Handle, SplitFrame, Str, Truncate, Reloaded, KeyToConfirm;
  }

  lemma QuietClickMove(c: Crypto, s: System, m: Move)
    requires MutexInv(s) && QuestionInv(s) && Enabled(s, m) && !MayServe(m)
    ensures ClicksTally(s, Do(c, s, m))
  {
    hide ServeRequest, SplitFrame, Str, Truncate, Reloaded, KeyToConfirm;
  }

  /** A click is pending once made; when its thread receives it, it becomes the answer of the entry logged. */
  lemma ClickMove(c: Crypto, s: System, m: Move)
    requires MutexInv(s) && QuestionInv(s) && Enabled(s, m)
    requires s.shared.poisoned ==> !s.owner.Thread?
    ensures ClicksTally(s, Do(c, s, m))
  {
    hide Do, MutexInv, QuestionInv, Enabled, ClicksTally;
    if MayServe(m) {
      ServingClickMove(c, s, m);
    } else {
      QuietClickMove(c, s, m);
    }
  }

  lemma QuestionsLogged(c: Crypto, g: Guarded, s: System, s': System)
    requires s.shared == Replay(c, g, s.log)
    requires s'.log == s.log || (|s'.log| == |s.log| + 1 && s'.log == s.log + [s'.log[|s.log|]])
    ensures QuestionsOf(c, g, s'.log) == QuestionsOf(c, g, s.log) + LoggedQuestion(s, s')
  {
    hide Question, ApplyEntry;
    if |s'.log| > |s.log| {
      Appended(c, g, s.log, s'.log[|s.log|]);
    } else {
      assert s'.log == s.log;
      assert QuestionsOf(c, g, s.log) + [] == QuestionsOf(c, g, s.log);
    }
  }

  lemma Shift(past: seq<Answered>, logged: seq<Answered>, pending: seq<Answered>, pending': seq<Answered>)
    ensures logged + pending' == pending ==> past + pending == past + logged + pending'
    ensures pending == [] && logged == [] ==> past + pending + pending' == past + logged + pending'
  {
    assert past + (logged + pending') == past + logged + pending';
  }

  lemma MoveKeepsClicks(c: Crypto, g: Guarded, s: System, m: Move)
    requires MutexInv(s) && ReplayInv(c, g, s) && QuestionInv(s) && ClicksInv(c, g, s) && Enabled(s, m)
    ensures ClicksInv(c, g, Do(c, s, m))
  {
    hide Do, Enabled, LoggedQuestion, PendingClick, QuestionsOf, MutexInv, QuestionInv;
    ClickMove(c, s, m);
    MoveIsLogged(c, s, m);
    var s' := Do(c, s, m);
    QuestionsLogged(c, g, s, s');
    Shift(QuestionsOf(c, g, s.log), LoggedQuestion(s, s'), PendingClick(s), PendingClick(s'));
  }

  lemma MoveKeepsInv(c: Crypto, g: Guarded, s: System, m: Move)
    requires Inv(c, g, s) && Enabled(s, m)
    ensures Inv(c, g, Do(c, s, m))
  {
    hide Do, Enabled, MutexInv, StreamsInv, KnownIds, PanicInv, QuestionInv, ClicksInv;
    MoveKeepsPanics(c, s, m);
    MoveKeepsMutex(c, s, m);
    MoveKeepsReplay(c, g, s, m);
    MoveKeepsIds(c, s, m);
    MoveKeepsStreams(c, g, s, m);
    MoveKeepsQuestion(c, s, m);
    MoveKeepsClicks(c, g, s, m);
  }

  /** The invariants hold in every state the agent can reach, from any keys and file, under any interleaving. */
  lemma {:induction false} ReachableInv(c: Crypto, g: Guarded, s: System, moves: seq<Move>)
    requires Inv(c, g, s) && RunMoves(c, s, moves).Some?
    ensures Inv(c, g, RunMoves(c, s, moves).value)
    decreases |moves|
  {
    hide Inv, Do, Enabled;
    if moves != [] {
      MoveKeepsInv(c, g, s, moves[0]);
      ReachableInv(c, g, Do(c, s, moves[0]), moves[1..]);
    }
  }
}
