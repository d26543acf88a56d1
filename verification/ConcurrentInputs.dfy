/** What becomes of the world's decisions in the running agent: clicks, bytes sent, edits, reloads, failures. */
module ConcurrentInputs {
  import opened Wire
  import opened Keys
  import opened Config
  import opened Agent
  import opened AgentRuns
  import opened Frames
  import opened Connection
  import opened Concurrent
  import opened Sequences

  // ------------------------------------------------------------ what the moves say

  /** The buttons pressed, in order: on whose dialog, about which key, and whether it was OK. */
  function ClicksOf(moves: seq<Move>): seq<Answered> {
    if moves == [] then []
    else (if moves[0].Click? then [Answered(moves[0].dialog.id, moves[0].dialog.key, moves[0].ok)] else [])
         + ClicksOf(moves[1..])
  }

  /** All that client `i` sent. */
  function SentBy(moves: seq<Move>, i: nat): Bytes {
    if moves == [] then []
    else (if moves[0].Arrive? && moves[0].id == i then moves[0].bytes else []) + SentBy(moves[1..], i)
  }

  function EditsIn(moves: seq<Move>): seq<StoredFile> {
    if moves == [] then [] else (if moves[0].EditFile? then [moves[0].file] else []) + EditsIn(moves[1..])
  }

  /** For each reload chosen, whether the file could be read. */
  function ReloadsIn(moves: seq<Move>): seq<bool> {
    if moves == [] then [] else (if moves[0].ChooseReload? then [moves[0].readable] else []) + ReloadsIn(moves[1..])
  }

  /** The saves that failed, and how. */
  function FailuresIn(moves: seq<Move>): seq<SaveOutcome> {
    if moves == [] then []
    else (if moves[0].HandleRequest? && !moves[0].save.Saved? then [moves[0].save] else []) + FailuresIn(moves[1..])
  }

  /** The failed writes to client `i`, by how many bytes were still sent. */
  function CutsIn(moves: seq<Move>, i: nat): seq<nat> {
    if moves == [] then []
    else (if moves[0].Write? && moves[0].id == i && moves[0].outcome.WriteFails? then [moves[0].outcome.sent] else [])
         + CutsIn(moves[1..], i)
  }

  // ------------------------------------------------------------ what the log says

  function EditsLogged(log: seq<LogEntry>): seq<StoredFile> {
    if log == [] then []
    else
      var last := log[|log| - 1];
      EditsLogged(log[..|log| - 1]) + (if last.EditedFile? then [last.file] else [])
  }

  function ReloadsLogged(log: seq<LogEntry>): seq<bool> {
    if log == [] then []
    else
      var last := log[|log| - 1];
      ReloadsLogged(log[..|log| - 1]) + (if last.ReloadedFile? then [last.readable] else [])
  }

  function FailuresLogged(log: seq<LogEntry>): seq<SaveOutcome> {
    if log == [] then []
    else
      var last := log[|log| - 1];
      FailuresLogged(log[..|log| - 1]) + (if last.Served? && !last.env.save.Saved? then [last.env.save] else [])
  }

  /** The reload chosen and not yet made. */
  function PendingReload(s: System): seq<bool> {
    match s.main
    case WantReload(readable) => [readable]
    case Reloading(readable) => [readable]
    case _ => []
  }

  lemma LoggedOne(log: seq<LogEntry>, e: LogEntry)
    ensures EditsLogged(log + [e]) == EditsLogged(log) + (if e.EditedFile? then [e.file] else [])
    ensures ReloadsLogged(log + [e]) == ReloadsLogged(log) + (if e.ReloadedFile? then [e.readable] else [])
    ensures FailuresLogged(log + [e])
            == FailuresLogged(log) + (if e.Served? && !e.env.save.Saved? then [e.env.save] else [])
  {
    assert (log + [e])[..|log|] == log;
  }

  // ------------------------------------------------------------ one move

  lemma ClickRecorded(c: Crypto, s: System, m: Move)
    requires Enabled(s, m)
    ensures Do(c, s, m).clicks == s.clicks + ClicksOf([m])
  {
    hide SplitFrame, KeyToConfirm, LockedHandle, Str, Truncate, Reloaded;
    assert [m][1..] == [];
  }

  lemma BytesReceived(c: Crypto, s: System, m: Move, i: nat)
    requires Enabled(s, m) && i < |s.conns|
    ensures i < |Do(c, s, m).conns|
    ensures Do(c, s, m).conns[i].received == s.conns[i].received + SentBy([m], i)
  {
    hide SplitFrame, KeyToConfirm, LockedHandle, Str, Truncate, Reloaded;
    assert [m][1..] == [];
  }

  lemma NoneYet(c: Crypto, s: System, m: Move, i: nat)
    requires Enabled(s, m) && i >= |s.conns|
    ensures SentBy([m], i) == [] && CutsIn([m], i) == []
    ensures i < |Do(c, s, m).conns| ==> Do(c, s, m).conns[i].received == [] && !Do(c, s, m).conns[i].pc.Cut()
  {
    hide SplitFrame, KeyToConfirm, LockedHandle, Str, Truncate, Reloaded;
    assert [m][1..] == [];
  }

  function CutAt(pc: Pc): seq<nat> {
    if pc.Cut() then [pc.how.sent] else []
  }

  lemma WriteCuts(c: Crypto, s: System, m: Move, i: nat)
    requires Enabled(s, m) && i < |s.conns|
    ensures i < |Do(c, s, m).conns|
    ensures CutAt(Do(c, s, m).conns[i].pc) == CutAt(s.conns[i].pc) + CutsIn([m], i)
  {
    CutByWrite(c, s, m, i);
    assert [m][1..] == [] && CutsIn([], i) == [];
    hide Do, Enabled, CutAt;
  }

  lemma CutByWrite(c: Crypto, s: System, m: Move, i: nat)
    requires Enabled(s, m) && i < |s.conns|
    ensures i < |Do(c, s, m).conns|
    ensures var cut, cut' := CutAt(s.conns[i].pc), CutAt(Do(c, s, m).conns[i].pc);
            if m.Write? && m.id == i then cut == [] && cut' == (if m.outcome.WriteFails? then [m.outcome.sent] else [])
            else cut' == cut
  {
    hide SplitFrame, KeyToConfirm, LockedHandle, Str, Truncate, Reloaded;
  }

  /** The log entry a move makes, if it makes one, and the world's part in it. */
  lemma EntryMade(c: Crypto, s: System, m: Move)
    requires Enabled(s, m)
    ensures var log' := Do(c, s, m).log;
            if |log'| == |s.log| then
              log' == s.log && !m.EditFile? && !m.ReloadKeys? && !m.HandleRequest?
            else
              && |log'| == |s.log| + 1 && log' == s.log + [log'[|s.log|]]
              && match log'[|s.log|]
                 case EditedFile(file) => m == EditFile(file)
                 case ReloadedFile(readable) => m.ReloadKeys? && s.main == Reloading(readable)
                 case Served(_, _, env, _) =>
                   !m.EditFile? && !m.ReloadKeys? && env.save == (if m.HandleRequest? then m.save else Saved)
  {
    hide SplitFrame, KeyToConfirm, LockedHandle, Str, Truncate, Reloaded;
  }

  lemma EditsAndFailures(c: Crypto, s: System, m: Move)
    requires Enabled(s, m)
    ensures EditsLogged(Do(c, s, m).log) == EditsLogged(s.log) + EditsIn([m])
    ensures FailuresLogged(Do(c, s, m).log) == FailuresLogged(s.log) + FailuresIn([m])
  {
    EntryMade(c, s, m);
    var log' := Do(c, s, m).log;
    assert [m][1..] == [] && EditsIn([]) == [] && FailuresIn([]) == [];
    hide Do, Enabled, EditsLogged, FailuresLogged;
    if |log'| > |s.log| {
      LoggedOne(s.log, log'[|s.log|]);
    }
  }

  lemma ReloadMade(c: Crypto, s: System, m: Move)
    requires Enabled(s, m) && !Do(c, s, m).main.Crashed?
    ensures ReloadsLogged(Do(c, s, m).log) + PendingReload(Do(c, s, m))
            == ReloadsLogged(s.log) + PendingReload(s) + ReloadsIn([m])
  {
    EntryMade(c, s, m);
    MainMoves(c, s, m);
    var log' := Do(c, s, m).log;
    assert [m][1..] == [] && ReloadsIn([]) == [];
    hide Do, Enabled, ReloadsLogged;
    var made := ReloadsLogged(s.log);
    Unit(made);
    if |log'| > |s.log| {
      LoggedOne(s.log, log'[|s.log|]);
    }
    Unit(made + PendingReload(s));
    Assoc(made, PendingReload(s), ReloadsIn([m]));
  }

  lemma MainMoves(c: Crypto, s: System, m: Move)
    requires Enabled(s, m) && !Do(c, s, m).main.Crashed?
    ensures var main' := Do(c, s, m).main;
            match m
            case ChooseReload(readable) => s.main.Pumping? && main' == WantReload(readable)
            case LockToReload => s.main.WantReload? && main' == Reloading(s.main.readable)
            case ReloadKeys => s.main.Reloading? && main'.Pumping?
            case _ => main' == s.main
  {
    hide SplitFrame, KeyToConfirm, LockedHandle, Str, Truncate, Reloaded;
  }

  // ------------------------------------------------------------ whole runs

  lemma InputsCons(m: Move, rest: seq<Move>, i: nat)
    ensures ClicksOf([m] + rest) == ClicksOf([m]) + ClicksOf(rest)
    ensures SentBy([m] + rest, i) == SentBy([m], i) + SentBy(rest, i)
    ensures EditsIn([m] + rest) == EditsIn([m]) + EditsIn(rest)
    ensures ReloadsIn([m] + rest) == ReloadsIn([m]) + ReloadsIn(rest)
    ensures FailuresIn([m] + rest) == FailuresIn([m]) + FailuresIn(rest)
    ensures CutsIn([m] + rest, i) == CutsIn([m], i) + CutsIn(rest, i)
  {
    hide ClicksOf, SentBy, EditsIn, ReloadsIn, FailuresIn, CutsIn;
    ClicksCons(m, rest);
    SentCons(m, rest, i);
    EditsCons(m, rest);
    ReloadsCons(m, rest);
    FailuresCons(m, rest);
    CutsCons(m, rest, i);
  }

  lemma ClicksCons(m: Move, rest: seq<Move>)
    ensures ClicksOf([m] + rest) == ClicksOf([m]) + ClicksOf(rest)
  {
    assert ([m] + rest)[1..] == rest && [m][1..] == [];
  }

  lemma SentCons(m: Move, rest: seq<Move>, i: nat)
    ensures SentBy([m] + rest, i) == SentBy([m], i) + SentBy(rest, i)
  {
    assert ([m] + rest)[1..] == rest && [m][1..] == [];
  }

  lemma EditsCons(m: Move, rest: seq<Move>)
    ensures EditsIn([m] + rest) == EditsIn([m]) + EditsIn(rest)
  {
    assert ([m] + rest)[1..] == rest && [m][1..] == [];
  }

  lemma ReloadsCons(m: Move, rest: seq<Move>)
    ensures ReloadsIn([m] + rest) == ReloadsIn([m]) + ReloadsIn(rest)
  {
    assert ([m] + rest)[1..] == rest && [m][1..] == [];
  }

  lemma FailuresCons(m: Move, rest: seq<Move>)
    ensures FailuresIn([m] + rest) == FailuresIn([m]) + FailuresIn(rest)
  {
    assert ([m] + rest)[1..] == rest && [m][1..] == [];
  }

  lemma CutsCons(m: Move, rest: seq<Move>, i: nat)
    ensures CutsIn([m] + rest, i) == CutsIn([m], i) + CutsIn(rest, i)
  {
    assert ([m] + rest)[1..] == rest && [m][1..] == [];
  }

  lemma {:induction false} ClicksAfter(c: Crypto, s: System, moves: seq<Move>)
    requires RunMoves(c, s, moves).Some?
    ensures RunMoves(c, s, moves).value.clicks == s.clicks + ClicksOf(moves)
    decreases |moves|
  {
    hide Do, Enabled, ClicksOf;
    if moves == [] {
      NoInputs(0);
      Unit(s.clicks);
    } else {
      HeadTail(moves);
      InputsCons(moves[0], moves[1..], 0);
      ClickRecorded(c, s, moves[0]);
      ClicksAfter(c, Do(c, s, moves[0]), moves[1..]);
      Assoc(s.clicks, ClicksOf([moves[0]]), ClicksOf(moves[1..]));
    }
  }

  lemma NoInputs(i: nat)
    ensures ClicksOf([]) == [] && SentBy([], i) == [] && EditsIn([]) == [] && ReloadsIn([]) == []
    ensures FailuresIn([]) == [] && CutsIn([], i) == []
    ensures EditsLogged([]) == [] && ReloadsLogged([]) == [] && FailuresLogged([]) == []
  {
  }

  lemma {:induction false} EditsAndFailuresAfter(c: Crypto, s: System, moves: seq<Move>)
    requires RunMoves(c, s, moves).Some?
    ensures var log' := RunMoves(c, s, moves).value.log;
            && EditsLogged(log') == EditsLogged(s.log) + EditsIn(moves)
            && FailuresLogged(log') == FailuresLogged(s.log) + FailuresIn(moves)
    decreases |moves|
  {
    hide Do, Enabled, EditsIn, FailuresIn, EditsLogged, FailuresLogged;
    NoInputs(0);
    if moves == [] {
      Unit(EditsLogged(s.log));
      Unit(FailuresLogged(s.log));
    } else {
      HeadTail(moves);
      InputsCons(moves[0], moves[1..], 0);
      EditsAndFailures(c, s, moves[0]);
      EditsAndFailuresAfter(c, Do(c, s, moves[0]), moves[1..]);
      Assoc(EditsLogged(s.log), EditsIn([moves[0]]), EditsIn(moves[1..]));
      Assoc(FailuresLogged(s.log), FailuresIn([moves[0]]), FailuresIn(moves[1..]));
    }
  }

  lemma CrashStays(c: Crypto, s: System, moves: seq<Move>)
    requires s.main.Crashed? && RunMoves(c, s, moves).Some?
    ensures RunMoves(c, s, moves).value == s
  {
  }

  lemma {:induction false} ReloadsAfter(c: Crypto, s: System, moves: seq<Move>)
    requires RunMoves(c, s, moves).Some? && !RunMoves(c, s, moves).value.main.Crashed?
    ensures var end := RunMoves(c, s, moves).value;
            ReloadsLogged(end.log) + PendingReload(end) == ReloadsLogged(s.log) + PendingReload(s) + ReloadsIn(moves)
    decreases |moves|
  {
    hide Do, Enabled, ReloadsIn, ReloadsLogged, PendingReload;
    NoInputs(0);
    if moves == [] {
      Unit(ReloadsLogged(s.log) + PendingReload(s));
    } else {
      var s' := Do(c, s, moves[0]);
      if s'.main.Crashed? {
        CrashStays(c, s', moves[1..]);
      } else {
        HeadTail(moves);
        InputsCons(moves[0], moves[1..], 0);
        ReloadMade(c, s, moves[0]);
        ReloadsAfter(c, s', moves[1..]);
        Assoc(ReloadsLogged(s.log) + PendingReload(s), ReloadsIn([moves[0]]), ReloadsIn(moves[1..]));
      }
    }
  }

  /** What thread `i` has received and which of its writes failed, before the thread exists and after. */
  function Received(s: System, i: nat): Bytes {
    if i < |s.conns| then s.conns[i].received else []
  }

  function Cuts(s: System, i: nat): seq<nat> {
    if i < |s.conns| then CutAt(s.conns[i].pc) else []
  }

  lemma StreamMove(c: Crypto, s: System, m: Move, i: nat)
    requires Enabled(s, m)
    ensures Received(Do(c, s, m), i) == Received(s, i) + SentBy([m], i)
    ensures Cuts(Do(c, s, m), i) == Cuts(s, i) + CutsIn([m], i)
  {
    if i < |s.conns| {
      BytesReceived(c, s, m, i);
      WriteCuts(c, s, m, i);
    } else {
      NoneYet(c, s, m, i);
    }
    hide Do, Enabled, SentBy, CutsIn;
  }

  lemma {:induction false} StreamsAfter(c: Crypto, s: System, moves: seq<Move>, i: nat)
    requires RunMoves(c, s, moves).Some?
    ensures var end := RunMoves(c, s, moves).value;
            && Received(end, i) == Received(s, i) + SentBy(moves, i)
            && Cuts(end, i) == Cuts(s, i) + CutsIn(moves, i)
    decreases |moves|
  {
    hide Do, Enabled, SentBy, CutsIn, Received, Cuts;
    NoInputs(i);
    if moves == [] {
      Unit(Received(s, i));
      Unit(Cuts(s, i));
    } else {
      HeadTail(moves);
      InputsCons(moves[0], moves[1..], i);
      StreamMove(c, s, moves[0], i);
      StreamsAfter(c, Do(c, s, moves[0]), moves[1..], i);
      Assoc(Received(s, i), SentBy([moves[0]], i), SentBy(moves[1..], i));
      Assoc(Cuts(s, i), CutsIn([moves[0]], i), CutsIn(moves[1..], i));
    }
  }

  /**
   In every run the world has its say, in its own order: the clicks recorded are the buttons pressed, each thread has
   received what its client sent and ended for a failed write if and only if one failed, the edits and the failed
   saves logged are those that happened, and the reloads made are those chosen, but for one still to come.
   */
  lemma WorldDecides(c: Crypto, agent: AgentState, parent: Parents, moves: seq<Move>, i: nat)
    requires RunMoves(c, Initial(agent, parent), moves).Some?
    ensures var s := RunMoves(c, Initial(agent, parent), moves).value;
            && s.clicks == ClicksOf(moves)
            && (i < |s.conns| ==> s.conns[i].received == SentBy(moves, i))
            && (i < |s.conns| ==> CutAt(s.conns[i].pc) == CutsIn(moves, i))
            && EditsLogged(s.log) == EditsIn(moves)
            && FailuresLogged(s.log) == FailuresIn(moves)
            && (!s.main.Crashed? ==> ReloadsLogged(s.log) + PendingReload(s) == ReloadsIn(moves))
  {
    var s0 := Initial(agent, parent);
    ClicksAfter(c, s0, moves);
    StreamsAfter(c, s0, moves, i);
    EditsAndFailuresAfter(c, s0, moves);
    NoInputs(i);
    var s := RunMoves(c, s0, moves).value;
    assert Received(s0, i) == [] && Cuts(s0, i) == [] && PendingReload(s0) == [];
    assert Received(s, i) == (if i < |s.conns| then s.conns[i].received else []);
    assert Cuts(s, i) == (if i < |s.conns| then CutAt(s.conns[i].pc) else []);
    if !s.main.Crashed? {
      ReloadsAfter(c, s0, moves);
    }
    hide RunMoves, ClicksOf, SentBy, CutsIn, EditsIn, FailuresIn, ReloadsIn, EditsLogged, FailuresLogged;
    hide ReloadsLogged, Received, Cuts, CutAt;
    Unit(ClicksOf(moves));
    Unit(SentBy(moves, i));
    Unit(CutsIn(moves, i));
    Unit(EditsIn(moves));
    Unit(FailuresIn(moves));
    Unit(ReloadsIn(moves));
  }

  // ------------------------------------------------------------ which move a click was

  /** The move that was the `j`-th click. */
  function ClickAt(moves: seq<Move>, j: nat): (n: nat)
    requires j < |ClicksOf(moves)|
    ensures n < |moves| && moves[n].Click?
    ensures ClicksOf(moves)[j] == Answered(moves[n].dialog.id, moves[n].dialog.key, moves[n].ok)
  {
    if moves[0].Click? && j == 0 then 0
    else 1 + ClickAt(moves[1..], if moves[0].Click? then j - 1 else j)
  }

  lemma {:induction false} ClickAtMonotone(moves: seq<Move>, j: nat, k: nat)
    requires j < k < |ClicksOf(moves)|
    ensures ClickAt(moves, j) < ClickAt(moves, k)
  {
    if moves[0].Click? {
      if j > 0 {
        ClickAtMonotone(moves[1..], j - 1, k - 1);
      }
    } else {
      ClickAtMonotone(moves[1..], j, k);
    }
  }
}
