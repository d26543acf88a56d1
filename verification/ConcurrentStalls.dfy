/** How a peer whose ancestors form a cycle stops the running agent: its description never ends, and holds the mutex. */
module ConcurrentStalls {
  import opened Wrappers
  import opened Wire
  import opened Keys
  import opened Agent
  import opened AgentRuns
  import opened Frames
  import opened Connection
  import opened Requester
  import opened Concurrent
  import opened ConcurrentSafety

  // ------------------------------------------------------------ stalled

  /** The holder of the mutex walks up ancestors that never end. */
  ghost predicate Stalled(s: System) {
    && s.owner.Thread? && s.owner.id < |s.conns|
    && s.conns[s.owner.id].pc.Describing?
    && !WalkEnds(s.parent, s.conns[s.owner.id].pc.pid)
  }

  /** No move of anyone ends it, and no request is served after it. */
  lemma StallStays(c: Crypto, s: System, m: Move)
    requires MutexInv(s) && Stalled(s) && Enabled(s, m)
    ensures Stalled(Do(c, s, m))
    ensures Do(c, s, m).log == s.log || (m.EditFile? && Do(c, s, m).log == s.log + [EditedFile(m.file)])
  {
    hide SplitFrame, KeyToConfirm, Handle, Str, Truncate, WalkEnds;
    if m.WalkUp? {
      WalkEndsUp(s.parent, s.conns[m.id].pc.pid);
    }
    ZeroEnds(s.parent);
  }

  lemma ZeroEnds(parent: Parents)
    ensures WalkEnds(parent, 0)
  {
    assert Ancestor(parent, 0, 0) == 0;
  }

  lemma {:induction false} StalledForever(c: Crypto, s: System, moves: seq<Move>, i: nat)
    requires MutexInv(s) && Stalled(s) && RunMoves(c, s, moves).Some?
    ensures var end := RunMoves(c, s, moves).value;
            && Stalled(end)
            && FramesOf(end.log, i) == FramesOf(s.log, i)
            && RepliesOf(end.log, i) == RepliesOf(s.log, i)
    decreases |moves|
  {
    hide MutexInv, Do, Enabled, Stalled;
    if moves != [] {
      var s' := Do(c, s, moves[0]);
      StallStays(c, s, moves[0]);
      MoveKeepsMutex(c, s, moves[0]);
      if s'.log != s.log {
        Appended(c, s.shared, s.log, EditedFile(moves[0].file));
      }
      StalledForever(c, s', moves[1..], i);
    }
  }

  /** The only way in: a thread locks the mutex to describe a peer whose ancestors never end. */
  lemma StalledByExactly(c: Crypto, s: System, m: Move)
    requires MutexInv(s) && !Stalled(s) && Enabled(s, m)
    ensures Stalled(Do(c, s, m)) <==>
            m.LockToDescribe? && !s.shared.poisoned && !WalkEnds(s.parent, s.conns[m.id].pc.peer)
  {
    hide SplitFrame, KeyToConfirm, Handle, Str, Truncate, WalkEnds;
    if m.WalkUp? {
      WalkEndsUp(s.parent, s.conns[m.id].pc.pid);
    }
  }

  /** It happens, in two moves and without any reload, to whatever agent such a peer connects to. */
  lemma StallReachable(c: Crypto, agent: AgentState, parent: Parents, peer: Pid)
    requires !WalkEnds(parent, peer)
    ensures var end := RunMoves(c, Initial(agent, parent), [Connect(Some(peer)), LockToDescribe(0)]);
            end.Some? && Stalled(end.value) && end.value.main.Pumping?
  {
    hide WalkEnds;
    var s1 := Do(c, Initial(agent, parent), Connect(Some(peer)));
    assert [Connect(Some(peer))] + ([LockToDescribe(0)] + []) == [Connect(Some(peer)), LockToDescribe(0)];
    FirstMove(c, Initial(agent, parent), Connect(Some(peer)), [LockToDescribe(0)] + []);
    FirstMove(c, s1, LockToDescribe(0), []);
    var s2 := Do(c, s1, LockToDescribe(0));
    assert RunMoves(c, s2, []) == Some(s2);
    hide RunMoves;
  }

  /** For instance to process 4, when it and process 8 are each the parent of the other. */
  lemma StallExample(c: Crypto, agent: AgentState)
    ensures var end := RunMoves(c, Initial(agent, TWO_CYCLE), [Connect(Some(4)), LockToDescribe(0)]);
            end.Some? && Stalled(end.value) && end.value.main.Pumping?
  {
    CycleExample();
    StallReachable(c, agent, TWO_CYCLE, 4);
  }

  // ------------------------------------------------------------ who may yet stall

  /** Thread `i` describes, or is going to describe, a peer whose ancestors never end. */
  ghost predicate Endless(s: System, i: nat) {
    && i < |s.conns|
    && match s.conns[i].pc
       case Introducing(peer) => !WalkEnds(s.parent, peer)
       case Describing(pid) => !WalkEnds(s.parent, pid)
       case _ => false
  }

  /** Every description under way or to come can end; with the mutex poisoned none is started. */
  ghost predicate WalksEnd(s: System) {
    s.shared.poisoned || forall i: nat :: !Endless(s, i)
  }

  /** It is enough that no process is its own ancestor. */
  lemma AcyclicWalksEnd(s: System)
    requires Acyclic(s.parent)
    ensures WalksEnd(s)
  {
    WalkEndsExactly(s.parent);
  }

  lemma StalledIsEndless(c: Crypto, g: Guarded, s: System)
    requires ReplayInv(c, g, s) && Stalled(s)
    ensures !WalksEnd(s)
  {
    assert Endless(s, s.owner.id);
  }

  /** What one move can do to the pids that threads stand at. */
  lemma EndlessMove(c: Crypto, s: System, m: Move, i: nat)
    requires Enabled(s, m) && i < |s.conns|
    ensures i < |Do(c, s, m).conns| && Do(c, s, m).parent == s.parent
    ensures s.shared.poisoned ==> Do(c, s, m).shared.poisoned
    ensures Endless(s, i) ==> Endless(Do(c, s, m), i) || Do(c, s, m).shared.poisoned
    ensures Endless(Do(c, s, m), i) ==> Endless(s, i)
  {
    hide SplitFrame, KeyToConfirm, Handle, Str, Truncate, WalkEnds;
    if m.WalkUp? {
      WalkEndsUp(s.parent, s.conns[m.id].pc.pid);
    }
    ZeroEnds(s.parent);
  }

  lemma WalksEndStays(c: Crypto, s: System, m: Move)
    requires WalksEnd(s) && Enabled(s, m) && !m.Connect?
    ensures WalksEnd(Do(c, s, m))
  {
    SameThreads(c, s, m);
    hide Do, Enabled;
    forall i: nat | Endless(Do(c, s, m), i)
      ensures Do(c, s, m).shared.poisoned
    {
      EndlessMove(c, s, m, i);
    }
    if s.shared.poisoned {
      PoisonStays(c, s, m);
    }
  }

  lemma PoisonStays(c: Crypto, s: System, m: Move)
    requires s.shared.poisoned && Enabled(s, m)
    ensures Do(c, s, m).shared.poisoned
  {
    hide SplitFrame, KeyToConfirm, Handle, Str, Truncate, Reloaded;
  }

  /** A description that cannot end is not got rid of, except by a panic, which keeps it from being started. */
  lemma {:induction false} EndlessForever(c: Crypto, s: System, moves: seq<Move>, i: nat)
    requires Endless(s, i) && RunMoves(c, s, moves).Some?
    ensures var end := RunMoves(c, s, moves).value; Endless(end, i) || end.shared.poisoned
    decreases |moves|
  {
    hide Do, Enabled, Endless;
    if moves != [] {
      var s' := Do(c, s, moves[0]);
      EndlessThread(s, i);
      EndlessMove(c, s, moves[0], i);
      if Endless(s', i) {
        EndlessForever(c, s', moves[1..], i);
      } else {
        PoisonForever(c, s', moves[1..]);
      }
    }
  }

  lemma EndlessThread(s: System, i: nat)
    requires Endless(s, i)
    ensures i < |s.conns|
  {
  }

  lemma {:induction false} PoisonForever(c: Crypto, s: System, moves: seq<Move>)
    requires s.shared.poisoned && RunMoves(c, s, moves).Some?
    ensures RunMoves(c, s, moves).value.shared.poisoned
    decreases |moves|
  {
    hide Do, Enabled;
    if moves != [] {
      PoisonStays(c, s, moves[0]);
      PoisonForever(c, Do(c, s, moves[0]), moves[1..]);
    }
  }
}
