/** When a request panics in the running agent, seen from what the clients sent. */
module ConcurrentPanics {
  import opened Wire
  import opened Keys
  import opened Agent
  import opened Frames
  import opened Connection
  import opened Panics
  import opened Concurrent
  import opened ConcurrentSafety
  import opened ConcurrentResults

  /** No reload: the file may be edited, but the keys in memory come from requests alone. */
  predicate QuietLog(log: seq<LogEntry>) {
    forall k :: 0 <= k < |log| ==> !log[k].ReloadedFile?
  }

  /** The requests of all connections, in the order of the mutex. */
  function ServedFrames(log: seq<LogEntry>): seq<Bytes> {
    if log == [] then []
    else
      var last := log[|log| - 1];
      ServedFrames(log[..|log| - 1]) + (if last.Served? then [last.frame] else [])
  }

  /** What the log so far says of the agent after it. */
  predicate LogTells(start: bool, log: seq<LogEntry>, g: Guarded) {
    && (g.poisoned <==> BringPanic(start, ServedFrames(log)))
    && (!g.poisoned ==> (AllEncodable(g.agent.keys) <==> !Planted(start, ServedFrames(log))))
  }

  lemma EntryTells(c: Crypto, start: bool, log: seq<LogEntry>, g: Guarded, e: LogEntry)
    requires LogTells(start, log, g) && !e.ReloadedFile?
    ensures LogTells(start, log + [e], ApplyEntry(c, g, e))
  {
    hide BringPanic, Planted, AllEncodable, Crashes, Plants, Lists, Handle;
    assert (log + [e])[..|log|] == log;
    var frames := ServedFrames(log);
    if e.Served? {
      BringPanicSnoc(start, frames, e.frame);
      if !g.poisoned {
        PanicStep(c, g.agent, e.frame, e.env);
      }
    } else {
      assert frames + [] == frames;
    }
  }

  /** In runs without reload the agent has panicked exactly when the requests served bring a panic. */
  lemma {:induction false} PanickedExactly(c: Crypto, g: Guarded, log: seq<LogEntry>)
    requires !g.poisoned && QuietLog(log)
    ensures Replay(c, g, log).poisoned <==> BringPanic(!AllEncodable(g.agent.keys), ServedFrames(log))
    ensures LogTells(!AllEncodable(g.agent.keys), log, Replay(c, g, log))
  {
    hide ApplyEntry, BringPanic, Planted, AllEncodable;
    if log == [] {
      NoFrames(!AllEncodable(g.agent.keys));
      NothingPlanted(!AllEncodable(g.agent.keys));
    } else {
      var init, e := log[..|log| - 1], log[|log| - 1];
      PanickedExactly(c, g, init);
      EntryTells(c, !AllEncodable(g.agent.keys), init, Replay(c, g, init), e);
      assert init + [e] == log;
    }
  }

  lemma NothingPlanted(start: bool)
    ensures Planted(start, []) <==> start
  {
  }

  // ------------------------------------------------------------ harmless clients

  /** No request with a factor 1, and no key with a zero number. */
  predicate Harmless(bodies: seq<Bytes>) {
    forall k :: 0 <= k < |bodies| ==> !Crashes(bodies[k]) && !Plants(bodies[k])
  }

  lemma HarmlessBringNone(frames: seq<Bytes>)
    requires Harmless(frames)
    ensures !BringPanic(false, frames)
  {
    hide Crashes, Plants, Lists;
  }

  /** What is served for each connection is harmless, so all that is served is. */
  lemma {:induction false} ServedHarmless(log: seq<LogEntry>)
    requires forall i: nat :: Harmless(FramesOf(log, i))
    ensures Harmless(ServedFrames(log))
  {
    hide Crashes, Plants;
    if log != [] {
      var init, last := log[..|log| - 1], log[|log| - 1];
      forall i: nat
        ensures Harmless(FramesOf(init, i))
      {
        assert FramesOf(log, i) == FramesOf(init, i) + (if last.Served? && last.id == i then [last.frame] else []);
        HarmlessPart(FramesOf(init, i), if last.Served? && last.id == i then [last.frame] else []);
      }
      ServedHarmless(init);
      if last.Served? {
        assert FramesOf(log, last.id) == FramesOf(init, last.id) + [last.frame];
        HarmlessPart(FramesOf(init, last.id), [last.frame]);
        HarmlessBoth(ServedFrames(init), [last.frame]);
      }
    }
  }

  lemma HarmlessPart(a: seq<Bytes>, b: seq<Bytes>)
    requires Harmless(a + b)
    ensures Harmless(a) && Harmless(b)
  {
    hide Crashes, Plants;
    assert forall k :: 0 <= k < |a| ==> (a + b)[k] == a[k];
    assert forall k :: 0 <= k < |b| ==> (a + b)[|a| + k] == b[k];
  }

  lemma HarmlessBoth(a: seq<Bytes>, b: seq<Bytes>)
    requires Harmless(a) && Harmless(b)
    ensures Harmless(a + b)
  {
    hide Crashes, Plants;
  }

  /** If every key starts out listable and no client has sent anything harmful, nothing has panicked. */
  lemma HarmlessClients(c: Crypto, g: Guarded, s: System)
    requires Inv(c, g, s) && QuietLog(s.log) && !g.poisoned && AllEncodable(g.agent.keys)
    requires forall i :: 0 <= i < |s.conns| ==> Harmless(AllFrames(s.conns[i].received))
    ensures !s.shared.poisoned
  {
    hide MutexInv, PanicInv, QuestionInv, ClicksInv, ConnInv, Replay, Faithful, FramesOf, RepliesOf;
    hide Harmless, AllFrames, BringPanic;
    forall i: nat
      ensures Harmless(FramesOf(s.log, i))
    {
      if i < |s.conns| {
        ConnectionView(s.log, i, s.conns[i]);
        HarmlessPart(FramesOf(s.log, i), AllFrames(s.conns[i].pc.Unhandled() + s.conns[i].input));
      } else {
        UnknownHasNothing(s.log, i);
        NothingHarmless();
      }
    }
    ServedHarmless(s.log);
    HarmlessBringNone(ServedFrames(s.log));
    PanickedExactly(c, g, s.log);
  }

  lemma NothingHarmless()
    ensures Harmless([])
  {
  }
}
