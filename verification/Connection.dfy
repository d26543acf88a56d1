/** One client connection, after `connection_handler` in src/utils.rs, over a stream that reads short. */
module Connection {
  import opened Wrappers
  import opened Wire
  import opened WireIo
  import opened Agent
  import opened Frames
  import opened Sequences

  // ------------------------------------------------------------ the incoming stream

  datatype ErrorKind = UnexpectedEof | BrokenPipe | OtherError

  /** What the operating system has ready for one read. After the last chunk every read returns no bytes. */
  datatype Chunk = Data(bytes: Bytes) | Interrupted | Failure(kind: ErrorKind)

  /** The bytes a reader can obtain: everything before the first empty read or error. */
  function Delivered(chunks: seq<Chunk>): Bytes {
    if chunks == [] then []
    else
      match chunks[0]
      case Interrupted => Delivered(chunks[1..])
      case Failure(_) => []
      case Data(bytes) => if bytes == [] then [] else bytes + Delivered(chunks[1..])
  }

  function Weight(chunks: seq<Chunk>): nat {
    if chunks == [] then 0 else 1 + (if chunks[0].Data? then |chunks[0].bytes| else 0) + Weight(chunks[1..])
  }

  datatype ReadResult = Got(bytes: Bytes) | Err(kind: ErrorKind) | Again

  class Stream {
    var chunks: seq<Chunk>

    constructor (chunks: seq<Chunk>)
      ensures this.chunks == chunks
    {
      this.chunks := chunks;
    }

    /** One read into a buffer of `n` bytes: at most `n`, and at most one chunk. */
    method Read(n: nat) returns (r: ReadResult)
      requires n > 0
      modifies this
      ensures match r
              case Again => Delivered(chunks) == Delivered(old(chunks)) && Weight(chunks) < Weight(old(chunks))
              case Err(_) => Delivered(old(chunks)) == []
              case Got(bytes) =>
                && |bytes| <= n
                && (bytes == [] ==> Delivered(old(chunks)) == [])
                && (bytes != [] ==>
                    && Delivered(old(chunks)) == bytes + Delivered(chunks)
                    && Weight(chunks) < Weight(old(chunks)))
      ensures old(chunks) == [] ==> r == Got([]) && chunks == []
      ensures old(chunks) != [] ==>
                match old(chunks)[0]
                case Interrupted => r == Again && chunks == old(chunks)[1..]
                case Failure(kind) => r == Err(kind) && chunks == old(chunks)[1..]
                case Data(bytes) =>
                  && r == Got(Truncate(bytes, n))
                  && chunks == (if n < |bytes| then [Data(bytes[n..])] else []) + old(chunks)[1..]
    {
      if chunks == [] {
        return Got([]);
      }
      var first := chunks[0];
      match first {
        case Interrupted =>
          chunks := chunks[1..];
          return Again;
        case Failure(kind) =>
          chunks := chunks[1..];
          return Err(kind);
        case Data(bytes) =>
          if |bytes| <= n {
            chunks := chunks[1..];
            return Got(bytes);
          }
          var rest := chunks[1..];
          chunks := [Data(bytes[n..])] + rest;
          assert chunks[1..] == rest;
          assert bytes + Delivered(rest) == bytes[..n] + (bytes[n..] + Delivered(rest));
          return Got(bytes[..n]);
      }
    }

    /** Reads until `n` bytes have come, trying again when interrupted. */
    method ReadExact(n: nat) returns (r: Option<Bytes>, kind: ErrorKind)
      modifies this
      ensures n <= |Delivered(old(chunks))| ==>
                r == Some(Delivered(old(chunks))[..n]) && Delivered(chunks) == Delivered(old(chunks))[n..]
      ensures n > |Delivered(old(chunks))| ==> r == None
    {
      var buf: Bytes := [];
      kind := UnexpectedEof;
      ghost var all := Delivered(chunks);
      while |buf| < n
        invariant |buf| <= n
        invariant all == buf + Delivered(chunks)
        decreases Weight(chunks)
      {
        ghost var before := Delivered(chunks);
        var got := Read(n - |buf|);
        match got {
          case Again =>
          case Err(k) =>
            return None, k;
          case Got(bytes) =>
            if bytes == [] {
              return None, UnexpectedEof;
            }
            assert buf + (bytes + Delivered(chunks)) == buf + bytes + Delivered(chunks);
            buf := buf + bytes;
        }
      }
      assert all[..n] == buf && all[n..] == Delivered(chunks);
      r := Some(buf);
    }
  }

  // ------------------------------------------------------------ the shared agent

  /** The agent behind its mutex: a panic while it is locked poisons the mutex for every later caller. */
  datatype Guarded = Guarded(agent: AgentState, poisoned: bool)

  function LockedHandle(c: Keys.Crypto, g: Guarded, buf: Bytes, env: Env): (Option<Bytes>, Guarded) {
    if g.poisoned then (None, g)
    else
      var h := Handle(c, g.agent, buf, env);
      (h.reply, Guarded(h.state, h.reply.None?))
  }

  class AgentMutex {
    const agent: SshAgent
    var poisoned: bool

    constructor (agent: SshAgent)
      ensures this.agent == agent && !poisoned
    {
      this.agent, this.poisoned := agent, false;
    }

    ghost function State(): Guarded
      reads this, agent.config, agent.config.disk
    {
      Guarded(agent.State(), poisoned)
    }

    method HandleLocked(buf: Bytes, env: Env) returns (reply: Option<Bytes>)
      modifies this, agent.config, agent.config.disk
      ensures (reply, State()) == LockedHandle(agent.crypto, old(State()), buf, env)
    {
      if poisoned {
        return None;
      }
      hide Handle;
      reply := agent.HandleRequest(buf, env);
      poisoned := reply.None?;
    }
  }

  // ------------------------------------------------------------ the loop

  /** Whether one reply can be written; a client that went away may still have received some of its bytes. */
  datatype WriteOutcome = Written | WriteFails(sent: nat)

  /** What the world decides while the i-th request of the connection is served. */
  datatype Turn = Turn(env: Env, write: WriteOutcome)
  type World = nat -> Turn

  function Truncate(b: Bytes, k: nat): Bytes {
    if k < |b| then b[..k] else b
  }

  /** Bytes written to the client, and the shared state afterwards. */
  datatype Served = Served(output: Bytes, state: Guarded)

  function Serve(c: Keys.Crypto, g: Guarded, frames: seq<Bytes>, world: World, i: nat): Served
    decreases |frames|
  {
    if frames == [] then Served([], g)
    else
      var (reply, g') := LockedHandle(c, g, frames[0], world(i).env);
      match reply
      case None => Served([], g')
      case Some(resp) =>
        match world(i).write
        case WriteFails(sent) => Served(Truncate(Str(resp), sent), g')
        case Written =>
          var rest := Serve(c, g', frames[1..], world, i + 1);
          Served(Str(resp) + rest.output, rest.state)
  }

  /** One turn of the loop's reading: nothing at end of stream, at a zero length, or when either read fails. */
  method ReadFrame(stream: Stream) returns (frame: Option<Bytes>)
    modifies stream
    ensures match SplitFrame(Delivered(old(stream.chunks)))
            case None => frame == None
            case Some((body, rest)) => frame == Some(body) && Delivered(stream.chunks) == rest
  {
    ghost var input := Delivered(stream.chunks);
    var header, kind := stream.ReadExact(4);
    if header.None? {
      return None;
    }
    var len := FromBe32(header.value);
    if len == 0 {
      return None;
    }
    frame, kind := stream.ReadExact(len);
    if frame.Some? {
      assert input[4..][..len] == input[4..4 + len] && input[4..][len..] == input[4 + len..];
    }
  }

  /**
   The connection loop. Whatever the short reads, it stops, and it has served exactly the longest run of
   complete non-empty frames among the delivered bytes, up to the first panic or failed write.
   */
  method ConnectionHandler(mutex: AgentMutex, stream: Stream, world: World, out: ByteBuffer)
    requires out.bytes == []
    modifies mutex, mutex.agent.config, mutex.agent.config.disk, stream, out
    ensures var frames := AllFrames(Delivered(old(stream.chunks)));
            var served := Serve(mutex.agent.crypto, old(mutex.State()), frames, world, 0);
            out.bytes == served.output && mutex.State() == served.state
  {
    hide LockedHandle, SplitFrame, Delivered, Str;
    var i := 0;
    ghost var c := mutex.agent.crypto;
    ghost var goal := Serve(c, mutex.State(), AllFrames(Delivered(stream.chunks)), world, 0);
    assert [] + goal.output == goal.output;
    while true
      invariant goal == After(out.bytes, Serve(c, mutex.State(), AllFrames(Delivered(stream.chunks)), world, i))
      decreases |Delivered(stream.chunks)|
    {
      ghost var g, sent := mutex.State(), out.bytes;
      ghost var input := Delivered(stream.chunks);
      var frame := ReadFrame(stream);
      if frame.None? {
        assert sent + [] == sent;
        return;
      }
      ghost var later := AllFrames(Delivered(stream.chunks));
      assert AllFrames(input) == [frame.value] + later;
      var reply := mutex.HandleLocked(frame.value, world(i).env);
      ServeOne(c, g, frame.value, later, world, i, sent);
      if reply.None? {
        return;
      }
      if world(i).write.WriteFails? {
        out.bytes := out.bytes + Truncate(Str(reply.value), world(i).write.sent);
        return;
      }
      out.WriteString(reply.value);
      i := i + 1;
    }
  }

  function After(sent: Bytes, rest: Served): Served {
    Served(sent + rest.output, rest.state)
  }

  /** Serving one more frame, seen from what has been sent before it. */
  lemma ServeOne(c: Keys.Crypto, g: Guarded, frame: Bytes, later: seq<Bytes>, world: World, i: nat, sent: Bytes)
    ensures var (reply, g') := LockedHandle(c, g, frame, world(i).env);
            After(sent, Serve(c, g, [frame] + later, world, i)) ==
              match reply
              case None => Served(sent, g')
              case Some(resp) =>
                match world(i).write
                case WriteFails(k) => Served(sent + Truncate(Str(resp), k), g')
                case Written => After(sent + Str(resp), Serve(c, g', later, world, i + 1))
  {
    hide LockedHandle, Str;
    assert ([frame] + later)[1..] == later;
    assert sent + [] == sent;
    var (reply, g') := LockedHandle(c, g, frame, world(i).env);
    if reply.Some? {
      var rest := Serve(c, g', later, world, i + 1).output;
      assert sent + (Str(reply.value) + rest) == (sent + Str(reply.value)) + rest;
    }
  }

  /** Serving is answering the first request, unless it panics, and serving the rest, none of it after a panic. */
  lemma ServeFirst(c: Keys.Crypto, g: Guarded, frame: Bytes, later: seq<Bytes>, world: World, k: nat)
    requires world(k).write.Written?
    ensures var (reply, g') := LockedHandle(c, g, frame, world(k).env);
            var rest := Serve(c, g', later, world, k + 1);
            Serve(c, g, [frame] + later, world, k) ==
              Served((if reply.Some? then Str(reply.value) else []) + rest.output, rest.state)
  {
    hide Handle, Str;
    assert ([frame] + later)[1..] == later;
    PanicEndsServing(c, LockedHandle(c, g, frame, world(k).env).1, later, world, k + 1);
  }

  lemma PanicEndsServing(c: Keys.Crypto, g: Guarded, later: seq<Bytes>, world: World, k: nat)
    ensures later == [] || g.poisoned ==> Serve(c, g, later, world, k) == Served([], g)
  {
    hide Handle, Str;
  }

  // ------------------------------------------------------------ what the client can read back

  /** The replies of a connection on which no thread panics and every write succeeds. */
  function Replies(c: Keys.Crypto, g: Guarded, frames: seq<Bytes>, world: World, i: nat): seq<Bytes>
    decreases |frames|
  {
    if frames == [] then []
    else
      var (reply, g') := LockedHandle(c, g, frames[0], world(i).env);
      match reply
      case None => []
      case Some(resp) => [resp] + (if world(i).write.Written? then Replies(c, g', frames[1..], world, i + 1) else [])
  }

  lemma ReplyNonempty(c: Keys.Crypto, g: Guarded, buf: Bytes, env: Env)
    ensures var reply := LockedHandle(c, g, buf, env).0; reply.Some? ==> |reply.value| > 0
  {
    hide Keys.PairFromWire, ReadSignRequest;
  }

  lemma {:induction false} RepliesNonempty(c: Keys.Crypto, g: Guarded, frames: seq<Bytes>, world: World, i: nat)
    ensures var replies := Replies(c, g, frames, world, i);
            forall k :: 0 <= k < |replies| ==> |replies[k]| > 0
    ensures |Replies(c, g, frames, world, i)| <= |frames|
    decreases |frames|
  {
    hide LockedHandle;
    if frames != [] {
      ReplyNonempty(c, g, frames[0], world(i).env);
      var (reply, g') := LockedHandle(c, g, frames[0], world(i).env);
      RepliesNonempty(c, g', frames[1..], world, i + 1);
    }
  }

  ghost predicate AllWritten(world: World) {
    forall i :: world(i).write.Written?
  }

  lemma {:induction false} OutputIsFramedReplies(c: Keys.Crypto, g: Guarded, frames: seq<Bytes>, world: World, i: nat)
    requires AllWritten(world)
    ensures Serve(c, g, frames, world, i).output == Concat(Replies(c, g, frames, world, i))
    decreases |frames|
  {
    hide LockedHandle;
    if frames != [] {
      var (reply, g') := LockedHandle(c, g, frames[0], world(i).env);
      if reply.Some? {
        OutputIsFramedReplies(c, g', frames[1..], world, i + 1);
        var rest := Replies(c, g', frames[1..], world, i + 1);
        assert world(i).write.Written?;
        assert ([reply.value] + rest)[1..] == rest;
      }
    }
  }

  /** The shared state after the frames have been handled one after another. */
  function StateAfter(c: Keys.Crypto, g: Guarded, frames: seq<Bytes>, world: World, i: nat): Guarded
    decreases |frames|
  {
    if frames == [] then g
    else StateAfter(c, LockedHandle(c, g, frames[0], world(i).env).1, frames[1..], world, i + 1)
  }

  /** The last of the replies could not be written, but for `sent` bytes of it. */
  predicate LastFails(replies: seq<Bytes>, world: World, i: nat) {
    replies != [] && world(i + |replies| - 1).write.WriteFails?
  }

  lemma {:induction false} PoisonedStays(c: Keys.Crypto, g: Guarded, frames: seq<Bytes>, world: World, i: nat)
    requires g.poisoned
    ensures StateAfter(c, g, frames, world, i) == g
    decreases |frames|
  {
    if frames != [] {
      PoisonedStays(c, g, frames[1..], world, i + 1);
    }
  }

  lemma FirstWritten(c: Keys.Crypto, g: Guarded, frames: seq<Bytes>, world: World, i: nat)
    requires frames != [] && world(i).write.Written? && LockedHandle(c, g, frames[0], world(i).env).0.Some?
    ensures var (reply, g') := LockedHandle(c, g, frames[0], world(i).env);
            var rest := Serve(c, g', frames[1..], world, i + 1);
            && Replies(c, g, frames, world, i) == [reply.value] + Replies(c, g', frames[1..], world, i + 1)
            && Serve(c, g, frames, world, i) == Served(Str(reply.value) + rest.output, rest.state)
  {
    hide LockedHandle, Str;
  }

  lemma FirstNotWritten(c: Keys.Crypto, g: Guarded, frames: seq<Bytes>, world: World, i: nat)
    requires frames != [] && world(i).write.WriteFails? && LockedHandle(c, g, frames[0], world(i).env).0.Some?
    ensures var (reply, g') := LockedHandle(c, g, frames[0], world(i).env);
            && Replies(c, g, frames, world, i) == [reply.value]
            && Serve(c, g, frames, world, i) == Served(Truncate(Str(reply.value), world(i).write.sent), g')
            && StateAfter(c, g, frames[..1], world, i) == g'
  {
    hide LockedHandle, Str;
    assert frames[..1][1..] == [] && frames[..1][0] == frames[0];
  }

  lemma StateAfterFirst(c: Keys.Crypto, g: Guarded, frames: seq<Bytes>, world: World, i: nat, n: nat)
    requires 0 < n <= |frames|
    ensures StateAfter(c, g, frames[..n], world, i)
            == StateAfter(c, LockedHandle(c, g, frames[0], world(i).env).1, frames[1..][..n - 1], world, i + 1)
  {
    hide LockedHandle;
    assert frames[..n][1..] == frames[1..][..n - 1];
  }

  /** As much of the last reply as could be sent, after all of the others. */
  function Delivery(replies: seq<Bytes>, sent: nat): Bytes
    requires replies != []
  {
    var last := Str(replies[|replies| - 1]);
    Concat(replies[..|replies| - 1]) + last[..if sent < |last| then sent else |last|]
  }

  lemma DeliveryCons(first: Bytes, rest: seq<Bytes>, sent: nat)
    requires rest != []
    ensures Delivery([first] + rest, sent) == Str(first) + Delivery(rest, sent)
  {
    var all := [first] + rest;
    assert all[..|all| - 1] == [first] + rest[..|rest| - 1] && all[|all| - 1] == rest[|rest| - 1];
    hide Str, Concat;
    ConcatCons(first, rest[..|rest| - 1]);
  }

  lemma DeliveryParts(replies: seq<Bytes>, sent: nat)
    requires replies != []
    ensures Delivery(replies, sent)
            == Concat(replies[..|replies| - 1]) + Truncate(Str(replies[|replies| - 1]), sent)
  {
    hide Str, Concat;
  }

  lemma DeliveryPrefix(replies: seq<Bytes>, sent: nat)
    requires replies != []
    ensures Delivery(replies, sent) <= Concat(replies)
  {
    var init, last := replies[..|replies| - 1], replies[|replies| - 1];
    hide Str, Concat, Delivery;
    DeliveryParts(replies, sent);
    SnocParts(replies);
    ConcatOne(init, last);
  }

  lemma DeliveryOne(reply: Bytes, sent: nat)
    ensures Delivery([reply], sent) == Truncate(Str(reply), sent)
  {
    assert [reply][..0] == [];
    hide Str;
  }

  /**
   What any connection is sent: its replies, framed, in order. The loop ends with the first reply that cannot be
   written: of that one as much was sent as could be, and no later frame has been handled.
   */
  lemma {:induction false} OutputExactly(c: Keys.Crypto, g: Guarded, frames: seq<Bytes>, world: World, i: nat)
    ensures var replies, served := Replies(c, g, frames, world, i), Serve(c, g, frames, world, i);
            if LastFails(replies, world, i) then
              && |replies| <= |frames|
              && served.output == Delivery(replies, world(i + |replies| - 1).write.sent)
              && served.state == StateAfter(c, g, frames[..|replies|], world, i)
            else served.output == Concat(replies) && served.state == StateAfter(c, g, frames, world, i)
    decreases |frames|
  {
    hide LockedHandle, Str, Delivery;
    if frames != [] {
      var later := frames[1..];
      var (reply, g') := LockedHandle(c, g, frames[0], world(i).env);
      var rest := Replies(c, g', later, world, i + 1);
      if reply.None? {
        PanicPoisons(c, g, frames[0], world(i).env);
        PoisonedStays(c, g', later, world, i + 1);
      } else if world(i).write.Written? {
        OutputExactly(c, g', later, world, i + 1);
        FirstWritten(c, g, frames, world, i);
        hide Serve, Replies, Concat;
        ConcatCons(reply.value, rest);
        if LastFails(rest, world, i + 1) {
          DeliveryCons(reply.value, rest, world(i + |rest|).write.sent);
          StateAfterFirst(c, g, frames, world, i, |rest| + 1);
        }
      } else {
        FirstNotWritten(c, g, frames, world, i);
        DeliveryOne(reply.value, world(i).write.sent);
      }
    }
  }

  lemma PanicPoisons(c: Keys.Crypto, g: Guarded, buf: Bytes, env: Env)
    ensures LockedHandle(c, g, buf, env).0.None? ==> LockedHandle(c, g, buf, env).1.poisoned
  {
    hide Handle;
  }

  predicate ShortBodies(bodies: seq<Bytes>) {
    forall k :: 0 <= k < |bodies| ==> |bodies[k]| < U32_LIMIT
  }

  /**
   The client, reading the output with the same frame reader, recovers the replies one by one:
   one for each request handled, none empty, none split, none left over.
   */
  lemma ReplyStreamDecodes(c: Keys.Crypto, g: Guarded, input: Bytes, world: World)
    requires AllWritten(world)
    requires ShortBodies(Replies(c, g, AllFrames(input), world, 0))
    ensures var output := Serve(c, g, AllFrames(input), world, 0).output;
            && AllFrames(output) == Replies(c, g, AllFrames(input), world, 0)
            && Leftover(output) == []
  {
    hide LockedHandle, SplitFrame, Str;
    var frames := AllFrames(input);
    var replies := Replies(c, g, frames, world, 0);
    OutputIsFramedReplies(c, g, frames, world, 0);
    RepliesNonempty(c, g, frames, world, 0);
    assert ValidBodies(replies);
    FramesUnique(replies, []);
    assert Concat(replies) + [] == Concat(replies);
  }

  /** Every request is answered unless a thread panics. */
  lemma {:induction false} AnsweredUnlessPoisoned(c: Keys.Crypto, g: Guarded, frames: seq<Bytes>, world: World, i: nat)
    requires AllWritten(world)
    ensures |Replies(c, g, frames, world, i)| == |frames|
            <==> frames == [] || !Serve(c, g, frames, world, i).state.poisoned
    decreases |frames|
  {
    hide Handle;
    if frames != [] {
      assert world(i).write.Written?;
      var (reply, g') := LockedHandle(c, g, frames[0], world(i).env);
      if reply.Some? {
        AnsweredUnlessPoisoned(c, g', frames[1..], world, i + 1);
      }
    }
  }
}
