/** The framing of src/utils.rs: four bytes of length, then that many bytes; a zero length ends the stream. */
module Frames {
  import opened Wrappers
  import opened Wire
  import opened Sequences

  /** The first complete non-empty frame of `b`, and what follows it. */
  function SplitFrame(b: Bytes): (r: Option<(Bytes, Bytes)>)
    ensures r.Some? ==> 0 < |r.value.0| < U32_LIMIT && |b| == 4 + |r.value.0| + |r.value.1|
  {
    if |b| < 4 then None
    else
      var len := FromBe32(b[..4]);
      if len == 0 || |b| - 4 < len then None else Some((b[4..4 + len], b[4 + len..]))
  }

  /** The bodies of the longest run of complete non-empty frames at the front of `b`. */
  function AllFrames(b: Bytes): seq<Bytes>
    decreases |b|
  {
    match SplitFrame(b)
    case None => []
    case Some((frame, rest)) => [frame] + AllFrames(rest)
  }

  /** What is left after that run. */
  function Leftover(b: Bytes): Bytes
    decreases |b|
  {
    match SplitFrame(b)
    case None => b
    case Some((_, rest)) => Leftover(rest)
  }

  function Concat(bodies: seq<Bytes>): Bytes {
    if bodies == [] then [] else Str(bodies[0]) + Concat(bodies[1..])
  }

  /** Lengths that the four bytes can express, and that do not mean "end of stream". */
  predicate ValidBodies(bodies: seq<Bytes>) {
    forall i :: 0 <= i < |bodies| ==> 0 < |bodies[i]| < U32_LIMIT
  }

  /** No frame starts here: the header is cut, the length is zero, or the body is cut. */
  predicate Stuck(b: Bytes) {
    || |b| < 4
    || b[..4] == [0, 0, 0, 0]
    || |b| - 4 < FromBe32(b[..4])
  }

  lemma StuckExactly(b: Bytes)
    ensures Stuck(b) <==> SplitFrame(b).None?
  {
    if |b| >= 4 {
      var h := b[..4];
      assert FromBe32(h) == 0 ==> h == [0, 0, 0, 0];
    }
  }

  lemma SplitFramed(body: Bytes, tail: Bytes)
    requires 0 < |body| < U32_LIMIT
    ensures SplitFrame(Str(body) + tail) == Some((body, tail))
  {
    hide Be32, FromBe32;
    var b := Str(body) + tail;
    assert b[..4] == Be32(|body|);
    FromBe32Be32(|body|);
    assert b[4..4 + |body|] == body;
    assert b[4 + |body|..] == tail;
  }

  lemma FramedSplit(b: Bytes)
    requires SplitFrame(b).Some?
    ensures b == Str(SplitFrame(b).value.0) + SplitFrame(b).value.1
  {
    Be32FromBe32(b[..4]);
    assert b == b[..4] + b[4..];
  }

  lemma ConcatCons(body: Bytes, bodies: seq<Bytes>)
    ensures Concat([body] + bodies) == Str(body) + Concat(bodies)
  {
    TailOfCons(body, bodies);
    hide Str;
  }

  /** The bodies and the leftover account for every byte, and the run of frames cannot be continued. */
  lemma {:induction false} FramesAndLeftover(b: Bytes)
    ensures ValidBodies(AllFrames(b)) && Stuck(Leftover(b))
    ensures b == Concat(AllFrames(b)) + Leftover(b)
    decreases |b|
  {
    hide FromBe32, Be32, Str, Stuck, Concat;
    StuckExactly(b);
    if SplitFrame(b).Some? {
      FramedSplit(b);
      hide SplitFrame;
      var (body, rest) := SplitFrame(b).value;
      FramesAndLeftover(rest);
      ConcatCons(body, AllFrames(rest));
      Assoc(Str(body), Concat(AllFrames(rest)), Leftover(rest));
    } else {
      ConcatNil(b);
    }
  }

  lemma ConcatNil(b: Bytes)
    ensures Concat([]) + b == b
  {
  }

  /** Reading undoes framing: there is no other way to cut a stream into frames. */
  lemma {:induction false} FramesOfConcat(bodies: seq<Bytes>, tail: Bytes)
    requires ValidBodies(bodies)
    ensures AllFrames(Concat(bodies) + tail) == bodies + AllFrames(tail)
    ensures Leftover(Concat(bodies) + tail) == Leftover(tail)
  {
    hide SplitFrame, Str, Concat;
    if bodies == [] {
      ConcatNil(tail);
      Unit(AllFrames(tail));
    } else {
      var rest := Concat(bodies[1..]) + tail;
      HeadTail(bodies);
      ConcatCons(bodies[0], bodies[1..]);
      Assoc(Str(bodies[0]), Concat(bodies[1..]), tail);
      SplitFramed(bodies[0], rest);
      FramesOfConcat(bodies[1..], tail);
      Assoc([bodies[0]], bodies[1..], AllFrames(tail));
    }
  }

  lemma StuckHasNoFrames(b: Bytes)
    requires Stuck(b)
    ensures AllFrames(b) == [] && Leftover(b) == b
  {
    StuckExactly(b);
  }

  /** Any decomposition into valid bodies and a stuck rest is the one the reader finds. */
  lemma FramesUnique(bodies: seq<Bytes>, tail: Bytes)
    requires ValidBodies(bodies) && Stuck(tail)
    ensures AllFrames(Concat(bodies) + tail) == bodies && Leftover(Concat(bodies) + tail) == tail
  {
    FramesOfConcat(bodies, tail);
    StuckHasNoFrames(tail);
  }

  lemma {:induction false} ConcatAppend(a: seq<Bytes>, b: seq<Bytes>)
    ensures Concat(a + b) == Concat(a) + Concat(b)
  {
    hide Str, Concat;
    if a == [] {
      Unit(b);
      ConcatNil(Concat(b));
    } else {
      HeadTail(a);
      ConcatCons(a[0], a[1..]);
      Assoc([a[0]], a[1..], b);
      ConcatCons(a[0], a[1..] + b);
      ConcatAppend(a[1..], b);
      Assoc(Str(a[0]), Concat(a[1..]), Concat(b));
    }
  }

  lemma ConcatOne(a: seq<Bytes>, body: Bytes)
    ensures Concat(a + [body]) == Concat(a) + Str(body)
  {
    hide Str;
    ConcatAppend(a, [body]);
    ConcatCons(body, []);
    Unit(Str(body));
    Unit([body]);
  }
}
