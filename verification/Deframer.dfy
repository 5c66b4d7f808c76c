/**
 The resynchronising deframer of the UDP and SPI receivers: an inner loop over a byte queue
 that cuts checksum-valid frames out of an arbitrarily chunked stream and drops garbage one
 byte at a time.
 */
module Deframer {
  import opened Machine

  /**
   What the loop needs to know of `Frame`, which is not part of this model.  Type and length are
   read off the first `headLen` bytes, and the checksum is judged on the first packet-length bytes.
   */
  datatype Format = Format(
    headLen: nat,
    minLen: nat,
    maxSize: nat,
    isFrame: Bytes -> bool,
    length: Bytes -> nat,
    checkSum: Bytes -> bool)

  /** A packet length of zero would keep the loop on the same byte for ever. */
  predicate Progresses(fmt: Format) {
    fmt.minLen > 0
  }

  datatype Event = Dropped(byte: uint8) | Delivered(frame: Bytes)

  datatype Decision = Wait | Drop | Deliver(length: nat)

  /** One iteration of the loop, including its guard. */
  function Decide(fmt: Format, q: Bytes): (d: Decision)
    ensures d.Drop? ==> q != []
    ensures d.Deliver? ==> fmt.minLen <= d.length <= |q|
  {
    if |q| <= fmt.headLen then Wait
    else if !fmt.isFrame(q[..fmt.headLen]) then Drop
    else
      var n := fmt.length(q[..fmt.headLen]);
      if n > fmt.maxSize || n < fmt.minLen then Drop
      else if n > |q| then Wait
      else if !fmt.checkSum(q[..n]) then Drop
      else Deliver(n)
  }

  /** What a queue turns into: the events in order, and the bytes kept for the next read. */
  function Deframe(fmt: Format, q: Bytes): (r: (seq<Event>, Bytes))
    requires Progresses(fmt)
    decreases |q|
  {
    match Decide(fmt, q)
    case Wait => ([], q)
    case Drop =>
      var (events, rest) := Deframe(fmt, q[1..]);
      ([Dropped(q[0])] + events, rest)
    case Deliver(n) =>
      var (events, rest) := Deframe(fmt, q[n..]);
      ([Delivered(q[..n])] + events, rest)
  }

  function Flatten(events: seq<Event>): Bytes {
    if events == [] then []
    else (match events[0] case Dropped(b) => [b] case Delivered(f) => f) + Flatten(events[1..])
  }

  function Concat(chunks: seq<Bytes>): Bytes {
    if chunks == [] then [] else chunks[0] + Concat(chunks[1..])
  }

  /** The whole receiver: read a chunk, deframe, keep the rest, read again. */
  function Receive(fmt: Format, kept: Bytes, chunks: seq<Bytes>): (r: (seq<Event>, Bytes))
    requires Progresses(fmt)
    decreases |chunks|
  {
    if chunks == [] then ([], kept) else
    var (events, rest) := Deframe(fmt, kept + chunks[0]);
    var (later, last) := Receive(fmt, rest, chunks[1..]);
    (events + later, last)
  }

  // ----- conservation -----

  /** Delivered frames, dropped bytes and kept bytes are the input, in order and each byte once. */
  lemma {:induction false} DeframeConserves(fmt: Format, q: Bytes)
    requires Progresses(fmt)
    ensures var (events, rest) := Deframe(fmt, q); Flatten(events) + rest == q
    decreases |q|
  {
    hide Decide, Deframe;
    DeframeStep(fmt, q);
    match Decide(fmt, q)
    case Wait =>
    case Drop =>
      DeframeConserves(fmt, q[1..]);
      var (events, rest) := Deframe(fmt, q[1..]);
      assert ([Dropped(q[0])] + events)[1..] == events;
      assert Flatten([Dropped(q[0])] + events) + rest == [q[0]] + q[1..];
    case Deliver(n) =>
      DeframeConserves(fmt, q[n..]);
      var (events, rest) := Deframe(fmt, q[n..]);
      assert ([Delivered(q[..n])] + events)[1..] == events;
      assert Flatten([Delivered(q[..n])] + events) + rest == q[..n] + q[n..];
  }

  predicate Accepts(fmt: Format, f: Bytes) {
    fmt.minLen <= |f| <= fmt.maxSize && fmt.checkSum(f)
  }

  function Max(a: int, b: int): int {
    if a < b then b else a
  }

  /** The first `n` bytes are a complete frame with a good checksum. */
  predicate FrameAt(fmt: Format, q: Bytes, n: nat) {
    && |q| > fmt.headLen && fmt.isFrame(q[..fmt.headLen]) && fmt.length(q[..fmt.headLen]) == n
    && fmt.minLen <= n <= fmt.maxSize && n <= |q| && fmt.checkSum(q[..n])
  }

  /** Too few bytes to read a header, or a good header whose frame is not all there. */
  predicate Awaits(fmt: Format, q: Bytes) {
    || |q| <= fmt.headLen
    || (fmt.isFrame(q[..fmt.headLen]) && fmt.minLen <= fmt.length(q[..fmt.headLen]) <= fmt.maxSize
        && |q| < fmt.length(q[..fmt.headLen]))
  }

  /**
   What a receiver should make of a queue: it waits only where it must, delivers a frame
   wherever one is complete, and drops a byte only where neither is so.
   */
  ghost predicate IsTrace(fmt: Format, q: Bytes, events: seq<Event>, rest: Bytes)
    decreases |events|
  {
    if events == [] then rest == q && Awaits(fmt, q)
    else
      && !Awaits(fmt, q)
      && match events[0]
         case Dropped(b) =>
           q != [] && b == q[0] && (forall n :: !FrameAt(fmt, q, n)) && IsTrace(fmt, q[1..], events[1..], rest)
         case Delivered(f) =>
           |f| <= |q| && f == q[..|f|] && FrameAt(fmt, q, |f|) && IsTrace(fmt, q[|f|..], events[1..], rest)
  }

  lemma DecideExactly(fmt: Format, q: Bytes)
    ensures Decide(fmt, q).Wait? <==> Awaits(fmt, q)
    ensures forall n :: Decide(fmt, q) == Deliver(n) <==> FrameAt(fmt, q, n)
  {
  }

  /** The loop does that and nothing else. */
  lemma {:induction false} DeframeIsTheTrace(fmt: Format, q: Bytes, events: seq<Event>, rest: Bytes)
    requires Progresses(fmt)
    ensures IsTrace(fmt, q, events, rest) <==> Deframe(fmt, q) == (events, rest)
    decreases |q|
  {
    hide Decide, Deframe, Awaits, FrameAt;
    DeframeStep(fmt, q);
    DecideExactly(fmt, q);
    match Decide(fmt, q)
    case Wait =>
    case Drop =>
      var (es, _) := Deframe(fmt, q[1..]);
      assert ([Dropped(q[0])] + es)[1..] == es;
      if events != [] {
        DeframeIsTheTrace(fmt, q[1..], events[1..], rest);
        assert events == [events[0]] + events[1..];
      }
    case Deliver(n) =>
      var (es, _) := Deframe(fmt, q[n..]);
      assert ([Delivered(q[..n])] + es)[1..] == es;
      assert FrameAt(fmt, q, n);
      if events != [] {
        DeframeIsTheTrace(fmt, q[n..], events[1..], rest);
        assert events == [events[0]] + events[1..];
      }
  }

  /** Only frames within the limits and with a good checksum come out; what is kept is short and stays put. */
  lemma {:induction false} DeframeDelivers(fmt: Format, q: Bytes)
    requires Progresses(fmt)
    ensures var (events, rest) := Deframe(fmt, q);
            && (forall e :: e in events && e.Delivered? ==> Accepts(fmt, e.frame))
            && Decide(fmt, rest) == Wait
            && Awaits(fmt, rest)
            && |rest| <= Max(fmt.headLen, fmt.maxSize - 1)
    decreases |q|
  {
    match Decide(fmt, q)
    case Wait =>
    case Drop => DeframeDelivers(fmt, q[1..]);
    case Deliver(n) => DeframeDelivers(fmt, q[n..]);
  }

  // ----- chunking -----

  /** Bytes that arrive later do not change a decision that was already possible. */
  lemma DecisionStands(fmt: Format, q: Bytes, more: Bytes)
    requires Decide(fmt, q) != Wait
    ensures Decide(fmt, q + more) == Decide(fmt, q)
  {
    assert (q + more)[..fmt.headLen] == q[..fmt.headLen];
    var n := fmt.length(q[..fmt.headLen]);
    if n <= |q| {
      assert (q + more)[..n] == q[..n];
    }
  }

  /** One iteration, then the rest of the queue. */
  lemma DeframeStep(fmt: Format, q: Bytes)
    requires Progresses(fmt)
    ensures Deframe(fmt, q) ==
            match Decide(fmt, q)
            case Wait => ([], q)
            case Drop => ([Dropped(q[0])] + Deframe(fmt, q[1..]).0, Deframe(fmt, q[1..]).1)
            case Deliver(n) => ([Delivered(q[..n])] + Deframe(fmt, q[n..]).0, Deframe(fmt, q[n..]).1)
  {
  }

  /** Deframing what is there and going on with more is deframing it all at once. */
  lemma {:induction false} DeframeInTwo(fmt: Format, q: Bytes, more: Bytes)
    requires Progresses(fmt)
    ensures var (events, rest) := Deframe(fmt, q);
            var (later, last) := Deframe(fmt, rest + more);
            Deframe(fmt, q + more) == (events + later, last)
    decreases |q|
  {
    hide Decide, Deframe;
    var (events, rest) := Deframe(fmt, q);
    var (later, last) := Deframe(fmt, rest + more);
    DeframeStep(fmt, q);
    DeframeStep(fmt, q + more);
    match Decide(fmt, q)
    case Wait =>
      assert [] + later == later;
    case Drop =>
      DecisionStands(fmt, q, more);
      assert (q + more)[1..] == q[1..] + more;
      DeframeInTwo(fmt, q[1..], more);
      var (events', _) := Deframe(fmt, q[1..]);
      assert [Dropped(q[0])] + (events' + later) == events + later;
    case Deliver(n) =>
      DecisionStands(fmt, q, more);
      assert (q + more)[n..] == q[n..] + more && (q + more)[..n] == q[..n];
      DeframeInTwo(fmt, q[n..], more);
      var (events', _) := Deframe(fmt, q[n..]);
      assert [Delivered(q[..n])] + (events' + later) == events + later;
  }

  /** However the stream is cut into chunks, the receiver sees the stream. */
  lemma {:induction false} ReceiveIsDeframe(fmt: Format, kept: Bytes, chunks: seq<Bytes>)
    requires Progresses(fmt) && Decide(fmt, kept) == Wait
    ensures Receive(fmt, kept, chunks) == Deframe(fmt, kept + Concat(chunks))
    decreases |chunks|
  {
    hide Decide, Deframe;
    if chunks == [] {
      assert kept + [] == kept;
      StuckStays(fmt, kept);
    } else {
      var q := kept + chunks[0];
      var (events, rest) := Deframe(fmt, q);
      DeframeDelivers(fmt, q);
      ReceiveIsDeframe(fmt, rest, chunks[1..]);
      DeframeInTwo(fmt, q, Concat(chunks[1..]));
      assert kept + Concat(chunks) == q + Concat(chunks[1..]);
    }
  }

  lemma StuckStays(fmt: Format, kept: Bytes)
    requires Progresses(fmt) && Decide(fmt, kept) == Wait
    ensures Deframe(fmt, kept) == ([], kept)
  {
  }

  /** Any two ways of cutting one stream into reads give the same frames and the same rest. */
  lemma ChunkingIndependence(fmt: Format, one: seq<Bytes>, other: seq<Bytes>)
    requires Progresses(fmt) && Concat(one) == Concat(other)
    ensures Receive(fmt, [], one) == Receive(fmt, [], other)
  {
    hide Deframe, Receive;
    ReceiveIsDeframe(fmt, [], one);
    ReceiveIsDeframe(fmt, [], other);
  }

  // ----- streams of good frames -----

  /** A frame the loop recognises once all of it is there. */
  predicate Recognised(fmt: Format, f: Bytes) {
    && |f| > fmt.headLen
    && fmt.isFrame(f[..fmt.headLen])
    && fmt.length(f[..fmt.headLen]) == |f|
    && Accepts(fmt, f)
  }

  function AllDelivered(frames: seq<Bytes>): seq<Event> {
    if frames == [] then [] else [Delivered(frames[0])] + AllDelivered(frames[1..])
  }

  /** Frames laid end to end are delivered one by one, and what follows them is deframed as it stands. */
  lemma {:induction false} FramesAreDelivered(fmt: Format, frames: seq<Bytes>, tail: Bytes)
    requires Progresses(fmt) && forall f :: f in frames ==> Recognised(fmt, f)
    ensures var (later, rest) := Deframe(fmt, tail);
            Deframe(fmt, Concat(frames) + tail) == (AllDelivered(frames) + later, rest)
    decreases |frames|
  {
    hide Decide, Deframe, Recognised, Concat, AllDelivered;
    var (later, rest) := Deframe(fmt, tail);
    if frames == [] {
      NoFrames();
      assert Concat(frames) + tail == tail && [] + later == later;
    } else {
      var f, more := frames[0], Concat(frames[1..]) + tail;
      ConcatStep(frames, tail);
      FrameIsDecided(fmt, f, more);
      DeframeStep(fmt, f + more);
      assert (f + more)[|f|..] == more && (f + more)[..|f|] == f;
      FramesAreDelivered(fmt, frames[1..], tail);
      assert [Delivered(f)] + (AllDelivered(frames[1..]) + later) == AllDelivered(frames) + later;
    }
  }

  lemma NoFrames()
    ensures Concat([]) == [] && AllDelivered([]) == []
  {
  }

  lemma ConcatStep(frames: seq<Bytes>, tail: Bytes)
    requires frames != []
    ensures Concat(frames) + tail == frames[0] + (Concat(frames[1..]) + tail)
    ensures AllDelivered(frames) == [Delivered(frames[0])] + AllDelivered(frames[1..])
  {
  }

  lemma FrameIsDecided(fmt: Format, f: Bytes, more: Bytes)
    requires Recognised(fmt, f)
    ensures Decide(fmt, f + more) == Deliver(|f|)
  {
    assert (f + more)[..fmt.headLen] == f[..fmt.headLen];
    assert (f + more)[..|f|] == f;
  }

  function AllDropped(noise: Bytes): seq<Event> {
    if noise == [] then [] else [Dropped(noise[0])] + AllDropped(noise[1..])
  }

  /** Noise that nowhere looks like a frame is dropped byte by byte, and the stream after it is found again. */
  lemma {:induction false} NoiseIsDropped(fmt: Format, noise: Bytes, tail: Bytes)
    requires Progresses(fmt)
    requires forall i :: 0 <= i < |noise| ==> Decide(fmt, noise[i..] + tail) == Drop
    ensures var (later, rest) := Deframe(fmt, tail);
            Deframe(fmt, noise + tail) == (AllDropped(noise) + later, rest)
    decreases |noise|
  {
    var (later, rest) := Deframe(fmt, tail);
    if noise == [] {
      assert noise + tail == tail && [] + later == later;
    } else {
      assert noise[0..] == noise;
      assert (noise + tail)[1..] == noise[1..] + tail;
      forall i | 0 <= i < |noise[1..]| ensures Decide(fmt, noise[1..][i..] + tail) == Drop {
        assert noise[1..][i..] == noise[i + 1..];
      }
      NoiseIsDropped(fmt, noise[1..], tail);
      assert [Dropped(noise[0])] + (AllDropped(noise[1..]) + later) == AllDropped(noise) + later;
    }
  }

  // ----- the program -----

  const QUEUE_CAPACITY: nat := 4096
  const READ_SIZE: nat := 2048

  class Receiver {
    const fmt: Format
    var queue: Bytes
    var delivered: seq<Bytes>
    ghost var events: seq<Event>

    ghost predicate Valid()
      reads this
    {
      && Progresses(fmt)
      && delivered == Frames(events)
      && |queue| <= QUEUE_CAPACITY
    }

    constructor (fmt: Format)
      requires Progresses(fmt)
      ensures Valid() && this.fmt == fmt && queue == [] && events == []
    {
      this.fmt := fmt;
      queue, delivered, events := [], [], [];
    }

    /** A read and the loop after it; the queue must have room for the read. */
    method Feed(buff: Bytes)
      requires Valid() && |queue| + |buff| <= QUEUE_CAPACITY
      modifies this
      ensures Valid() && |queue| <= Max(fmt.headLen, fmt.maxSize - 1)
      ensures Awaits(fmt, queue)
      ensures var (newEvents, rest) := Deframe(fmt, old(queue) + buff);
              events == old(events) + newEvents && queue == rest
    {
      hide Frames;
      if |buff| > 0 {
        queue := queue + buff;
      } else {
        assert queue + buff == queue;
      }
      ghost var start := queue;
      assert events + Deframe(fmt, queue).0 == old(events) + Deframe(fmt, start).0;
      while |queue| > fmt.headLen
        invariant Valid()
        invariant events + Deframe(fmt, queue).0 == old(events) + Deframe(fmt, start).0
        invariant Deframe(fmt, queue).1 == Deframe(fmt, start).1
        decreases |queue|
      {
        ghost var q := queue;
        if !fmt.isFrame(queue[..fmt.headLen]) {
          PopFront();
          continue;
        }
        var packetLen := fmt.length(queue[..fmt.headLen]);
        if packetLen > fmt.maxSize || packetLen < fmt.minLen {
          PopFront();
          continue;
        }
        if packetLen > |queue| {
          break;
        }
        if !fmt.checkSum(queue[..packetLen]) {
          PopFront();
          continue;
        } else {
          PopFrontBlock(packetLen);
        }
      }
      assert events + [] == events;
      DeframeDelivers(fmt, start);
    }

    method PopFront()
      requires Valid() && queue != []
      modifies this
      ensures Valid() && queue == old(queue)[1..] && events == old(events) + [Dropped(old(queue)[0])]
      ensures forall later :: events + later == old(events) + ([Dropped(old(queue)[0])] + later)
    {
      FramesOfDrop(events, queue[0]);
      events := events + [Dropped(queue[0])];
      queue := queue[1..];
    }

    method PopFrontBlock(n: nat)
      requires Valid() && n <= |queue|
      modifies this
      ensures Valid() && queue == old(queue)[n..] && events == old(events) + [Delivered(old(queue)[..n])]
      ensures forall later :: events + later == old(events) + ([Delivered(old(queue)[..n])] + later)
    {
      FramesOfDelivery(events, queue[..n]);
      events := events + [Delivered(queue[..n])];
      delivered := delivered + [queue[..n]];
      queue := queue[n..];
    }

    /**
     The program's outer loop over the reads it gets.  With frames of at most 2049 bytes and a header
     of at most 2048 the queue always has room for the next read, so the whole stream gets through.
     */
    method Loop(chunks: seq<Bytes>)
      requires Valid() && queue == [] && events == []
      requires fmt.headLen <= READ_SIZE && fmt.maxSize <= READ_SIZE + 1
      requires forall b :: b in chunks ==> |b| <= READ_SIZE
      modifies this
      ensures Valid() && (events, queue) == Deframe(fmt, Concat(chunks))
      ensures delivered == Frames(Deframe(fmt, Concat(chunks)).0)
    {
      hide Deframe, Frames;
      assert events + Receive(fmt, queue, chunks[0..]).0 == Receive(fmt, [], chunks).0;
      for i := 0 to |chunks|
        invariant Valid() && |queue| <= READ_SIZE
        invariant Receive(fmt, [], chunks) ==
                  (events + Receive(fmt, queue, chunks[i..]).0, Receive(fmt, queue, chunks[i..]).1)
      {
        ghost var q, es := queue, events;
        Feed(chunks[i]);
        assert chunks[i..][1..] == chunks[i + 1..];
        assert es + Receive(fmt, q, chunks[i..]).0 == events + Receive(fmt, queue, chunks[i + 1..]).0;
      }
      assert events + [] == events;
      ReceiveIsDeframe(fmt, [], chunks);
      assert [] + Concat(chunks) == Concat(chunks);
    }
  }

  /** The frames among the events. */
  function Frames(events: seq<Event>): seq<Bytes> {
    if events == [] then []
    else (match events[0] case Dropped(_) => [] case Delivered(f) => [f]) + Frames(events[1..])
  }

  lemma {:induction false} FramesOfDrop(events: seq<Event>, b: uint8)
    ensures Frames(events + [Dropped(b)]) == Frames(events)
  {
    if events == [] {
      assert (events + [Dropped(b)])[1..] == [];
    } else {
      assert (events + [Dropped(b)])[1..] == events[1..] + [Dropped(b)];
      FramesOfDrop(events[1..], b);
    }
  }

  lemma {:induction false} FramesOfDelivery(events: seq<Event>, f: Bytes)
    ensures Frames(events + [Delivered(f)]) == Frames(events) + [f]
  {
    if events == [] {
      assert (events + [Delivered(f)])[1..] == [];
    } else {
      assert (events + [Delivered(f)])[1..] == events[1..] + [Delivered(f)];
      FramesOfDelivery(events[1..], f);
    }
  }
}
