/** Cutting the byte stream of a connection into packets, whatever segments it arrives in. */
module Framing {
  import opened Wrappers
  import opened Bytes
  import opened Chunk

  // process returned True, returned False, or raised.
  datatype Outcome = Continue | Close | Raise
  datatype Step<+P> = Step(next: P, outcome: Outcome)

  /** What UaProcessor.process does with one header and its body, as a function of its state. */
  type Process<!P> = (P, Header, Bytes) -> Step<P>

  datatype Protocol<+P> = Protocol(data: Bytes, processor: P, closed: bool)

  datatype Ending = Waiting | Closed | Failed
  datatype Drained<+P> = Drained(processor: P, rest: Bytes, ending: Ending)

  /** The loop over one stretch of data. A size below the header's own ends the model's run as a failure. */
  function Drain<P>(process: Process<P>, processor: P, data: Bytes): Drained<P>
    decreases |data|
  {
    var h := HeaderFromBinary(data);
    if h.Err? then Drained(processor, data, Waiting)
    else
      var (header, body) := (h.value.value, h.value.rest);
      if header.bodySize < 0 then Drained(processor, [], Failed)
      else if |body| < header.bodySize then Drained(processor, data, Waiting)
      else
        var s := process(processor, header, body[..header.bodySize]);
        match s.outcome
        case Continue => Drain(process, s.next, body[header.bodySize..])
        case Close => Drained(s.next, [], Closed)
        case Raise => Drained(s.next, [], Failed)
  }

  function Feed<P>(process: Process<P>, state: Protocol<P>, segment: Bytes): Protocol<P> {
    if state.closed then state
    else
      var d := Drain(process, state.processor, state.data + segment);
      Protocol(d.rest, d.processor, d.ending == Closed)
  }

  function FeedAll<P>(process: Process<P>, state: Protocol<P>, segments: seq<Bytes>): Protocol<P>
    decreases |segments|
  {
    if segments == [] then state else FeedAll(process, Feed(process, state, segments[0]), segments[1..])
  }

  /** One connection of the server; no data arrives after its transport is closed. */
  class OPCUAProtocol<P> {
    const process: Process<P>
    var data: Bytes
    var processor: P
    var closed: bool

    function State(): Protocol<P>
      reads this
    {
      Protocol(data, processor, closed)
    }

    constructor (process: Process<P>, processor: P)
      ensures this.process == process && State() == Protocol([], processor, false)
    {
      this.process := process;
      this.data, this.processor, this.closed := [], processor, false;
    }

    method DataReceived(segment: Bytes)
      requires !closed
      modifies this
      ensures State() == Feed(process, old(State()), segment)
    {
      var received := segment;
      if data != [] {
        received := data + segment;
        data := [];
      } else {
        assert data + segment == segment;
      }
      ProcessData(received);
    }

    method ProcessData(received: Bytes)
      requires !closed && data == []
      modifies this
      ensures var d := Drain(process, old(processor), received);
              State() == Protocol(d.rest, d.processor, d.ending == Closed)
    {
      hide HeaderFromBinary;
      var buf := new Buffer(received);
      while true
        invariant buf.Valid() && fresh(buf) && !closed && data == []
        invariant Drain(process, processor, buf.Contents()) == Drain(process, old(processor), received)
        decreases |buf.Contents()|
      {
        var backup := buf.Copy(buf.size);
        assert backup.Contents() == buf.Contents();
        var h := HeaderFromBinary(buf.Contents());
        if h.Err? {
          var rest := backup.Read(backup.size);
          data := rest.value;
          return;
        }
        var header := h.value.value;
        var _ := buf.Skip(buf.size - |h.value.rest|);
        if header.bodySize < 0 {
          return;
        }
        if buf.size < header.bodySize {
          var rest := backup.Read(backup.size);
          data := rest.value;
          return;
        }
        var body := buf.Read(header.bodySize);
        var s := process(processor, header, body.value);
        processor := s.next;
        if s.outcome == Close {
          closed := true;
          return;
        }
        if s.outcome == Raise {
          return;
        }
        if buf.size == 0 {
          NothingToDrain(process, processor);
          return;
        }
      }
    }
  }

  lemma NothingToDrain<P>(process: Process<P>, processor: P)
    ensures Drain(process, processor, []) == Drained(processor, [], Waiting)
  {
  }

  // ----- Segmentation -----

  lemma HeaderOfPrefix(a: Bytes, b: Bytes)
    requires HeaderFromBinary(a).Ok?
    ensures var h := HeaderFromBinary(a).value;
            HeaderFromBinary(a + b) == Ok(Cursor(h.value, h.rest + b))
  {
    assert (a + b)[..8] == a[..8] && (a + b)[8..] == a[8..] + b;
    var size := |a| - |HeaderFromBinary(a).value.rest|;
    if size == 12 {
      assert (a[8..] + b)[..4] == a[8..][..4] && (a[8..] + b)[4..] == a[8..][4..] + b;
    }
  }

  /** Draining a and then the rest with b is draining a + b at once, unless a already ended the run. */
  lemma {:induction false} DrainAppend<P>(process: Process<P>, processor: P, a: Bytes, b: Bytes)
    ensures var first := Drain(process, processor, a);
            var whole := Drain(process, processor, a + b);
            match first.ending
            case Waiting => whole == Drain(process, first.processor, first.rest + b)
            case Closed => whole == first
            case Failed => whole == first
    decreases |a|
  {
    var h := HeaderFromBinary(a);
    if h.Ok? {
      HeaderOfPrefix(a, b);
      hide HeaderFromBinary;
      var header, body := h.value.value, h.value.rest;
      if 0 <= header.bodySize <= |body| {
        assert (body + b)[..header.bodySize] == body[..header.bodySize];
        assert (body + b)[header.bodySize..] == body[header.bodySize..] + b;
        var s := process(processor, header, body[..header.bodySize]);
        if s.outcome == Continue {
          DrainAppend(process, s.next, body[header.bodySize..], b);
        }
      }
    }
  }

  /** What is left waiting holds no complete packet. */
  ghost predicate Settled<P>(process: Process<P>, state: Protocol<P>) {
    state.closed || Drain(process, state.processor, state.data) == Drained(state.processor, state.data, Waiting)
  }

  lemma {:induction false} DrainSettles<P>(process: Process<P>, processor: P, data: Bytes)
    ensures var d := Drain(process, processor, data);
            if d.ending == Waiting then Drain(process, d.processor, d.rest) == d else d.rest == []
    decreases |data|
  {
    var h := HeaderFromBinary(data);
    if h.Ok? && 0 <= h.value.value.bodySize <= |h.value.rest| {
      var header, body := h.value.value, h.value.rest;
      var s := process(processor, header, body[..header.bodySize]);
      if s.outcome == Continue {
        DrainSettles(process, s.next, body[header.bodySize..]);
      }
    }
  }

  /**
   However the stream is cut into segments, the processor sees the same calls and the same
   bytes are left over as from one call, provided that the one call does not end in an exception.
   */
  lemma {:induction false} SegmentationIndependence<P>(process: Process<P>, state: Protocol<P>, segments: seq<Bytes>)
    requires Settled(process, state)
    requires !state.closed ==> Drain(process, state.processor, state.data + Join(segments)).ending != Failed
    ensures FeedAll(process, state, segments) == Feed(process, state, Join(segments))
    decreases |segments|
  {
    if state.closed {
      StaysClosed(process, state, segments);
    } else if segments == [] {
      assert state.data + [] == state.data;
    } else {
      var a, b := state.data + segments[0], Join(segments[1..]);
      DrainAppend(process, state.processor, a, b);
      assert a + b == state.data + Join(segments);
      DrainSettles(process, state.processor, a);
      SegmentationIndependence(process, Feed(process, state, segments[0]), segments[1..]);
    }
  }

  lemma {:induction false} StaysClosed<P>(process: Process<P>, state: Protocol<P>, segments: seq<Bytes>)
    requires state.closed
    ensures FeedAll(process, state, segments) == state
  {
    if segments != [] {
      StaysClosed(process, state, segments[1..]);
    }
  }

  /**
   An exception drops the rest of its segment but leaves the connection open, so after one the cut
   matters: a + b in one call or in two agree exactly when b alone would have no effect.
   */
  lemma ExceptionDropsRest<P>(process: Process<P>, processor: P, a: Bytes, b: Bytes)
    requires Drain(process, processor, a).ending == Failed
    ensures var start := Protocol([], processor, false);
            var after := Protocol([], Drain(process, processor, a).processor, false);
            Feed(process, Feed(process, start, a), b) == Feed(process, start, a + b) <==>
              Feed(process, after, b) == after
  {
    DrainAppend(process, processor, a, b);
    var start := Protocol([], processor, false);
    DrainSettles(process, processor, a);
    hide Drain;
    assert [] + (a + b) == a + b && [] + a == a;
  }

  /** A processor that raises on every packet sees one packet or two, by the cut. */
  lemma ExceptionDependsOnSegments() returns (process: Process<nat>, packet: Bytes)
    ensures var start := Protocol([], 0, false);
            Feed(process, Feed(process, start, packet), packet) != Feed(process, start, packet + packet)
  {
    process := (count, header, body) => Step(count + 1, Raise);
    packet := [72, 69, 76, 70, 8, 0, 0, 0];   // a Hello header with an empty body
    assert packet[..8] == packet && packet[8..] == [] && packet[..3] == [72, 69, 76] && packet[4..] == [8, 0, 0, 0];
    assert HeaderFromBinary(packet) == Ok(Cursor(Header([72, 69, 76], 70, 0, 0), []));
    assert [] + packet == packet;
    ExceptionDropsRest(process, 0, packet, packet);
  }

  // ----- Streams of packets -----

  /** A size field below the size of the header ends the call as an exception does. */
  lemma SizeBelowHeaderFails<P>(process: Process<P>, processor: P, data: Bytes)
    requires HeaderFromBinary(data).Ok? && HeaderFromBinary(data).value.value.bodySize < 0
    ensures Feed(process, Protocol([], processor, false), data) == Protocol([], processor, false)
  {
    hide HeaderFromBinary;
    assert [] + data == data;
  }

  predicate IsPacket(packet: Bytes) {
    var h := HeaderFromBinary(packet);
    h.Ok? && h.value.value.bodySize == |h.value.rest|
  }

  predicate Incomplete(tail: Bytes) {
    var h := HeaderFromBinary(tail);
    h.Err? || |h.value.rest| < h.value.value.bodySize
  }

  function ProcessPacket<P>(process: Process<P>, processor: P, packet: Bytes): Step<P>
    requires IsPacket(packet)
  {
    var h := HeaderFromBinary(packet).value;
    process(processor, h.value, h.rest)
  }

  /** The processor after the packets, if it goes on after every one of them. */
  function ProcessAll<P>(process: Process<P>, processor: P, packets: seq<Bytes>): Option<P>
    requires forall p | p in packets :: IsPacket(p)
    decreases |packets|
  {
    if packets == [] then Some(processor)
    else
      var s := ProcessPacket(process, processor, packets[0]);
      if s.outcome == Continue then ProcessAll(process, s.next, packets[1..]) else None
  }

  lemma {:induction false} ProcessAppend<P>(process: Process<P>, processor: P, a: seq<Bytes>, b: seq<Bytes>)
    requires (forall p | p in a :: IsPacket(p)) && (forall p | p in b :: IsPacket(p))
    requires ProcessAll(process, processor, a).Some?
    ensures forall p | p in a + b :: IsPacket(p)
    ensures ProcessAll(process, processor, a + b) == ProcessAll(process, ProcessAll(process, processor, a).value, b)
    decreases |a|
  {
    hide IsPacket;
    if a == [] {
      assert a + b == b;
    } else {
      assert (a + b)[0] == a[0] && (a + b)[1..] == a[1..] + b;
      ProcessAppend(process, ProcessPacket(process, processor, a[0]).next, a[1..], b);
    }
  }

  lemma {:induction false} DrainPackets<P>(process: Process<P>, processor: P, packets: seq<Bytes>, tail: Bytes)
    requires forall p | p in packets :: IsPacket(p)
    requires Incomplete(tail) && ProcessAll(process, processor, packets).Some?
    ensures Drain(process, processor, Join(packets) + tail)
            == Drained(ProcessAll(process, processor, packets).value, tail, Waiting)
    decreases |packets|
  {
    if packets == [] {
      assert [] + tail == tail;
    } else {
      var packet, others := packets[0], Join(packets[1..]) + tail;
      assert Join(packets) + tail == packet + others;
      assert IsPacket(packet) by { assert packet in packets; }
      HeaderOfPrefix(packet, others);
      var h := HeaderFromBinary(packet).value;
      assert (h.rest + others)[..|h.rest|] == h.rest && (h.rest + others)[|h.rest|..] == others;
      hide HeaderFromBinary;
      DrainPackets(process, ProcessPacket(process, processor, packet).next, packets[1..], tail);
    }
  }

  /**
   Whole packets and an incomplete tail, in any segments: each packet is processed once and in order, and
   the tail is kept.
   */
  lemma StreamOfPackets<P>(process: Process<P>, processor: P, packets: seq<Bytes>, tail: Bytes, segments: seq<Bytes>)
    requires forall p | p in packets :: IsPacket(p)
    requires Incomplete(tail) && ProcessAll(process, processor, packets).Some?
    requires Join(segments) == Join(packets) + tail
    ensures FeedAll(process, Protocol([], processor, false), segments)
            == Protocol(tail, ProcessAll(process, processor, packets).value, false)
  {
    DrainPackets(process, processor, packets, tail);
    var fresh_ := Protocol([], processor, false);
    assert [] + Join(segments) == Join(segments);
    SegmentationIndependence(process, fresh_, segments);
  }

  /** After the packet on which the processor closes, nothing more is looked at. */
  lemma {:induction false} DrainUntilClose<P>(process: Process<P>, processor: P, packets: seq<Bytes>, last: Bytes,
                                              tail: Bytes)
    requires (forall p | p in packets :: IsPacket(p)) && IsPacket(last)
    requires var before := ProcessAll(process, processor, packets);
             before.Some? && ProcessPacket(process, before.value, last).outcome == Close
    ensures Drain(process, processor, Join(packets) + last + tail) ==
            Drained(ProcessPacket(process, ProcessAll(process, processor, packets).value, last).next, [], Closed)
    decreases |packets|
  {
    if packets == [] {
      assert Join(packets) + last + tail == last + tail;
      HeaderOfPrefix(last, tail);
      var h := HeaderFromBinary(last).value;
      assert (h.rest + tail)[..|h.rest|] == h.rest;
    } else {
      var packet, others := packets[0], Join(packets[1..]) + last + tail;
      assert Join(packets) + last + tail == packet + others;
      assert IsPacket(packet) by { assert packet in packets; }
      HeaderOfPrefix(packet, others);
      var h := HeaderFromBinary(packet).value;
      assert (h.rest + others)[..|h.rest|] == h.rest && (h.rest + others)[|h.rest|..] == others;
      hide HeaderFromBinary;
      DrainUntilClose(process, ProcessPacket(process, processor, packet).next, packets[1..], last, tail);
    }
  }

  /** Packets up to one that closes, and anything after it, in any segments. */
  lemma StreamUntilClose<P>(process: Process<P>, processor: P, packets: seq<Bytes>, last: Bytes, tail: Bytes,
                            segments: seq<Bytes>)
    requires (forall p | p in packets :: IsPacket(p)) && IsPacket(last)
    requires var before := ProcessAll(process, processor, packets);
             before.Some? && ProcessPacket(process, before.value, last).outcome == Close
    requires Join(segments) == Join(packets) + last + tail
    ensures FeedAll(process, Protocol([], processor, false), segments) ==
            Protocol([], ProcessPacket(process, ProcessAll(process, processor, packets).value, last).next, true)
  {
    DrainUntilClose(process, processor, packets, last, tail);
    assert [] + Join(segments) == Join(segments);
    SegmentationIndependence(process, Protocol([], processor, false), segments);
  }

  lemma PrefixIsIncomplete(a: Bytes, b: Bytes)
    requires IsPacket(a + b) && b != []
    ensures Incomplete(a)
  {
    if HeaderFromBinary(a).Ok? {
      HeaderOfPrefix(a, b);
    }
  }

  /** A packet on which the processor raises, in any segments: it is seen once, and nothing is kept. */
  lemma {:induction false} RaisingPacket<P>(process: Process<P>, processor: P, data: Bytes, segments: seq<Bytes>)
    requires IsPacket(data + Join(segments))
             && ProcessPacket(process, processor, data + Join(segments)).outcome == Raise
    requires Join(segments) != []
    ensures FeedAll(process, Protocol(data, processor, false), segments) ==
            Protocol([], ProcessPacket(process, processor, data + Join(segments)).next, false)
    decreases |segments|
  {
    var packet, a, rest := data + Join(segments), data + segments[0], Join(segments[1..]);
    assert packet == a + rest;
    if rest == [] {
      assert a == packet;
      var h := HeaderFromBinary(packet).value;
      assert h.rest[..|h.rest|] == h.rest;
      hide HeaderFromBinary;
      EmptySegments(process, Feed(process, Protocol(data, processor, false), segments[0]), segments[1..]);
    } else {
      PrefixIsIncomplete(a, rest);
      var h := HeaderFromBinary(packet).value;
      if HeaderFromBinary(a).Ok? {
        HeaderOfPrefix(a, rest);
      }
      assert Drain(process, processor, a) == Drained(processor, a, Waiting);
      hide HeaderFromBinary, Drain;
      RaisingPacket(process, processor, a, segments[1..]);
    }
  }

  lemma {:induction false} EmptySegments<P>(process: Process<P>, state: Protocol<P>, segments: seq<Bytes>)
    requires state.data == [] && Join(segments) == []
    ensures FeedAll(process, state, segments) == state
    decreases |segments|
  {
    if segments != [] {
      assert segments[0] == [] && state.data + segments[0] == [];
      NothingToDrain(process, state.processor);
      EmptySegments(process, state, segments[1..]);
    }
  }
}
