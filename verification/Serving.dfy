/** What the server does with packets that it does not accept, and with openings that it cannot answer. */
module Serving {
  import opened Wrappers
  import opened Bytes
  import opened Crypto
  import opened Chunk
  import opened Channel
  import opened Delivery
  import opened Framing
  import opened StreamDelivery
  import opened Session
  import opened Authentic

  /** A whole packet of a secure type. */
  predicate IsSecurePacket(packet: Bytes) {
    IsPacket(packet) && IsSecure(HeaderFromBinary(packet).value.value.messageType)
  }

  lemma SecureByName(packet: Bytes)
    requires IsSecurePacket(packet)
    ensures IsSecureByName(packet)
  {
    HeaderWasPacked(packet);
    hide HeaderFromBinary;
  }

  /** The processor raises on a packet whose chunk raises; the connection is what the chunk left. */
  lemma ServeRaises(e: Endpoint, packet: Bytes)
    requires e.conn.Valid() && IsSecurePacket(packet) && ReceivePacket(e.lib, e.conn, packet).1.Raised?
    ensures var (conn, result) := ReceivePacket(e.lib, e.conn, packet);
            ProcessPacket(Serve, e, packet) == Step(e.(conn := conn, results := e.results + [result]), Raise)
  {
    hide HeaderFromBinary, ReceiveBody;
  }

  /** A packet that raises, in any segments: one result, the exception, and nothing kept; the transport stays open. */
  lemma RaisingPacketIsServed(e: Endpoint, packet: Bytes, segments: seq<Bytes>)
    requires e.conn.Valid() && IsSecurePacket(packet) && ReceivePacket(e.lib, e.conn, packet).1.Raised?
    requires Join(segments) == packet
    ensures var (conn, result) := ReceivePacket(e.lib, e.conn, packet);
            FeedAll(Serve, Protocol([], e, false), segments) ==
            Protocol([], e.(conn := conn, results := e.results + [result]), false)
  {
    ServeRaises(e, packet);
    hide Serve, FeedAll, ReceivePacket, IsPacket, ProcessPacket;
    ServedPacket(e, packet, segments);
  }

  /** A packet without a valid signature does nothing to the server but one exception, in whatever segments it comes. */
  lemma ForgedPacketIsServed(e: Endpoint, packet: Bytes, segments: seq<Bytes>)
    requires e.conn.Valid() && IsSecurePacket(packet) && !IsAuthentic(e.lib, e.conn.policy, packet)
    requires Join(segments) == packet
    ensures ReceivePacket(e.lib, e.conn, packet).1.Raised?
    ensures FeedAll(Serve, Protocol([], e, false), segments) ==
            Protocol([], e.(results := e.results + [ReceivePacket(e.lib, e.conn, packet).1]), false)
  {
    SecureByName(packet);
    hide Serve, FeedAll, ReceivePacket, IsPacket, IsAuthentic, IsSecurePacket;
    OnlyAuthenticIsAccepted(e.lib, e.conn, packet);
    RaisingPacketIsServed(e, packet, segments);
  }

  /**
   Bytes behind a packet that raises, in the same segment, are lost: the packets in them are never looked at.
   */
  lemma BytesBehindAreLost(e: Endpoint, packet: Bytes, behind: Bytes)
    requires e.conn.Valid() && IsSecurePacket(packet) && ReceivePacket(e.lib, e.conn, packet).1.Raised?
    ensures var (conn, result) := ReceivePacket(e.lib, e.conn, packet);
            Feed(Serve, Protocol([], e, false), packet + behind) ==
            Protocol([], e.(conn := conn, results := e.results + [result]), false)
  {
    ServeRaises(e, packet);
    HeaderOfPrefix(packet, behind);
    hide Serve, ReceivePacket, HeaderFromBinary;
    var h := HeaderFromBinary(packet).value;
    assert (h.rest + behind)[..h.value.bodySize] == h.rest;
    assert [] + (packet + behind) == packet + behind;
  }

  /** The channel has changed when the answer turns out not to fit: the server raises and sends nothing. */
  lemma UnansweredOpening(e: Endpoint, message: Message, request: OpenRequest)
    requires e.conn.Valid() && message.chunks != [] && e.services.readRequest(message.Body()) == Some(request)
    requires request.mode == e.conn.policy.mode
    requires var nonce := e.services.nonce(e.opens);
             var renewed := Open(e.lib, e.conn, request, e.services.channelId(e.opens), nonce);
             && renewed.Some? && renewed.value.Valid()
             && var reply := OpenReply(renewed.value.channelId, renewed.value.tokenId, nonce);
             Send(e.lib, renewed.value, e.draw, e.services.writeReply(reply), SECURE_OPEN, message.RequestId(),
                  renewed.value.tokenId).1.Err?
    ensures var renewed := Open(e.lib, e.conn, request, e.services.channelId(e.opens), e.services.nonce(e.opens)).value;
            var step := ServeOpen(e, message);
            && step.outcome == Raise && step.next.sent == e.sent && step.next.opens == e.opens + 1
            && step.next.conn == renewed.(sequenceNumber := step.next.conn.sequenceNumber)
  {
    var renewed := Open(e.lib, e.conn, request, e.services.channelId(e.opens), e.services.nonce(e.opens)).value;
    var reply := OpenReply(renewed.channelId, renewed.tokenId, e.services.nonce(e.opens));
    SendKeeps(e.lib, renewed, e.draw,
              Outgoing(e.services.writeReply(reply), SECURE_OPEN, message.RequestId(), renewed.tokenId));
    hide Open, Send, Library.Lawful;
  }
}
