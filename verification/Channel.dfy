/** The secure connection of one endpoint: numbering and sending, checking and joining. */
module Channel {
  import opened Wrappers
  import opened Bytes
  import opened Crypto
  import opened Chunk

  datatype Message = Message(chunks: seq<MessageChunk>) {
    function Body(): Bytes {
      Join(Bodies(chunks))
    }

    function RequestId(): u32
      requires chunks != []
    {
      chunks[0].sequence.requestId
    }

    // The type the application dispatches on: that of the packet that completed the message.
    function MessageType(): Tag
      requires chunks != []
    {
      chunks[|chunks| - 1].header.messageType
    }

    function Sealed(): Envelope
      requires chunks != []
    {
      Envelope(MessageType(), RequestId(), Body())
    }
  }

  /** All that one side tells the other with one message. */
  datatype Envelope = Envelope(messageType: Tag, requestId: u32, body: Bytes)

  /** The fields of a connection whose policy has been selected. */
  datatype Connection = Connection(
    policy: SecurityPolicy,
    sequenceNumber: nat,
    peerSequenceNumber: Option<u32>,
    incomingParts: seq<MessageChunk>,
    channelId: u32,
    tokenId: u32,
    oldTokens: seq<u32>,
    maxChunkSize: u32,
    isOpen: bool)
  {
    predicate Valid() {
      policy.Valid() && sequenceNumber < U32_LIMIT
    }
  }

  /** Receiving changes only what is known of the peer. */
  predicate SameSetup(a: Connection, b: Connection) {
    a == b.(peerSequenceNumber := a.peerSequenceNumber, incomingParts := a.incomingParts, oldTokens := a.oldTokens)
  }

  /** None of the source is Nothing; an exception is Raised. */
  datatype Received = Nothing | Delivered(message: Message) | Raised(error: Error)

  // ----- Sending -----

  function NextNumber(n: nat): (next: nat)
    requires n < U32_LIMIT
    ensures 0 < next < U32_LIMIT
  {
    if n + 1 >= U32_LIMIT then 1 else n + 1
  }

  /** The chunks with the numbers that follow n. */
  function Number(chunks: seq<MessageChunk>, n: nat): (numbered: seq<MessageChunk>)
    requires n < U32_LIMIT
    ensures |numbered| == |chunks|
  {
    if chunks == [] then []
    else
      var c := chunks[0];
      [c.(sequence := c.sequence.(sequenceNumber := NextNumber(n)))] + Number(chunks[1..], NextNumber(n))
  }

  function LastNumber(count: nat, n: nat): (last: nat)
    requires n < U32_LIMIT
    ensures last < U32_LIMIT
    decreases count
  {
    if count == 0 then n else LastNumber(count - 1, NextNumber(n))
  }

  /** The binary form of every chunk; the first that has none raises. */
  function EncodeAll(lib: Library, policy: SecurityPolicy, draw: nat, chunks: seq<MessageChunk>)
    : Result<seq<Bytes>, Error>
    requires policy.Valid()
    decreases |chunks|
  {
    if chunks == [] then Ok([])
    else
      var first :- ToBinary(lib, policy.CryptoFor(chunks[0].header.messageType), draw, chunks[0]);
      var others :- EncodeAll(lib, policy, draw + 1, chunks[1..]);
      Ok([first.1] + others)
  }

  /** One call of message_to_binary: the packets it joins, and the state it leaves. */
  function Send(lib: Library, conn: Connection, draw: nat, body: Bytes, messageType: Tag, requestId: u32, token: u32)
    : (Connection, Result<seq<Bytes>, Error>)
    requires lib.Lawful() && conn.Valid() && IsSecure(messageType)
  {
    var chunks := MessageToChunks(lib, conn.policy, body, conn.maxChunkSize, messageType, conn.channelId, requestId,
                                  token);
    if chunks.Err? then (conn, Err(chunks.error))
    else
      (conn.(sequenceNumber := LastNumber(|chunks.value|, conn.sequenceNumber)),
       EncodeAll(lib, conn.policy, draw, Number(chunks.value, conn.sequenceNumber)))
  }

  // ----- Checking and receiving -----

  // The specification lets a number wrap to below 1024 from the last 1024 values.
  const WRAP: nat := U32_LIMIT - 1024

  predicate Follows(previous: nat, n: nat) {
    n == previous + 1 || (n < 1024 && previous >= WRAP)
  }

  function IndexOf(tokens: seq<u32>, t: u32): (i: nat)
    requires t in tokens
    ensures i < |tokens| && tokens[i] == t && t !in tokens[..i]
  {
    if tokens[0] == t then 0 else 1 + IndexOf(tokens[1..], t)
  }

  /** A token of an earlier renewal retires the ones before it. */
  function RetireTokens(conn: Connection, c: MessageChunk): Connection {
    if c.security.Symmetric? && c.security.tokenId != conn.tokenId && c.security.tokenId in conn.oldTokens
    then conn.(oldTokens := conn.oldTokens[IndexOf(conn.oldTokens, c.security.tokenId)..])
    else conn
  }

  function Check(conn: Connection, c: MessageChunk): (r: (Connection, Result<(), Error>))
    ensures SameSetup(r.0, conn)
  {
    if c.security.Symmetric? && c.header.channelId != conn.channelId then (conn, Err(UaError))
    else
      var next := RetireTokens(conn, c);
      if conn.incomingParts != [] && conn.incomingParts[0].sequence.requestId != c.sequence.requestId
      then (next, Err(UaError))
      else if conn.peerSequenceNumber.Some? && !Follows(conn.peerSequenceNumber.value, c.sequence.sequenceNumber)
      then (next, Err(UaError))
      else (next.(peerSequenceNumber := Some(c.sequence.sequenceNumber)), Ok(()))
  }

  // The body of an abort chunk is an ErrorMessage: a status code and a reason.
  predicate DecodesAsError(body: Bytes) {
    var code := ReadU32(body);
    code.Ok? && ReadText(code.value.rest).Ok?
  }

  function Receive(conn: Connection, c: MessageChunk): (r: (Connection, Received))
    ensures SameSetup(r.0, conn) && (r.1.Delivered? ==> r.1.message.chunks != [])
  {
    var (checked, ok) := Check(conn, c);
    if ok.Err? then (checked, Raised(ok.error))
    else
      var parts := conn.incomingParts + [c];
      var chunkType := c.header.chunkType;
      if chunkType == INTERMEDIATE then (checked.(incomingParts := parts), Nothing)
      else if chunkType == ABORT then
        if DecodesAsError(c.body) then (checked.(incomingParts := []), Nothing)
        else (checked.(incomingParts := parts), Raised(NotEnoughData))
      else if chunkType == SINGLE then (checked.(incomingParts := []), Delivered(Message(parts)))
      else (checked.(incomingParts := parts), Raised(UaError))
  }

  /** A header and exactly its body, for the three secure message types. */
  function ReceiveBody(lib: Library, conn: Connection, header: Header, data: Bytes): (r: (Connection, Received))
    requires conn.Valid()
    ensures SameSetup(r.0, conn) && (r.1.Delivered? ==> r.1.message.chunks != [])
  {
    if !IsSecure(header.messageType) then (conn, Raised(UaError))
    else if header.messageType == SECURE_OPEN && !OpensPolicy(conn.policy, data) then (conn, Raised(UaError))
    else
      var c := FromHeaderAndBody(lib, conn.policy, header, data);
      if c.Err? then (conn, Raised(c.error)) else Receive(conn, c.value)
  }

  predicate OpensPolicy(policy: SecurityPolicy, data: Bytes) {
    var security := SecurityFromBinary(SECURE_OPEN, data);
    security.Ok? && security.value.value.policyUri == Some(policy.uri)
  }

  // ----- Opening -----

  datatype OpenRequest = OpenRequest(issue: bool, mode: Mode, nonce: Bytes)

  datatype OpenReply = OpenReply(channelId: u32, tokenId: u32, nonce: Bytes)

  const TOKEN_BASE: u32 := 13

  /** The server's side: a new channel, or a new token for the old one; None where no number is left for it. */
  function Open(lib: Library, conn: Connection, request: OpenRequest, newChannelId: u32, nonce: Bytes)
    : Option<Connection>
    requires lib.Lawful()
  {
    var issue := !conn.isOpen || request.issue;
    var token: u32 := if issue then TOKEN_BASE else conn.tokenId;
    if token + 1 >= U32_LIMIT then None
    else
      Some(conn.(isOpen := true,
                 channelId := if issue then newChannelId else conn.channelId,
                 tokenId := token + 1,
                 oldTokens := if issue then conn.oldTokens else conn.oldTokens + [conn.tokenId],
                 policy := conn.policy.Rekeyed(lib, nonce, request.nonce)))
  }

  /** The client's side: it takes over the channel and makes the keys. */
  function Follow(lib: Library, conn: Connection, nonce: Bytes, reply: OpenReply): Connection
    requires lib.Lawful()
  {
    conn.(channelId := reply.channelId, tokenId := reply.tokenId,
          policy := conn.policy.Rekeyed(lib, nonce, reply.nonce))
  }

  /** The derived keys of a side that made the nonce `own` and was sent `other`; encryption by the mode. */
  predicate HasKeys(lib: Library, policy: SecurityPolicy, own: Bytes, other: Bytes) {
    var (sending, receiving) := (Stream(lib, other, own, 4), Stream(lib, own, other, 4));
    match policy.keys
    case None => true
    case Some(Basic128Rsa15) =>
      KeysFrom(policy.symmetric, sending, receiving, 16, 16)
      && policy.symmetric.encrypted == (policy.mode == SignAndEncrypt)
    case Some(Basic256) =>
      KeysFrom(policy.symmetric, sending, receiving, 24, 32)
      && policy.symmetric.encrypted == (policy.mode == SignAndEncrypt)
  }

  lemma RekeyedHasKeys(lib: Library, policy: SecurityPolicy, nonce1: Bytes, nonce2: Bytes)
    requires lib.Lawful()
    ensures var after := policy.Rekeyed(lib, nonce1, nonce2);
            && HasKeys(lib, after, nonce1, nonce2)
            && after == policy.(symmetric := after.symmetric) && (policy.keys.None? ==> after == policy)
  {
    hide Library.Lawful, KeysFrom, SymmetricKeys;
    if policy.keys.Some? {
      KeysComeFromNonces(lib, policy.keys.value, policy.mode == SignAndEncrypt, nonce1, nonce2);
    }
  }

  /** The first opening and an issue begin at token 14; a renewal goes on from the token it makes an old one. */
  lemma OpenedExactly(lib: Library, conn: Connection, request: OpenRequest, newChannelId: u32, nonce: Bytes)
    requires lib.Lawful()
    ensures var renews := conn.isOpen && !request.issue;
            var result := Open(lib, conn, request, newChannelId, nonce);
            && (result.None? <==> renews && conn.tokenId == 0xFFFF_FFFF)
            && (result.Some? ==>
                  var after := result.value;
                  && after == conn.(isOpen := true, channelId := after.channelId, tokenId := after.tokenId,
                                    oldTokens := after.oldTokens, policy := after.policy)
                  && after.channelId == (if renews then conn.channelId else newChannelId)
                  && after.tokenId == (if renews then conn.tokenId + 1 else 14)
                  && after.oldTokens == (if renews then conn.oldTokens + [conn.tokenId] else conn.oldTokens)
                  && after.policy == conn.policy.(symmetric := after.policy.symmetric)
                  && HasKeys(lib, after.policy, nonce, request.nonce))
  {
    RekeyedHasKeys(lib, conn.policy, nonce, request.nonce);
    hide SecurityPolicy.Rekeyed, HasKeys, Library.Lawful;
  }

  lemma FollowedExactly(lib: Library, conn: Connection, nonce: Bytes, reply: OpenReply)
    requires lib.Lawful()
    ensures var after := Follow(lib, conn, nonce, reply);
            && after == conn.(channelId := reply.channelId, tokenId := reply.tokenId, policy := after.policy)
            && after.policy == conn.policy.(symmetric := after.policy.symmetric)
            && HasKeys(lib, after.policy, nonce, reply.nonce)
  {
    RekeyedHasKeys(lib, conn.policy, nonce, reply.nonce);
    hide SecurityPolicy.Rekeyed, HasKeys, Library.Lawful;
  }

  // ----- The object -----

  class SecureConnection {
    const lib: Library
    var policy: SecurityPolicy
    var sequenceNumber: nat
    var peerSequenceNumber: Option<u32>
    var incomingParts: seq<MessageChunk>
    var channelId: u32
    var tokenId: u32
    var oldTokens: seq<u32>
    var maxChunkSize: u32
    var isOpen: bool

    function State(): Connection
      reads this
    {
      Connection(policy, sequenceNumber, peerSequenceNumber, incomingParts, channelId, tokenId, oldTokens, maxChunkSize,
                 isOpen)
    }

    constructor (lib: Library, policy: SecurityPolicy, channelId: u32, tokenId: u32)
      ensures this.lib == lib && State() == Connection(policy, 0, None, [], channelId, tokenId, [], 65536, false)
    {
      this.lib := lib;
      this.policy := policy;
      sequenceNumber, peerSequenceNumber, incomingParts := 0, None, [];
      this.channelId, this.tokenId, oldTokens, maxChunkSize, isOpen := channelId, tokenId, [], 65536, false;
    }

    /** The server opens or renews the channel. */
    method OpenChannel(request: OpenRequest, newChannelId: u32, nonce: Bytes) returns (reply: Option<OpenReply>)
      requires lib.Lawful()
      modifies this`isOpen, this`channelId, this`tokenId, this`oldTokens, this`policy
      ensures reply.None? <==> Open(lib, old(State()), request, newChannelId, nonce).None?
      ensures reply.None? ==> State() == old(State())
      ensures reply.Some? ==> Open(lib, old(State()), request, newChannelId, nonce) == Some(State())
      ensures reply.Some? ==> reply.value == OpenReply(channelId, tokenId, nonce)
    {
      var issue := !isOpen || request.issue;
      if (if issue then TOKEN_BASE else tokenId) + 1 >= U32_LIMIT {
        return None;
      }
      if issue {
        isOpen := true;
        tokenId, channelId := TOKEN_BASE, newChannelId;
      } else {
        oldTokens := oldTokens + [tokenId];
      }
      tokenId := tokenId + 1;
      MakeKeys(nonce, request.nonce);
      reply := Some(OpenReply(channelId, tokenId, nonce));
    }

    /** make_symmetric_key of the connection's policy. */
    method MakeKeys(nonce1: Bytes, nonce2: Bytes)
      requires lib.Lawful()
      modifies this`policy
      ensures policy == old(policy).Rekeyed(lib, nonce1, nonce2)
    {
      if policy.keys.Some? {
        var crypto := MakeSymmetricKey(lib, policy.keys.value, policy.mode == SignAndEncrypt, nonce1, nonce2);
        policy := policy.(symmetric := crypto);
      }
    }

    /** The client takes over the server's answer. */
    method FollowChannel(nonce: Bytes, reply: OpenReply)
      requires lib.Lawful()
      modifies this`channelId, this`tokenId, this`policy
      ensures State() == Follow(lib, old(State()), nonce, reply)
    {
      channelId, tokenId := reply.channelId, reply.tokenId;
      MakeKeys(nonce, reply.nonce);
    }

    method CloseChannel()
      modifies this`isOpen
      ensures State() == old(State()).(isOpen := false)
    {
      isOpen := false;
    }

    method MessageToBinary(draw: nat, message: Bytes, messageType: Tag, requestId: u32, algorithmToken: Option<u32>)
      returns (r: Result<Bytes, Error>)
      requires lib.Lawful() && State().Valid() && IsSecure(messageType)
      modifies this`sequenceNumber
      ensures var token := if algorithmToken.None? then tokenId else algorithmToken.value;
              var (after, packets) := Send(lib, old(State()), draw, message, messageType, requestId, token);
              State() == after && r == if packets.Err? then Err(packets.error) else Ok(Join(packets.value))
    {
      var token := if algorithmToken.None? then tokenId else algorithmToken.value;
      var chunks := CutMessage(lib, policy, message, maxChunkSize, messageType, channelId, requestId, token);
      if chunks.Err? {
        return Err(chunks.error);
      }
      var numbered := AssignNumbers(chunks.value);
      var packets := EncodeChunks(draw, numbered);
      if packets.Err? {
        return Err(packets.error);
      }
      r := Ok(Join(packets.value));
    }

    method AssignNumbers(chunks: seq<MessageChunk>) returns (numbered: seq<MessageChunk>)
      requires sequenceNumber < U32_LIMIT
      modifies this`sequenceNumber
      ensures numbered == Number(chunks, old(sequenceNumber))
      ensures sequenceNumber == LastNumber(|chunks|, old(sequenceNumber))
    {
      numbered := [];
      var rest := chunks;
      while rest != []
        invariant sequenceNumber < U32_LIMIT
        invariant numbered + Number(rest, sequenceNumber) == Number(chunks, old(sequenceNumber))
        invariant LastNumber(|rest|, sequenceNumber) == LastNumber(|chunks|, old(sequenceNumber))
      {
        sequenceNumber := sequenceNumber + 1;
        if sequenceNumber >= U32_LIMIT {
          sequenceNumber := 1;
        }
        numbered := numbered + [rest[0].(sequence := rest[0].sequence.(sequenceNumber := sequenceNumber))];
        rest := rest[1..];
      }
    }

    method EncodeChunks(draw: nat, chunks: seq<MessageChunk>) returns (r: Result<seq<Bytes>, Error>)
      requires policy.Valid()
      ensures r == EncodeAll(lib, policy, draw, chunks)
    {
      hide ToBinary;
      var packets: seq<Bytes> := [];
      var rest, n := chunks, draw;
      while rest != []
        invariant EncodeAll(lib, policy, n, rest).Ok? ==>
                    && EncodeAll(lib, policy, draw, chunks).Ok?
                    && EncodeAll(lib, policy, draw, chunks).value == packets + EncodeAll(lib, policy, n, rest).value
        invariant EncodeAll(lib, policy, n, rest).Err? ==>
                    EncodeAll(lib, policy, draw, chunks) == EncodeAll(lib, policy, n, rest)
      {
        var packet := ToBinary(lib, policy.CryptoFor(rest[0].header.messageType), n, rest[0]);
        if packet.Err? {
          return Err(packet.error);
        }
        ghost var tail := EncodeAll(lib, policy, n + 1, rest[1..]);
        assert tail.Ok? ==> packets + ([packet.value.1] + tail.value) == packets + [packet.value.1] + tail.value;
        packets := packets + [packet.value.1];
        rest, n := rest[1..], n + 1;
      }
      assert packets + [] == packets;
      r := Ok(packets);
    }

    method CheckIncomingChunk(c: MessageChunk) returns (r: Result<(), Error>)
      requires c.Valid()
      modifies this`oldTokens, this`peerSequenceNumber
      ensures (State(), r) == Check(old(State()), c)
    {
      if c.header.messageType != SECURE_OPEN {
        if c.header.channelId != channelId {
          return Err(UaError);
        }
        if c.security.tokenId != tokenId && c.security.tokenId in oldTokens {
          var idx := IndexOf(oldTokens, c.security.tokenId);
          if idx != 0 {
            oldTokens := oldTokens[idx..];
          }
        }
      }
      if incomingParts != [] {
        if incomingParts[0].sequence.requestId != c.sequence.requestId {
          return Err(UaError);
        }
      }
      var num := c.sequence.sequenceNumber;
      if peerSequenceNumber.Some? {
        if num != peerSequenceNumber.value + 1 {
          var wrap := U32_LIMIT - 1024;
          if !(num < 1024 && peerSequenceNumber.value >= wrap) {
            return Err(UaError);
          }
        }
      }
      peerSequenceNumber := Some(num);
      r := Ok(());
    }

    method ReceiveChunk(c: MessageChunk) returns (r: Received)
      requires c.Valid()
      modifies this`oldTokens, this`peerSequenceNumber, this`incomingParts
      ensures (State(), r) == Receive(old(State()), c)
    {
      var ok := CheckIncomingChunk(c);
      if ok.Err? {
        return Raised(ok.error);
      }
      incomingParts := incomingParts + [c];
      if c.header.chunkType == INTERMEDIATE {
        return Nothing;
      }
      if c.header.chunkType == ABORT {
        if !DecodesAsError(c.body) {
          return Raised(NotEnoughData);
        }
        incomingParts := [];
        return Nothing;
      } else if c.header.chunkType == SINGLE {
        r := Delivered(Message(incomingParts));
        incomingParts := [];
      } else {
        return Raised(UaError);
      }
    }

    /** The buffer moves past the declared body, whether or not the chunk is accepted. */
    method ReceiveFromHeaderAndBody(header: Header, body: Buffer) returns (r: Received)
      requires State().Valid() && body.Valid() && IsSecure(header.messageType)
      requires 0 <= header.bodySize <= |body.Contents()|
      modifies this`oldTokens, this`peerSequenceNumber, this`incomingParts, body
      ensures (State(), r) == ReceiveBody(lib, old(State()), header, old(body.Contents())[..header.bodySize])
      ensures body.Valid()
      ensures r.Raised? || body.Contents() == old(body.Contents())[header.bodySize..]
    {
      if header.messageType == SECURE_OPEN {
        var data := body.Copy(header.bodySize);
        if !OpensPolicy(policy, data.Contents()) {
          return Raised(UaError);
        }
      }
      var c := ReadChunk(lib, policy, header, body);
      if c.Err? {
        return Raised(c.error);
      }
      r := ReceiveChunk(c.value);
    }
  }
}
