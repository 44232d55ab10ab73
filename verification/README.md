# A verified model of the Python OPC UA stack

The stack under `ftest/freeopcua/opcua` moves messages over an encrypted
channel, serves subscriptions, keeps an address space and stores history. This
project models its four stateful parts in Dafny and proves what they promise.

**Secure channel** (`Bytes`, `Crypto`, `Lawful`, `Chunk`, `Channel`, `Delivery`,
`Conversation`, `Wire`, `Authentic`, `Reception`, `Framing`, `StreamDelivery`,
`Session`, `Playing`, `Serving`). A message is cut into chunks, padded, signed,
block-encrypted and numbered; the packets go over a byte stream in arbitrary
segments, are framed, decoded, checked and joined. The main results are
`EndToEndDelivery` for one direction, `OnlyAuthenticIsAccepted` for arbitrary
packets and, for whole sessions with openings, renewals and the close,
`SessionDelivers` and `SessionCloses`; `SessionPlaysExactly` says when a session
can be played at all. HMAC, AES, RSA and SHA-1 are the fields of a `Library`
record; `Lawful` lists all that is assumed of them (lengths, inverses, and that
a signature verifies), and `LawfulIsSatisfiable` shows that it can be met.

**Subscriptions** (`Subscription`, `Publishing`, `MonitoredItems`,
`MonitoredService`, `MonitoredRuns`, `Engine`, `Notifications`, `Promptness`,
`Projection`). The engine driven by timer calls, with its counters, bounded
queues and retransmission store; the three maps of monitored items, which agree
with the callback registry of the address space on every run; and both together,
from the writes to an attribute and the events of a node to the notifications of
their items (`WritesReachPublish`, `EventsReachPublish`, `WriteIsInNextResult`).
`SubscriptionIsRun` shows that the engine mixes up no two subscriptions, so that
the laws of one alone hold of each.

**Address space** (`NodeIds`, `AddressSpace`, `References`, `NodeManagement`,
`Loading`, `Browse`, `Namespaces`, `XmlOrder`, `XmlImport`, `XmlReferences`).
Reference uniqueness and integrity on every run, loading with postponed
references whose result does not depend on the order of requests, browsing with
a transitive type closure, the re-indexing of namespaces from one server through
a file to another, and the sorting that puts parents first, with exactly when
the import then succeeds.

**History** (`History`, `HistoryReads`, `HistoryNodes`). When the list store and
the SQL store hold the same values and answer alike, and that the SQL store's
pages are complete.

Objects that the stack changes in place are classes whose methods are proved
against functions on a datatype of the same state; the theorems about runs are
lemmas on these functions.

## Where the code differs from what it says

Each of these is a lemma below, with the exact condition where there is one.

- A zero `max_body_size` raises; a negative one makes the message vanish without
  an exception, as an empty body does (`SymmetricSendSucceeds`, `MessageDelivery`;
  `ZeroBodySizeRaises`, `MessageVanishes`).
- The framing loop logs that it closes the connection after an exception and
  does not; it drops the rest of the segment only (`ExceptionDropsRest`,
  `ExceptionDependsOnSegments`).
- A chunk of an unknown kind raises, but its body stays and is delivered with the
  next final chunk (`UnknownKindStays`).
- `IncludeSubtypes = False` still admits subtypes (`WithoutSubtypes`,
  `SubtypesAdmittedAnyway`).
- A HasSubtype cycle makes browsing exhaust the interpreter's stack
  (`BrowseFailsOnCycles`, `SelfSubtypeExhausts`), a chain of types longer than its
  limit does too (`BrowseFails`), and so do many taken ids the
  generation of a new one (`GenerateExactly`, `ManyTakenIdsRaise`).
- A cycle of parents keeps the XML sort running for ever (`EndsExactly`,
  `CircularParentsNeverEnd`).
- Nodes of a namespace that the file does not map are not sorted, even when their
  parents are in the file; listed before them they make the import raise
  (`SortedImportsExactly`, `UnmappedChildFails`).
- Giving the exporter the URI of index 0 shifts every exported index by one
  (`NamespaceRoundTrip`).
- The SQL store deletes every row with the earliest timestamp where the list
  store deletes one value (`SaveAgreesExactly`, `TableLosesBoth`), and nodes whose
  ids have the same text share its table (`StoresAgreeExactly`,
  `NumberAndTextShareTable`).
- The list store's continuation point skips a value or raises
  (`DictPagingSkips`); a missing start makes it ignore the end
  (`ReadsWithoutStart`). With equal bounds the two stores answer in opposite
  orders (`ReadsAgree`). A page of the SQL store that ends between equal
  timestamps is not continued where it ended (`PageBoundary`).

## Parameters that stand for the outside

- The clock is the `now` of each save and read. Random bytes of RSA encryption
  are numbered draws.
- The interpreter's recursion limit is the `frames` of a browse and of the
  generation of an id.
- What `process` does with a packet is a function of the processor's state; in
  `StreamDelivery` it is the connection, with an application that answers True and
  sends its responses in steps of its own.
- The codec of the open request and response is a record of functions, of which
  only that each side reads what the other wrote is used; the server's channel
  ids and nonces are numbered, and the client's nonce is that of its request.
- The name of a node's SQL table is a function of the node id in `History`;
  `HistoryNodes` has the code's, up to the text of a byte string.
- An attribute's value is an optional number, which is what deadbands compare.

## Model

| member | source | states |
|---|---|---|
| Bytes.Buffer.Read | ftest/freeopcua/opcua/common/utils.py:60-72 | reading gives the front of what is left and moves past exactly it; too long a request raises and moves nothing |
| Bytes.Buffer.Copy | ftest/freeopcua/opcua/common/utils.py:74-80 | a copy is a new view of at most the requested front and leaves the original alone |
| Bytes.Buffer.Skip | ftest/freeopcua/opcua/common/utils.py:82-89 | skipping drops exactly the requested front, or raises and changes nothing |
| Bytes.ReadPackedText | ftest/freeopcua/opcua/ua/ua_binary.py:48-85 | a string or byte string, also an absent one, is read back from its packed form, and reading stops where it ends |
| Crypto.EncryptRsa | ftest/freeopcua/opcua/crypto/security_policies.py:218-224 | the loop over plain blocks computes the block-wise encryption, the last block possibly short |
| Crypto.DecryptRsa | ftest/freeopcua/opcua/crypto/security_policies.py:242-248 | the loop over cipher blocks computes the block-wise decryption; the first block that fails raises |
| Crypto.DecryptEncryptBlocks | ftest/freeopcua/opcua/crypto/security_policies.py:218-248 | the two RSA loops are inverse on every input, for every key size and padding scheme |
| Crypto.EncryptedBlocksLength | ftest/freeopcua/opcua/crypto/security_policies.py:212-224 | the encrypted length is one key size for each started plain block |
| Crypto.CipherBlock | ftest/freeopcua/opcua/crypto/security_policies.py:218-224 | the i-th cipher block is the encryption of the i-th plain block, for every i |
| Crypto.PaddingFillsBlock | ftest/freeopcua/opcua/crypto/security_policies.py:126-173 | data, padding and signature together are whole blocks, and removing the padding gives the data back, in all three modes and with both one-byte and missing padding |
| Crypto.DecryptEncrypt | ftest/freeopcua/opcua/crypto/security_policies.py:157-166 | paired endpoints: encryption of whole blocks never raises, the peer decrypts it to the same bytes, and its length is the one the chunk header declares |
| Crypto.VerifySignature | ftest/freeopcua/opcua/crypto/security_policies.py:145-155 | a signature has the announced size on both sides and verifies at the paired endpoint |
| Crypto.PSha1 | ftest/freeopcua/opcua/crypto/uacrypto.py:138-158 | for every list of sizes the keys are the consecutive cuts of the P_SHA1 stream of section 5 of RFC 2246, whatever number of blocks that stream is computed to |
| Crypto.StreamStarts | ftest/freeopcua/opcua/crypto/uacrypto.py:138-158 | the first two blocks of the stream, written out in the hash |
| Crypto.CutKeys | ftest/freeopcua/opcua/crypto/uacrypto.py:154-158 | the second loop cuts the stream into consecutive parts of exactly the given sizes |
| Crypto.MakeSymmetricKey | ftest/freeopcua/opcua/crypto/security_policies.py:365-374 | the sending half is cut from the P_SHA1 stream whose secret is the other side's nonce and whose seed is the own one, the receiving half from the stream with both swapped: signature key, cipher key and a vector of 16 bytes, of 16 and 16 bytes for Basic128Rsa15 and of 24 and 32 for Basic256 |
| Crypto.KeysComeFromNonces | ftest/freeopcua/opcua/crypto/security_policies.py:365-374 | the same of the function that the theorems about channels and sessions use |
| Crypto.KeyAgreement | ftest/freeopcua/opcua/crypto/security_policies.py:365-374 | two endpoints with swapped nonces are paired in both directions, for both policies |
| Lawful.LawfulIsSatisfiable | ftest/freeopcua/opcua/crypto/security_policies.py:218-248 | a library exists that meets all the laws asked of the foreign one, so the theorems that assume them are not empty |
| Chunk.HeaderRoundTrip | ftest/freeopcua/opcua/ua/ua_binary.py:503-522 | the header of a secure message that has a binary form is read back with its declared size, and nothing after it is touched |
| Chunk.SecurityRoundTrip | ftest/freeopcua/opcua/ua/uaprotocol_hand.py:100-137 | both security headers are read back, with absent fields as well |
| Chunk.ReadChunk | ftest/freeopcua/opcua/common/connection.py:34-59 | decoding through the buffer agrees with the decoding function, of which the rows of Authentic say what it accepts, and advances by exactly the declared body, also when it raises; a short buffer raises and stays |
| Chunk.PaddedBlocks | ftest/freeopcua/opcua/common/connection.py:61-67 | the size declared before encryption is that of the fewest whole blocks that hold headers, body, padding and signature |
| Chunk.ToBinarySucceeds | ftest/freeopcua/opcua/common/connection.py:69-76 | a chunk has a binary form if and only if its padding length and its packet length fit their fields |
| Chunk.ChunkRoundTrip | ftest/freeopcua/opcua/common/connection.py:29-76 | in None, Sign and SignAndEncrypt modes, symmetric and asymmetric: decoding an encoded chunk gives the same headers, sequence header and body, the declared size is the number of bytes after the header, and the rest of the input is left |
| Chunk.MaxBodySizeIsTight | ftest/freeopcua/opcua/common/connection.py:78-82 | a symmetric chunk fits the limit if and only if its body is at most max_body_size, for all block and signature sizes; one more byte never fits |
| Chunk.CutMessage | ftest/freeopcua/opcua/common/connection.py:84-121 | the branch for open messages, and the error for a body size of zero, as the code has them |
| Chunk.CutBody | ftest/freeopcua/opcua/common/connection.py:109-121 | the loop over the message gives the recursive cut, with only the last chunk final |
| Chunk.SplitBodyKeepsBody | ftest/freeopcua/opcua/common/connection.py:109-121 | joining the chunk bodies gives the message back |
| Chunk.SplitBodyParts | ftest/freeopcua/opcua/common/connection.py:109-121 | no chunk is empty or over size, all but the last are full, and only the last is final |
| Channel.SecureConnection.MessageToBinary | ftest/freeopcua/opcua/common/connection.py:198-220 | one send: the packets it joins, and the sequence number it leaves; nothing else of the connection changes |
| Channel.SecureConnection.OpenChannel | ftest/freeopcua/opcua/common/connection.py:152-169 | a first opening or an issue takes the new channel id and restarts the tokens, a renewal keeps the channel and remembers the old token; both raise the token and replace the keys, and the answer names channel, token and nonce |
| Channel.SecureConnection.MakeKeys | ftest/freeopcua/opcua/crypto/security_policies.py:365-374 | the symmetric half of the policy is replaced by the keys of the two nonces; the policy without keys stays as it is |
| Channel.SecureConnection.FollowChannel | ftest/freeopcua/opcua/client/ua_client.py:160-171 | the client takes over channel and token of the answer and makes the keys; nothing else changes |
| Channel.OpenedExactly | ftest/freeopcua/opcua/common/connection.py:152-169 | without a token left the opening is refused; otherwise a first opening or an issue gives the new channel and token 14 and a renewal the next token with the one before it kept as old; the keys are those of the request's nonce and the own one, and nothing else changes |
| Channel.FollowedExactly | ftest/freeopcua/opcua/client/ua_client.py:160-171 | the client has the keys of the answer's nonce and its own, on the channel and with the token of the answer |
| Channel.SecureConnection.CloseChannel | ftest/freeopcua/opcua/common/connection.py:171-172 | the connection counts as not open; nothing else changes |
| Channel.SecureConnection.AssignNumbers | ftest/freeopcua/opcua/common/connection.py:214-219 | the loop numbers the chunks consecutively, wrapping from 2^32 - 1 to 1 |
| Channel.SecureConnection.EncodeChunks | ftest/freeopcua/opcua/common/connection.py:220 | the chunks are encoded in order, and the first that has no binary form raises |
| Channel.SecureConnection.CheckIncomingChunk | ftest/freeopcua/opcua/common/connection.py:223-263 | the check of channel, token, request and sequence number: its verdict and the whole state after it, raising or not |
| Channel.SecureConnection.ReceiveChunk | ftest/freeopcua/opcua/common/connection.py:311-328 | a checked chunk is appended, and completes, aborts or continues the message; the state also after an exception |
| Channel.SecureConnection.ReceiveFromHeaderAndBody | ftest/freeopcua/opcua/common/connection.py:265-281 | one packet with its header: the result and the new state, and the buffer advanced by exactly the body |
| Delivery.PacketIsChunk | ftest/freeopcua/opcua/common/connection.py:297-309 | a paired peer reads one encoded packet as the very chunk that was encoded |
| Delivery.DeliverChunks | ftest/freeopcua/opcua/common/connection.py:311-326 | the chunks of one message, after parts that may already wait: nothing for each but the last, then the whole body, once |
| Delivery.MessageDelivery | ftest/freeopcua/opcua/common/connection.py:198-328 | a message sent without an exception arrives exactly once with type, request id and body if it is cut into at least one chunk; otherwise no packet leaves and both sides are unchanged |
| Conversation.EndToEndDelivery | ftest/freeopcua/opcua/common/connection.py:198-328 | for every sequence of messages sent without an exception the peer never raises, gives each carried message once and in order, across the wrap as well, and ends in step with no parts pending |
| Conversation.SymmetricSendSucceeds | ftest/freeopcua/opcua/common/connection.py:198-220 | with blocks of at most 256 bytes a symmetric send raises if and only if the chunk size leaves a body size of exactly zero |
| Conversation.PacketsFit | ftest/freeopcua/opcua/common/connection.py:84-121 | every packet of a symmetric message has at most the maximal chunk size, for all keys and block sizes |
| Conversation.ZeroBodySizeRaises | ftest/freeopcua/opcua/common/connection.py:107-110 | a connection and a message whose sending raises because no room is left for a body |
| Conversation.MessageVanishes | ftest/freeopcua/opcua/common/connection.py:107-110 | with one byte less the same message is sent as no packet at all, without an exception |
| Conversation.KeyedDelivery | ftest/freeopcua/opcua/common/connection.py:198-328 | endpoints keyed with swapped nonces: every sequence of non-empty messages is sent and received whole, in order, with the final numbers equal |
| Conversation.RejectedChunkChangesNothing | ftest/freeopcua/opcua/common/connection.py:223-263 | a chunk that fails the check changes neither the peer number nor the pending parts |
| Conversation.AcceptedNumbersChain | ftest/freeopcua/opcua/common/connection.py:250-263 | in every run of arbitrary chunks the accepted numbers follow one another by the increment-or-wrap rule |
| Conversation.NumberReuse | ftest/freeopcua/opcua/common/connection.py:250-263 | two accepted chunks with one number are at least 2^32 - 2046 accepted chunks apart, on every run |
| Conversation.ChainIsAccepted | ftest/freeopcua/opcua/common/connection.py:250-263 | the converse: on any connection every list of numbers that is incremented or wrapped so is accepted on some run of chunks, also when parts are pending |
| Conversation.NumberReuseIsTight | ftest/freeopcua/opcua/common/connection.py:250-263 | on a new connection a run of chunks whose accepted numbers meet that distance exactly |
| Wire.PacketLayout | ftest/freeopcua/opcua/common/connection.py:69-76 | the bytes of every encoded chunk: type, kind, size of the whole packet, channel, token or policy and certificates, then number, request and body; signed over all before the signature, and padded with k + 1 bytes of value k to whole blocks and encrypted as the mode says |
| Wire.SentMessage | ftest/freeopcua/opcua/common/connection.py:198-220 | every packet of a symmetric message: the bytes of a chunk with the connection's channel, the given type, token and request, the (n + i) mod (2^32 - 1) + 1st number and its cut of the body, final exactly if it is the last; and the number that the connection keeps |
| Wire.SentOpen | ftest/freeopcua/opcua/common/connection.py:94-106 | an open message is one packet with the policy's URI, the own certificate and the SHA-1 print of the peer's, each only if there is one |
| Authentic.OnlyAuthenticIsAccepted | ftest/freeopcua/opcua/common/connection.py:35-58 | any bytes of the three secure types for a packet raise and leave the connection as it was, unless those after the headers decrypt and end in a signature that the verifier accepts for all bytes before it |
| Authentic.OnlyAuthenticOnRuns | ftest/freeopcua/opcua/common/connection.py:297-309 | so on every run of such packets whatever did not raise was signed |
| Authentic.WrongSignatureRaises | ftest/freeopcua/opcua/common/connection.py:53-55 | a packet that decodes and decrypts but has another signature raises InvalidSignature, and the connection is unchanged |
| Authentic.AlteredSignatureRaises | ftest/freeopcua/opcua/crypto/security_policies.py:273-276 | with a derived key in mode Sign each of the other 2^160 - 1 signatures of a packet raises and changes nothing |
| Authentic.OtherPolicyRaises | ftest/freeopcua/opcua/common/connection.py:188-196 | an open message with another policy URI raises before it is decrypted, and changes nothing |
| Authentic.DecodedContent | ftest/freeopcua/opcua/common/connection.py:55-58 | headers, numbers and body of an accepted chunk are exactly the bytes between head and signature, without as many as the last byte says and that byte if the mode encrypts |
| Reception.OneChunk | ftest/freeopcua/opcua/common/connection.py:223-328 | everything one arbitrary chunk does: accepted exactly if channel, pending request and number fit, and then kept, delivered with the parts before it, or dropping them, by its kind |
| Reception.OldTokensRetire | ftest/freeopcua/opcua/common/connection.py:230-243 | a chunk under an old token retires exactly the tokens before the first such one, any other chunk none |
| Reception.DeliveredIsWhole | ftest/freeopcua/opcua/common/connection.py:223-328 | on every run of arbitrary chunks a delivered message is a final chunk behind chunks of the same request, numbered in step, none of which ended a message, and they are the last ones that were accepted |
| Reception.UnknownKindStays | ftest/freeopcua/opcua/common/connection.py:326-328 | a chunk of an unknown kind raises, yet its body is delivered with the next final chunk of its request |
| Framing.OPCUAProtocol.DataReceived | ftest/freeopcua/opcua/server/binary_server_asyncio.py:73-78 | one call on old and new bytes: the processor, the bytes kept and whether the transport is closed |
| Framing.OPCUAProtocol.ProcessData | ftest/freeopcua/opcua/server/binary_server_asyncio.py:80-104 | the loop computes the recursive drain of the data, including the exit for False and the swallowed exception |
| Framing.DrainAppend | ftest/freeopcua/opcua/server/binary_server_asyncio.py:80-104 | draining in two steps is draining at once, unless the first step closed the connection or raised |
| Framing.SegmentationIndependence | ftest/freeopcua/opcua/server/binary_server_asyncio.py:73-104 | every way of cutting the stream gives the same processor calls, the same left-over bytes and the same closing as one call that does not raise |
| Framing.ExceptionDropsRest | ftest/freeopcua/opcua/server/binary_server_asyncio.py:102-104 | after an exception the cut matters: one call or two agree if and only if the second piece alone would do nothing |
| Framing.ExceptionDependsOnSegments | ftest/freeopcua/opcua/server/binary_server_asyncio.py:102-104 | a processor and two packets for which they differ: the connection stays open, although the log message says it is closed |
| Framing.StreamOfPackets | ftest/freeopcua/opcua/server/binary_server_asyncio.py:73-104 | whole packets and an incomplete tail in any segments: each packet is processed once and in order, and the tail is kept |
| Framing.StreamUntilClose | ftest/freeopcua/opcua/server/binary_server_asyncio.py:95-99 | packets up to one on which the processor returns False, and anything after it, in any segments: each is processed once, the transport is closed and the rest is not looked at |
| Framing.RaisingPacket | ftest/freeopcua/opcua/server/binary_server_asyncio.py:102-104 | a packet on which the processor raises, in any segments, is seen once and leaves nothing waiting |
| StreamDelivery.ServePackets | ftest/freeopcua/opcua/server/uaprocessor.py:79-104 | ordinary packets that are received without an exception leave the server going on, with exactly their results |
| StreamDelivery.StreamDelivers | ftest/freeopcua/opcua/server/binary_server_asyncio.py:73-104 | both layers, for ordinary messages on an open channel: their bytes, cut anywhere, give the server each carried message once and in order and leave no byte and no part waiting; openings and the close are the rows that follow |
| Session.NewConnectionsAreLive | ftest/freeopcua/opcua/common/connection.py:135-144 | two new connections of one policy are a start from which the session theorems apply |
| Session.OpenDelivery | ftest/freeopcua/opcua/common/connection.py:198-328 | an open message is one packet, and the peer delivers it whatever channel either side is on |
| Session.OpeningCompletes | ftest/freeopcua/opcua/server/uaprocessor.py:48-58 | an opening completes if and only if the client can send its request, the segments are its bytes, and the server agrees with its mode and can answer; then both sides are on the channel of the answer with one token and the keys of the swapped nonces, and each has received the other's open message |
| Session.SessionDelivers | ftest/freeopcua/opcua/server/uaprocessor.py:79-104 | whole sessions, from the first opening on: requests, responses, renewals and new channels in any order, with the bytes cut anywhere; each side receives exactly the other's messages, once and in order, nothing raises, no byte waits, and both agree on channel, token, keys and numbers at the end |
| Session.SessionCloses | ftest/freeopcua/opcua/server/uaprocessor.py:85-87 | a close message after any conversation, with anything behind it, in any segments: everything before it and the message itself are delivered, the transport is closed and the connection is not open |
| Session.OldChannelRaises | ftest/freeopcua/opcua/common/connection.py:225-229 | a message of another channel than the server's raises and changes nothing, whatever the keys |
| Serving.ForgedPacketIsServed | ftest/freeopcua/opcua/server/binary_server_asyncio.py:73-104 | a packet without a valid signature, in any segments, does nothing to a server but one exception: connection, keys, numbers and pending parts are as they were, no byte waits and the transport stays open |
| Serving.BytesBehindAreLost | ftest/freeopcua/opcua/server/binary_server_asyncio.py:95-104 | what stands in the same segment behind a packet that raises is never looked at |
| Serving.UnansweredOpening | ftest/freeopcua/opcua/server/uaprocessor.py:48-58 | when the answer to an opening does not fit, the server raises and sends nothing, and has the new channel, token and keys all the same |
| Playing.OpenSendSucceeds | ftest/freeopcua/opcua/common/connection.py:69-106 | an open message is sent if and only if the padding length of its one chunk fits a byte and its packet length fits the header's field; otherwise sending raises |
| Playing.SendAllExactly | ftest/freeopcua/opcua/common/connection.py:198-220 | with blocks of at most 256 bytes a list of ordinary messages is sent without an exception if and only if it is empty or the body size is not zero |
| Playing.CanOpenExactly | ftest/freeopcua/opcua/server/uaprocessor.py:48-58 | the server answers if and only if it agrees with the mode, has a token left and the answer fits one packet |
| Playing.RekeyedRoom | ftest/freeopcua/opcua/common/connection.py:78-82 | the body size after an opening is fixed by the lengths of the policy's keys, whatever the nonces |
| Playing.RoundPlays | ftest/freeopcua/opcua/server/uaprocessor.py:48-104 | on any live session a round can be played if and only if the ledger allows it (an open channel and room for ordinary messages; for an opening a request that fits, and a server that can answer) and the segments are the bytes sent |
| Playing.RoundLeaves | ftest/freeopcua/opcua/server/uaprocessor.py:48-104 | a round that was played leaves the policies but for their keys, the chunk sizes, and the ledger (open, channel, token, openings and the room of both sides) that the round tells beforehand |
| Playing.SessionPlaysExactly | ftest/freeopcua/opcua/server/uaprocessor.py:48-104 | a list of rounds can be played in some segments if and only if each is allowed by the ledger that the rounds before it leave: nothing that depends on a key, on a message already sent or on a number of a chunk can stop a session |
| Subscription.InternalSubscription.HasPublishedResults | ftest/freeopcua/opcua/server/internal_subscription.py:292-301 | says whether there is something to publish, and otherwise counts one silent cycle |
| Subscription.InternalSubscription.PublishResults | ftest/freeopcua/opcua/server/internal_subscription.py:303-317 | one timer call: the whole new state and the result handed to the callback, if any |
| Subscription.InternalSubscription.PopPublishResult | ftest/freeopcua/opcua/server/internal_subscription.py:319-356 | the result holds exactly what was queued, the queues are emptied, and a result with data is stored under its number |
| Subscription.InternalSubscription.Publish | ftest/freeopcua/opcua/server/internal_subscription.py:358-364 | acknowledged numbers leave the store and the cycle count restarts |
| Subscription.InternalSubscription.EnqueueEvent | ftest/freeopcua/opcua/server/internal_subscription.py:376-392 | a full queue loses its oldest entry, and other queues are untouched |
| Subscription.BoundedExpiry | ftest/freeopcua/opcua/server/internal_subscription.py:282-317 | without publish requests, whatever is queued meanwhile, the subscription has stopped after L * (K + 2) + 2 timer calls and at most L + 2 results |
| Subscription.ExpiryIsTight | ftest/freeopcua/opcua/server/internal_subscription.py:282-317 | with nothing queued it is still running one timer call earlier |
| Subscription.SilentTicks | ftest/freeopcua/opcua/server/internal_subscription.py:292-301 | while it runs, at most K + 1 timer calls in a row give nothing |
| Publishing.PublishesExactly | ftest/freeopcua/opcua/server/internal_subscription.py:282-301 | on every run a timer call hands out a result if and only if the subscription is not stopped and it is the first timer call, or a data change or event has been queued since the last result, or more than K timer calls have been silent since then |
| Publishing.OnlyTimerPublishes | ftest/freeopcua/opcua/server/internal_subscription.py:282-317 | nothing but a timer call hands out a result |
| Subscription.ExpiresExactly | ftest/freeopcua/opcua/server/internal_subscription.py:303-309 | on every run, stop requests among it, it is stopped if and only if it was told to, or some timer call found more than L results handed out since the last publish request |
| Subscription.GaplessNumbers | ftest/freeopcua/opcua/server/internal_subscription.py:327-330 | on every run the n-th message with data has number n, and an empty message carries the next number without using it up |
| Subscription.RetransmissionStore | ftest/freeopcua/opcua/server/internal_subscription.py:327-364 | on every run the stored numbers are exactly those of the data messages sent and not acknowledged since |
| Subscription.RepublishReturnsSent | ftest/freeopcua/opcua/server/internal_subscription.py:366-374 | republish of such a number returns the message that was sent under it |
| Publishing.RepublishUnknown | ftest/freeopcua/opcua/server/internal_subscription.py:371-374 | any other number is answered with the empty message |
| Publishing.AvailableExactly | ftest/freeopcua/opcua/server/internal_subscription.py:327-333 | on every run each result lists exactly the numbers that are outstanding then, its own among them if it has data |
| Publishing.CodesInOrder | ftest/freeopcua/opcua/server/internal_subscription.py:303-356 | on every run the status codes handed out, then those waiting, are all that were queued, in order, BadTimeout at the expiry among them |
| Publishing.CodeIsNotHeldBack | ftest/freeopcua/opcua/server/internal_subscription.py:350-356 | a result without a status code is handed out only when none is waiting |
| Subscription.NotificationConservation | ftest/freeopcua/opcua/server/internal_subscription.py:335-392 | for a fixed queue size q, what a publish takes for an item is exactly the last q of the values queued since the previous one, in order |
| Subscription.UnlimitedQueueLosesNothing | ftest/freeopcua/opcua/server/internal_subscription.py:335-392 | with q = 0 everything handed out, followed by what is pending, is everything ever queued |
| MonitoredService.CallbackRegistry.AddDatachangeCallback | ftest/freeopcua/opcua/server/address_space.py:643-656 | a new handle enters the attribute and the handle map, or the error status leaves both alone |
| MonitoredService.CallbackRegistry.DeleteDatachangeCallback | ftest/freeopcua/opcua/server/address_space.py:658-662 | the handle leaves both |
| MonitoredService.CallbackRegistry.SetAttributeValue | ftest/freeopcua/opcua/server/address_space.py:615-641 | the value is stored, and the callbacks to call are all of the attribute if and only if the value changed |
| MonitoredService.MonitoredItemService.CreateDataChangeItem | ftest/freeopcua/opcua/server/internal_subscription.py:141-158 | the item enters two of the maps under a new handle of the registry and sees the value at once; after an error only the counter has moved |
| MonitoredService.MonitoredItemService.CreateEventsItem | ftest/freeopcua/opcua/server/internal_subscription.py:121-139 | the item enters its event list, or the node does not offer events |
| MonitoredService.MonitoredItemService.DatachangeCallback | ftest/freeopcua/opcua/server/internal_subscription.py:185-217 | the item remembers the value, and a notice is queued exactly when the deadband lets it through |
| MonitoredService.MonitoredItemService.DeleteItem | ftest/freeopcua/opcua/server/internal_subscription.py:168-183 | the two scans with their early exits take the item out of every map and out of the registry |
| MonitoredService.MonitoredItemService.DeleteAllItems | ftest/freeopcua/opcua/server/internal_subscription.py:59-60 | all three maps are empty and the registry lost exactly their handles |
| MonitoredItems.CreateDataChangeKeeps | ftest/freeopcua/opcua/server/internal_subscription.py:141-158 | creation keeps the agreement of the maps and gives other subscriptions no handle |
| MonitoredItems.DeleteKeeps | ftest/freeopcua/opcua/server/internal_subscription.py:168-183 | so does deletion |
| MonitoredItems.CreateOutcome | ftest/freeopcua/opcua/server/internal_subscription.py:99-158 | a data-change item is refused for an unknown node or attribute, using up an id; otherwise it has the next id and handle, the value, and the request's client handle, filter and queue size, and its first notice is that value |
| MonitoredItems.CreateEventsOutcome | ftest/freeopcua/opcua/server/internal_subscription.py:121-139 | an event item is refused unless the lowest bit of the event notifier is set, and raises without a filter; otherwise it is listed last at its node |
| MonitoredItems.DeleteOutcome | ftest/freeopcua/opcua/server/internal_subscription.py:168-183 | an unknown item gives an error and changes nothing; otherwise exactly the item and its handles go |
| MonitoredRuns.AlwaysConsistent | ftest/freeopcua/opcua/server/internal_subscription.py:43-247 | on every run of creating and deleting subscriptions and items, of writes, of events and of nodes being added: each item is in exactly one event list or under exactly one handle, nothing dangles, and the handles are exactly those registered for the subscription |
| MonitoredRuns.StopRemovesOwnCallbacks | ftest/freeopcua/opcua/server/internal_subscription.py:277-280 | stopping empties the three maps and removes exactly the subscription's own callbacks; values and other callbacks stay |
| MonitoredRuns.WriteReachesRegistered | ftest/freeopcua/opcua/server/address_space.py:628-641 | a write that changes the value reaches exactly the items registered at that attribute |
| MonitoredRuns.WriteOfSameValue | ftest/freeopcua/opcua/server/address_space.py:615-634 | a write of the value that is there, or where no attribute is, changes nothing and reaches no item |
| MonitoredRuns.AddedAttributes | ftest/freeopcua/opcua/server/address_space.py:191-237 | a new node has the attributes it is added with and no callbacks, and no other attribute changes |
| MonitoredRuns.NeverReused | ftest/freeopcua/opcua/server/internal_subscription.py:104-109 | an item id or handle that is gone is never given out again, on any run |
| Engine.ItemsAreCurrent | ftest/freeopcua/opcua/server/internal_subscription.py:185-197 | on every run an item that listens to an attribute holds the attribute's value |
| Engine.RunsFromStartAreSound | ftest/freeopcua/opcua/server/internal_subscription.py:60-217 | every run from a new server keeps: the maps agree, every listening item is current, nothing is queued for an id not given out, and no queue is empty |
| Engine.PublishAcknowledges | ftest/freeopcua/opcua/server/subscription_service.py:51-55 | a publish request takes from each subscription exactly the messages it acknowledges there, and changes nothing else but the cycle counts |
| Notifications.ListenerStays | ftest/freeopcua/opcua/server/internal_subscription.py:121-183 | an item goes on listening where it was created, with its queue size, until it or its subscription is deleted, whatever else is created, deleted, written or triggered |
| Notifications.CausesReachResults | ftest/freeopcua/opcua/server/internal_subscription.py:185-243 | for an item, of either kind, whose queue holds the last q of a list, on every run that does not delete it: each result of its subscription carries for it exactly the last q of what it should have been sent since the result before, the first result counting the list as well, and the last q of what followed the last result are pending |
| Notifications.WritesReachPublish | ftest/freeopcua/opcua/server/internal_subscription.py:141-217 | from a new server, for a data-change item created in any run: its first result begins with the value at its creation, and every result carries the last q of that value, for the first, and of the values written to its attribute since the result before that changed the attribute and passed the deadband, in order |
| Notifications.EventsReachPublish | ftest/freeopcua/opcua/server/internal_subscription.py:219-243 | the same for an event item: every result carries the last q of the events triggered at its node since the result before, in order |
| Promptness.CauseIsInNextResult | ftest/freeopcua/opcua/server/internal_subscription.py:185-301 | on every run, what an item is to be sent is in the result of the next timer call of its running subscription, but for what its queue drops behind later ones |
| Promptness.WriteIsInNextResult | ftest/freeopcua/opcua/server/internal_subscription.py:185-301 | from a new server: a write that changes the attribute and differs from its value by more than an absolute deadband, if there is one, is in that result, under the client handle of the item |
| Promptness.EventIsInNextResult | ftest/freeopcua/opcua/server/internal_subscription.py:219-301 | the same for an event triggered at the node of an event item |
| Projection.RunProjects | ftest/freeopcua/opcua/server/subscription_service.py:22-102 | on every run of the engine each subscription is where its own timer calls, acknowledgements, notices and events lead a subscription alone, and is handed the same results, in the same order |
| Projection.SubscriptionIsRun | ftest/freeopcua/opcua/server/subscription_service.py:22-102 | so a subscription created in a run from a new server, with any others around it, is a run of a fresh one with the counts of its request: all the laws above hold of it |
| Projection.SubscriptionsExpire | ftest/freeopcua/opcua/server/subscription_service.py:22-102 | one of them: without publish requests it stops within L * (K + 2) + 2 of its timer calls, whatever else happens |
| Projection.EngineNumbers | ftest/freeopcua/opcua/server/subscription_service.py:22-102 | another: its results are numbered without a gap |
| NodeManagement.NodeManagementService.GenerateNodeid | ftest/freeopcua/opcua/server/address_space.py:491-504 | the recursion gives the number it counts to as soon as that is free, or raises when the frames are used up, with the counter where it got to |
| AddressSpace.GenerateExactly | ftest/freeopcua/opcua/server/address_space.py:491-504 | generation succeeds if and only if a number is free within so many steps above the counter as there are frames, and is then the first free one; otherwise it raises with the counter moved by all the steps |
| AddressSpace.ManyTakenIdsRaise | ftest/freeopcua/opcua/server/address_space.py:501-502 | a consistent space in which a thousand frames are not enough |
| NodeManagement.NodeManagementService.AddUniqueReference | ftest/freeopcua/opcua/server/address_space.py:254-264 | the for-else loop appends a reference whose type and target are new, refuses an opposite one, and otherwise changes nothing |
| NodeManagement.NodeManagementService.AddReferenceItem | ftest/freeopcua/opcua/server/address_space.py:341-359 | status and new graph for each of the checks |
| NodeManagement.NodeManagementService.AddNodeItem | ftest/freeopcua/opcua/server/address_space.py:191-237 | status, id and new graph for each of the branches, the exception of the id generation included |
| NodeManagement.NodeManagementService.DeleteUniqueReference | ftest/freeopcua/opcua/server/address_space.py:367-377 | the first matching reference goes, or BadNotFound and no change |
| NodeManagement.NodeManagementService.DeleteReferenceItem | ftest/freeopcua/opcua/server/address_space.py:379-391 | status and new graph, with the opposite half deleted as well when asked for |
| AddressSpace.FreeNumber | ftest/freeopcua/opcua/server/address_space.py:491-504 | the generated number is larger than the counter and free |
| AddressSpace.DeleteUniqueKeeps | ftest/freeopcua/opcua/server/address_space.py:367-377 | deletion removes exactly the reference asked for, succeeds exactly when it is there, and keeps the others |
| AddressSpace.AddReferenceEdges | ftest/freeopcua/opcua/server/address_space.py:341-359 | a reference is refused if and only if its opposite is there; otherwise exactly it is there afterwards in addition |
| References.AddedReference | ftest/freeopcua/opcua/server/address_space.py:254-264 | a reference whose type and target are not listed is appended with its class, and nothing else changes; if they are listed nothing changes |
| References.RefusedReference | ftest/freeopcua/opcua/server/address_space.py:341-347 | the checks of an addition in their order; a request that fails one changes nothing |
| References.DeleteReferenceEdges | ftest/freeopcua/opcua/server/address_space.py:367-391 | a deletion takes away exactly the edge asked for and, if bidirectional, the opposite edge at the target; the status is Good if and only if the edge asked for was there, a self-reference included |
| References.RefusedDeletion | ftest/freeopcua/opcua/server/address_space.py:379-387 | the checks of a deletion in their order; a request that fails one changes nothing |
| AddressSpace.LinkNodeEdges | ftest/freeopcua/opcua/server/address_space.py:221-293 | exactly the two halves of the parent link and, where it exists, the type link are added |
| References.LinkNodeReferences | ftest/freeopcua/opcua/server/address_space.py:191-293 | the new node lists its parent with the parent's class and its type under the class DataType, the parent lists it last with its class, and all other lists stay |
| References.NodeOutcome | ftest/freeopcua/opcua/server/address_space.py:191-237 | the status of an addition: the first reason that applies, and then no node changes; otherwise exactly the new node comes |
| AddressSpace.AddedUnderParent | ftest/freeopcua/opcua/server/address_space.py:191-237 | every successful add under a parent leaves the forward and the inverse half |
| AddressSpace.RunKeeps | ftest/freeopcua/opcua/server/address_space.py:185-391 | on every run of adding nodes and of adding and deleting references: no node holds two references with one type and target, and every target exists |
| AddressSpace.GeneratedIdsIncrease | ftest/freeopcua/opcua/server/address_space.py:491-504 | a generated id is the smallest free one above the counter and larger than every id generated before it in its namespace, whatever happened in between |
| NodeManagement.PostponeReferences.AddReferences | ftest/freeopcua/opcua/server/standard_address_space/standard_address_space.py:21-23 | the references that fail now are appended to the postponed ones |
| NodeManagement.PostponeReferences.Exit | ftest/freeopcua/opcua/server/standard_address_space/standard_address_space.py:29-32 | all postponed references are tried once more; what still fails is what the assertion looks at |
| Loading.CallIsSteps | ftest/freeopcua/opcua/server/standard_address_space/standard_address_space.py:21-23 | a call with several references is the same as one call for each |
| Loading.LoadGivesExpected | ftest/freeopcua/opcua/server/standard_address_space/standard_address_space.py:15-32 | nothing remains at the end, and the graph has exactly the nodes and references it had or was asked for |
| Loading.OrderDoesNotMatter | ftest/freeopcua/opcua/server/standard_address_space/standard_address_space.py:15-32 | two interleavings of the same requests load the same nodes and the same references |
| Browse.CollectionEnds | ftest/freeopcua/opcua/server/address_space.py:124-132 | the recursion over subtypes ends if and only if no cycle of forward HasSubtype references can be reached, and then as many frames as the space has nodes and one more are enough |
| Browse.CollectionIsClosure | ftest/freeopcua/opcua/server/address_space.py:124-132 | what it collects is exactly what is reachable by one or more forward HasSubtype references |
| Browse.BrowseNode | ftest/freeopcua/opcua/server/address_space.py:83-93 | the loop keeps the suitable references in stored order; an unknown node gives the error status |
| Browse.SelectIsMatching | ftest/freeopcua/opcua/server/address_space.py:83-141 | a browse that ends returns exactly the references that match direction, type or subtype, and class mask |
| Browse.TypeTestDecides | ftest/freeopcua/opcua/server/address_space.py:108-122 | the type test means: no type asked for, the same identifier, or a type below it; without subtypes HasSubtype itself is excluded |
| Browse.CollectionFails | ftest/freeopcua/opcua/server/address_space.py:124-132 | for every number of frames: the recursion over subtypes runs out of them if and only if some path of forward HasSubtype references from the type has more nodes than there are frames |
| Browse.BrowseFails | ftest/freeopcua/opcua/server/address_space.py:83-132 | for every number of frames: a browse fails if and only if some such path from the wanted type is longer than the frames are many and some reference makes it search |
| Browse.BrowseFailsOnCycles | ftest/freeopcua/opcua/server/address_space.py:83-132 | a cycle gives such a path for every number of frames, and with more frames than the space has nodes a browse fails if and only if the wanted type leads into a cycle and some reference makes it search |
| Browse.WithoutSubtypes | ftest/freeopcua/opcua/server/address_space.py:115-122 | exactly where the answer for IncludeSubtypes = False differs from the wanted type alone |
| Browse.SubtypesAdmittedAnyway | ftest/freeopcua/opcua/server/address_space.py:115-122 | a graph in which a subtype is returned although subtypes were not asked for |
| Browse.SelfSubtypeExhausts | ftest/freeopcua/opcua/server/address_space.py:124-132 | a graph, with one type that is its own subtype, for which no number of frames is enough |
| Browse.MaskTestsOneBit | ftest/freeopcua/opcua/server/address_space.py:102-104 | for a node class, which is one bit, the mask admits it exactly when that bit is set |
| Namespaces.Server.RegisterNamespace | ftest/freeopcua/opcua/server/server.py:339-349 | a known URI gives its first index and changes nothing; a new one is appended |
| Namespaces.XmlImporter.MapFileNamespaces | ftest/freeopcua/opcua/common/xmlimporter.py:29-39 | the loop registers the URIs in turn and maps each file index, from 1, to the server's |
| Namespaces.XmlExporter.NsIdxsOfNodes | ftest/freeopcua/opcua/common/xmlexporter.py:90-103 | the indices used by ids, browse names and references, each once, without 0 |
| Namespaces.XmlExporter.AddIdxsFromUris | ftest/freeopcua/opcua/common/xmlexporter.py:105-110 | the indices of the given URIs are added, each once |
| Namespaces.XmlExporter.MakeIdxDict | ftest/freeopcua/opcua/common/xmlexporter.py:81-88 | positions from 1 in sorted order, up to the first index outside the array |
| Namespaces.XmlExporter.AddNamespaces | ftest/freeopcua/opcua/common/xmlexporter.py:65-79 | the map and the URIs written, in terms of the set of used indices alone: the order in which they were found does not matter |
| Namespaces.MapNamespacesGives | ftest/freeopcua/opcua/common/xmlimporter.py:29-39 | registering only appends, and each file index is mapped to an index with its own URI |
| Namespaces.NamespaceRoundTrip | ftest/freeopcua/opcua/common/xmlexporter.py:65-110 | every used index, and 0, keeps its URI through export and import into any server with the same URI at 0, if and only if none of the URIs given to the exporter is that one |
| Namespaces.SameServerIdentity | ftest/freeopcua/opcua/common/xmlimporter.py:128-139 | on the same server an index comes back as itself and the array is unchanged |
| Namespaces.OutsideIsKept | ftest/freeopcua/opcua/common/xmlexporter.py:81-88 | an index outside the array keeps its number |
| XmlOrder.SortNodesByParentId | ftest/freeopcua/opcua/common/xmlimporter.py:405-446 | the nested loops with their removals compute the rounds of the specification, for every file whose sorting ends |
| XmlOrder.EndsExactly | ftest/freeopcua/opcua/common/xmlimporter.py:421-445 | the loop is left if and only if no set of waiting nodes holds all the nodes with their parents' ids, and then in at most one round for each node; ids may repeat |
| XmlOrder.CircularParentsNeverEnd | ftest/freeopcua/opcua/common/xmlimporter.py:421-445 | two nodes that name each other as parents |
| XmlOrder.RankedEnds | ftest/freeopcua/opcua/common/xmlimporter.py:421-445 | an acyclic parent relation, given as a rank, is enough |
| XmlOrder.SortedIsOrdered | ftest/freeopcua/opcua/common/xmlimporter.py:405-446 | the result is a permutation of the file, and every node in a mapped namespace with its parent in the file comes after its parent |
| XmlOrder.ParentComesFirst | ftest/freeopcua/opcua/common/xmlimporter.py:421-446 | in the sorted list a node of a mapped namespace stands behind a node with its parent's id if the file has one |
| XmlOrder.FreeNodesKeepOrder | ftest/freeopcua/opcua/common/xmlimporter.py:421-446 | the nodes that wait for no parent keep the order of the file |
| XmlOrder.SortedIsFixed | ftest/freeopcua/opcua/common/xmlimporter.py:405-446 | a list is left as it is if and only if its parents already come first, so sorting twice is sorting once |
| XmlImport.NodesImportExactly | ftest/freeopcua/opcua/common/xmlimporter.py:64-71 | the nodes of any list are all added, and no others, if and only if every id is new and every parent that a node is linked to is on the server or earlier in the list; otherwise the import raises |
| XmlImport.SortedImportsExactly | ftest/freeopcua/opcua/common/xmlimporter.py:62-71 | when the sorted nodes are added: if and only if the ids are new and distinct and every node that does not wait finds its parent on the server or earlier in the sorted list; for nodes that wait the sorting has seen to it |
| XmlImport.MappedFileImports | ftest/freeopcua/opcua/common/xmlimporter.py:62-71 | a file all of whose namespaces are mapped, and whose outside parents are on the server, is added whole after sorting |
| XmlImport.UnmappedChildFails | ftest/freeopcua/opcua/common/xmlimporter.py:426-433 | a file whose sorting ends and is no help: a node of an unmapped namespace listed before its parent makes the import raise |
| XmlReferences.ItemIs | ftest/freeopcua/opcua/common/xmlimporter.py:141-152 | the node that an element asks for: id, parent, link and type with their namespaces mapped and their identifiers as they are, the parent only with a link |
| XmlReferences.FileImportsExactly | ftest/freeopcua/opcua/common/xmlimporter.py:60-75 | once the nodes are in, the final assertion holds if and only if every reference element has its mapped target on the server or in the file and the opposite edge is neither there, nor a link of a node, nor asked for; the graph then holds exactly what was there, the links of the nodes, and for each element the edge from its node, of its type, to the mapped target, in its own direction |
| History.HistoryDict.NewHistorizedNode | ftest/freeopcua/opcua/server/history.py:85-89 | a node is historized once; a second request raises and changes nothing |
| History.HistoryDict.SaveNodeValue | ftest/freeopcua/opcua/server/history.py:91-101 | appending and the two prunings of the list; other nodes are untouched |
| History.HistorySQLite.NewHistorizedNode | ftest/freeopcua/opcua/server/history_sql.py:30-53 | the limits are replaced, and a table is created unless there is one |
| History.HistorySQLite.SaveNodeValue | ftest/freeopcua/opcua/server/history_sql.py:55-99 | the insertion and the two deletions; without limits the row stays and the lookup raises |
| History.SaveAgreesExactly | ftest/freeopcua/opcua/server/history_sql.py:55-99 | with timestamps that never fall, a save leaves the same values in both stores unless the count is exceeded and the two earliest unexpired timestamps are equal, when the table loses both |
| History.DictKeepsLast | ftest/freeopcua/opcua/server/history.py:91-101 | after every run of saves the list holds the last count of the unexpired values of the whole run |
| History.StoresAgree | ftest/freeopcua/opcua/server/history_sql.py:55-99 | for one node, on every run with increasing timestamps and a clock that never falls, both stores hold the same list, and it is that one |
| HistoryNodes.StoresAgreeExactly | ftest/freeopcua/opcua/server/history_sql.py:55-99 | for several nodes, with their saves interleaved in any way: the stores agree on every such run if and only if no two historized nodes share a table |
| HistoryNodes.NumberAndTextShareTable | ftest/freeopcua/opcua/server/history_sql.py:236-237 | a numeric and a text identifier of the same digits are different ids with one table |
| HistoryNodes.NumbersOwnTables | ftest/freeopcua/opcua/server/history_sql.py:236-237 | nodes with numeric identifiers never share a table |
| HistoryNodes.TableLosesBoth | ftest/freeopcua/opcua/server/history_sql.py:93-99 | two values at one time of which one is to be kept: the list keeps the last, the table none |
| History.ReadsAgree | ftest/freeopcua/opcua/server/history_sql.py:101-134 | with both bounds given both stores answer alike if and only if the bounds differ or what lies at the one time reads the same backwards |
| History.StrictReadsAgree | ftest/freeopcua/opcua/server/history_sql.py:101-134 | at increasing timestamps they always do |
| HistoryReads.DictReadMeans | ftest/freeopcua/opcua/server/history.py:103-123 | a read of the list at increasing timestamps: without a start everything, newest first; without an end everything from the start on; otherwise exactly what lies between both, newest first if the start is later |
| HistoryReads.SqlReadMeans | ftest/freeopcua/opcua/server/history_sql.py:101-134 | a read of the table: exactly what lies between the bounds, a missing start being 0 and a missing end a day from now, newest first unless a start is given and earlier |
| HistoryReads.SqlPage | ftest/freeopcua/opcua/server/history_sql.py:101-134 | with a limit: the first so many of that, and the timestamp of the next |
| HistoryReads.DictPage | ftest/freeopcua/opcua/server/history.py:124-127 | the list gives the timestamp after the next, and raises where the next is the last |
| History.ReadsWithoutStart | ftest/freeopcua/opcua/server/history.py:109-113 | without a start the list ignores the end: the answers agree if and only if no value is later than it |
| History.ReadsWithoutEnd | ftest/freeopcua/opcua/server/history_sql.py:267-268 | without an end the table stops a day after the clock: they agree if and only if no value is later |
| History.DictPagingSkips | ftest/freeopcua/opcua/server/history.py:124-126 | in either direction, whenever a page leaves values over, the read raises (with exactly one over) or the value just after the page is in neither the page nor the rest |
| History.PageBoundary | ftest/freeopcua/opcua/server/history_sql.py:101-134 | asking again from the continuation point gives exactly the rest if and only if the page ends between two different timestamps and, where the read turns round at its end, the rest reads the same backwards |
| History.PagesAreComplete | ftest/freeopcua/opcua/server/history_sql.py:101-134 | paging through the table ends, every page but the last is full, and together they are the unpaged read, ascending and descending |

## Left out

- `Channel.SecureConnection.ReceiveFromHeaderAndBody`: does not model Hello, Acknowledge and Error messages, which change the chunk size limit, nor the choice among several policies by an open message, because it is about a connection whose policy is selected; the mode of an open request is checked.
- `Chunk.ReadChunk`: does not model a header that declares fewer bytes than itself, nor string lengths below -1; Python then reads with a negative size and moves the buffer backwards, so such input ends the model's run as an error.
- `Framing.OPCUAProtocol.ProcessData`: does not model a processor that reads more or less than the declared body, as a Hello message with spare bytes makes it do; the secure messages take exactly the declared body. An exception ends the call, so what it left unread does not matter.
- `Framing.OPCUAProtocol.DataReceived`: does not model data that arrives after the transport was closed.
- `Crypto.DecryptEncrypt`: does not model AES keys of 24 bytes; the code takes the key length for the block size, which the two policies' lengths of 16 and 32 allow.
- `Conversation.KeyedDelivery`: is stated for symmetric messages, because only they use the derived keys; `Conversation.EndToEndDelivery` has open messages too.
- `Subscription.InternalSubscription.PopPublishResult`: does not model the order between different items in one notification, which is the dict's.
- `MonitoredService.MonitoredItemService.DatachangeCallback`: does not model a status error passed in place of a value; a comparison with a missing value raises inside the callback, which the writer logs, and queues nothing.
- `MonitoredService.CallbackRegistry.SetAttributeValue`: does not model timestamps and value callbacks of attributes.
- `NodeManagement.NodeManagementService.AddNodeItem`: does not model the node's attributes other than its class, nor the names copied into references for display.
- `Browse.BrowseNode`: does not limit the number of references, as the code does not.
- `XmlOrder.SortNodesByParentId`: requires that the sorting ends, because otherwise the code never returns; `XmlOrder.EndsExactly` says when that is.
- `XmlImport.NodesImportExactly`: is about files that name their nodes; for a null identifier the server chooses an id that the file cannot tell beforehand. Values and texts of nodes and failures of a network client are not modelled.
- Node deletion: it changes the lists and dicts it iterates over, so no clean state after it follows from the code.
- The where-clause evaluator, and event fields: several operators pass an operand where an index is expected.
- `modify_monitored_items`.
- `Notifications.EventsReachPublish`: takes the where clauses of event items to hold, so every event triggered at the node counts.
- GUID node ids, and the texts that node ids and browse names are written as.
- Data-type and reference-type ids in exported files, which the exporter does not re-index; XML elements, aliases and pretty printing.
- Event history, SQL statements as text, and rows already stored when limits are set; the table is the sequence of its rows by `_Id`, and timestamps are compared as numbers (their ISO texts have the same order for the years a timestamp can have).
- Times before 1601, which a DateTime on the wire does not have.
- `Channel.SecureConnection.OpenChannel`: refuses the token after 2^32 - 1 where the code raises only when it writes that token.
- `Session.SessionDelivers`: takes an opening as one exchange; a message that the client sends between its open request and the answer is not part of a session. Lifetimes of channels are not modelled.
- `Playing.SessionPlaysExactly`: is for symmetric ciphers with blocks of at most 256 bytes, as all derived keys give; before there are keys nothing is encrypted.
- Policy factories and certificates.
- RSA, AES, HMAC and X.509 themselves, and UTF-8.
- Sockets, threads, locks and timers: the model takes the steps one after another, as the locks do.
- The C++ code, the client beyond its half of an opening, the generated service structures and the schema generators.
