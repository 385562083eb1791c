# A Dafny model of the TP-Link Deco client library

This project models the parts of the library whose behaviour is hard to see from one function:
the TMP/AppV2 wire protocol with its reassembling exchange loop, the idempotency store of the
REST service, several printers and parsers that must invert each other, and the verifiers and
the reconnecting client that talk to a router whose answers nobody controls. Every file is a
module of its own name.

| module | what it models |
|---|---|
| `Wrappers`, `Documents` | optional values, operation classes, JSON documents |
| `Bytes`, `Crc32`, `CrcLaw` | octets and big-endian fields; CRC-32 computed bit by bit; that it is the CRC of section 8 of RFC 1952 |
| `TmpWire`, `TmpReader` | frames and messages as functions on octets; the readers that refine them on a stream handing octets over in pieces of any size |
| `TmpExchange`, `TmpReassembly`, `TmpOverlap`, `TmpDiscipline`, `TmpDialogue` | the exchange loop as a machine over messages: what it returns from disjoint and from overlapping chunks, what it may send, and what it must send and answer |
| `TmpTalk`, `TmpLayout` | the machine on a line, which delivers octets and may refuse any send; the octets of frames and messages one by one |
| `TmpSession`, `TmpClient` | the session object and the reconnecting client, proved against `TmpTalk` on real streams |
| `IdempotencyProtocol`, `IdempotencyHistory`, `IdempotencyStore` | the store as a transition system over any number of executions; what a request is answered with, by the history alone; the store object with real dictionaries |
| `NumericLiterals`, `Rsa`, `Multipart`, `Schema` | scanner, block encryption, form printer, schema printers and the parser of their output |
| `NoopVerifier`, `LabTarget` | the current-value no-op verifiers against any router; the identity of the controller a lab write may go to |
| `Fuzzy` | read variants: construction, value-free evidence, restoration, guard |
| `Firmware` | firmware rows grouped into releases, over both interfaces |

Code that updates things in place is a class or a method with a loop, proved against a function;
the properties are lemmas about that function.

How the environment enters:

- A stream is the octets still to come, the way reception ends, and an arbitrary cut into pieces;
  and, for every send by its number, whether it goes through. A refused send is a transport error.
- A deadline is `patience`: how many receptions end before it passes. A reception that times out
  between frames does nothing, so it is not counted.
- The network's part in `TmpClient` is a parameter: whether the channel is still up, and what a
  new connection delivers and accepts.
- A router in `NoopVerifier` is an unconstrained reply to each call; an error also tells whether the
  request had left before it came up.
- Clocks, random octets, the frame serial, and the operation run under an idempotency key are
  parameters or arbitrary values.

What turned out not to hold as one might expect:

- Truthful chunks of one payload that overlap may or may not give it back. They do, for every
  payload, if and only if the chunks are tiled when the chain reaches the end: in order of
  offsets, each chunk that is not empty starts at the sum of the lengths before it, or that sum
  has reached the total (`TmpOverlap.TiledExactly`). In any other shape the chain walk and the
  sorted join differ, and some payload is not returned; an offset that comes again with another
  length is a conflict (`TmpOverlap.TruthfulRun`).
- A form value that starts with the boundary line is accepted by the multipart printer and
  not read back by the parser modelled here; this is the only such case (`Multipart.PrintedParses`,
  `Multipart.ValueCutsItsPart`).
- `rsa_encrypt` gives an empty ciphertext for any plaintext when the modulus has fewer than
  eleven octets, and raises `ValueError` for exactly eleven (`Rsa.RoundTrip`).
- That every fuzzy candidate passes the guard depends on the catalogue. It holds where no entry
  that variants are built from requires a parameter, as in the catalogue the library ships
  (`Fuzzy.BuiltCandidates`). With another catalogue, forming the request raises `ValueError`
  exactly when the variant leaves out a required parameter (`Fuzzy.GuardAllows`, `Fuzzy.GuardRefuses`).
- A no-op verifier catches the errors it expects, and no others, so a write that left for the
  router can end up neither verified nor rolled back. That happens exactly when the write raises an
  error that is not caught after it left; or, once it left, when the verifying read raises such an
  error, or does not show the preflight value and the rollback raises an error before it is sent
  (`NoopVerifier.HttpRollbackLost`, `NoopVerifier.TmpRollbackLost`). On a TMP client the last case
  arises when the verifying read loses its connection for good: the next write finds no session and
  raises `RuntimeError` (`TmpClient.ReadThenRestore`, `NoopVerifier.RollbackNeverSent`).
- The size limit tested in `_read_frame` is never reached: the length field has 16 bits
  (`TmpWire.NeverOversized`). The branch is modelled where the code has it.

## Model

| member | source | states |
|---|---|---|
| Crc32.FeedBitsInjective | src/tplink_deco_api/tmp_protocol.py:51-52 | two different CRC states stay different however many equal bits follow |
| Crc32.ShortStringsDiffer | src/tplink_deco_api/tmp_protocol.py:51-52 | different bit strings of equal length up to 32 lead from one state to different states |
| Crc32.BurstDetected | src/tplink_deco_api/tmp_protocol.py:51-52 | any change confined to four consecutive octets changes the checksum, whatever surrounds it |
| CrcLaw.ChecksumExactly | src/tplink_deco_api/tmp_protocol.py:51-52 | for every message the checksum is the one number below 2 to the 32 that leaves, as a remainder, a multiple of the generator with exponents 32, 26, 23, 22, 16, 12, 11, 10, 8, 7, 5, 4, 2, 1, 0 |
| CrcLaw.ChecksumBalances | src/tplink_deco_api/tmp_protocol.py:51-52 | the division of every message, octets least significant bit first and both ends complemented, comes out with the checksum |
| CrcLaw.ShortProduct | src/tplink_deco_api/tmp_protocol.py:51-52 | a multiple of the generator without a term from 32 up is zero |
| TmpWire.PackThenParse | src/tplink_deco_api/tmp_protocol.py:67-127 | reading a packed frame gives its fields back, with the checksum filled in, and leaves exactly what follows it |
| TmpWire.ParseThenPack | src/tplink_deco_api/tmp_protocol.py:67-127 | packing an accepted data frame with its own serial gives the octets consumed |
| TmpWire.ControlThenPack | src/tplink_deco_api/tmp_protocol.py:67-127 | the same for control frames, which have no body |
| TmpWire.NeverOversized | src/tplink_deco_api/tmp_protocol.py:101-105 | no octets whatever lead to the size failure of the frame reader |
| TmpWire.FramesRoundTrip | src/tplink_deco_api/tmp_protocol.py:67-127 | a concatenation of packed frames reads back as the same sequence |
| TmpWire.MessageRoundTrip | src/tplink_deco_api/tmp_protocol.py:130-184 | a message whose fields fit packs without failure and reads back as itself, leaving the rest |
| TmpWire.InterpretThenPack | src/tplink_deco_api/tmp_protocol.py:130-184 | every accepted message, packed again, gives the payload it was read from |
| TmpWire.BurstRejected | src/tplink_deco_api/tmp_protocol.py:83-127 | a data frame altered within four consecutive octets is refused with a checksum mismatch, unless the control, length or checksum field was hit |
| TmpWire.ChecksumFieldRejected | src/tplink_deco_api/tmp_protocol.py:83-127 | any change of the checksum field alone is refused too |
| TmpLayout.FrameLayout | src/tplink_deco_api/tmp_protocol.py:67-88 | every field of a packed data frame stands at its octets, numbers big-endian; the checksum is that of the frame with the placeholder in its place |
| TmpLayout.ControlLayout | src/tplink_deco_api/tmp_protocol.py:67-81 | a control frame is its four octets, and has no payload |
| TmpLayout.MessageLayout | src/tplink_deco_api/tmp_protocol.py:130-149 | every field of a packed message stands at its octets, in a frame of version 1.1 under business header 1, 2 |
| TmpLayout.ControlReceived | src/tplink_deco_api/tmp_protocol.py:152-160 | in the place of a message a refusal fails with its reason and any other control frame is silent |
| TmpLayout.DataReceived | src/tplink_deco_api/tmp_protocol.py:109-116 | a well-packed data frame is a message, or fails by its error code, a short payload or another business header, in that order |
| TmpLayout.FirstAnswerDecides | src/tplink_deco_api/tmp_protocol.py:294-311 | while an association is awaited the first frame that is a refusal or an acceptance decides, whatever frames come before |
| TmpLayout.HandshakeText | src/tplink_deco_api/tmp_protocol.py:24-38 | the control frames of a session, octet by octet, and the operations and identifiers of its negotiation |
| TmpReader.ReadExact | src/tplink_deco_api/tmp_protocol.py:55-64 | for every fragmentation: exactly the octets asked for, or the stream's failure once they run out |
| TmpReader.ReadFrame | src/tplink_deco_api/tmp_protocol.py:91-127 | for every fragmentation, the frame or the failure, and the octets left, that the description on whole octet strings gives |
| TmpReader.ReadMessage | src/tplink_deco_api/tmp_protocol.py:152-184 | the same for messages; control frames other than a refusal are silent |
| TmpReader.TmpStream.SendAll | src/tplink_deco_api/tmp_ssh_stream.py:108-113 | a send goes through or is refused; a refused one records nothing |
| TmpExchange.ContiguousSize | src/tplink_deco_api/tmp_protocol.py:187-194 | the loop terminates on every chunk table and ends where the chain from zero ends |
| TmpReassembly.ChainFull | src/tplink_deco_api/tmp_protocol.py:187-194 | on a table that holds every segment from one on, the chain reaches the end of the payload |
| TmpReassembly.ChainGap | src/tplink_deco_api/tmp_protocol.py:187-194 | with a segment missing, the chain stops before the end |
| TmpReassembly.SortedJoinFull | src/tplink_deco_api/tmp_protocol.py:400-403 | on disjoint segments the sorted join is the payload |
| TmpReassembly.Reassembly | src/tplink_deco_api/tmp_protocol.py:339-413 | for any cut of any payload, any order, duplicates and other traffic: after every prefix the exchange has returned exactly the payload if all segments have arrived, and is waiting otherwise |
| TmpReassembly.EmptyResponse | src/tplink_deco_api/tmp_protocol.py:400-413 | an empty response is returned at its first chunk, whatever follows |
| TmpReassembly.OverlapFails | src/tplink_deco_api/tmp_protocol.py:387-413 | one overlap that fails: three truthful pieces of one payload, the middle one repeated, end in a mismatch |
| TmpOverlap.TiledJoin | src/tplink_deco_api/tmp_protocol.py:400-403 | for every payload, the sorted join of a tiled table starts with the payload, once it is long enough |
| TmpOverlap.ClashOverlaps | src/tplink_deco_api/tmp_protocol.py:187-194 | when the chain reaches the end, the first chunk out of place starts before the sum of the lengths before it, so it overlaps them |
| TmpOverlap.UntiledPayload | src/tplink_deco_api/tmp_protocol.py:400-403 | for every other shape whose chain reaches the end there is a payload of that length that the join gets wrong |
| TmpOverlap.TruthfulRun | src/tplink_deco_api/tmp_protocol.py:339-413 | on truthful chunks cut in any way: waiting until the chain reaches the end, a conflict exactly where an offset comes again with another length, then the answer from the sorted join |
| TmpOverlap.TiledExactly | src/tplink_deco_api/tmp_protocol.py:339-413 | traffic with given offsets and lengths gives back every payload of the total length if and only if it completes a tiled shape without a conflict |
| TmpOverlap.OverlapsOfBothKinds | src/tplink_deco_api/tmp_protocol.py:387-413 | some overlapping shapes are tiled and some are not |
| TmpDiscipline.ChainGrows | src/tplink_deco_api/tmp_protocol.py:187-194 | adding a chunk never makes the contiguous size smaller |
| TmpDiscipline.JoinCoversChain | src/tplink_deco_api/tmp_protocol.py:400-403 | the sorted join is never shorter than the contiguous size |
| TmpDiscipline.ReturnedIsDeclared | src/tplink_deco_api/tmp_protocol.py:366-413 | whatever arrives, a returned response has the length and the checksum that the first accepted chunk declared, and at most 16 MiB |
| TmpDiscipline.SpokenFits | src/tplink_deco_api/tmp_protocol.py:130-149 | whatever arrives, every message an exchange sends, from the opening on, has fields that fit the header, so packing it never fails |
| TmpDiscipline.SpokenIsOwn | src/tplink_deco_api/tmp_protocol.py:322-428 | whatever arrives, every message an exchange sends carries its own operation and identifier |
| TmpDiscipline.ExchangeOrderly | src/tplink_deco_api/tmp_protocol.py:334-408 | acknowledged sizes never go down and never exceed the total; pulls other than the one at zero are strictly increasing and strictly between zero and the total; the pull at zero is sent at most once |
| TmpDiscipline.AcknowledgedBytesArrived | src/tplink_deco_api/tmp_protocol.py:387-399 | every octet that an acknowledgement covers has arrived by the time it is sent |
| TmpDiscipline.PrefixSends | src/tplink_deco_api/tmp_protocol.py:339-413 | what is sent never depends on what has not arrived yet |
| TmpDiscipline.StaleTrafficIgnored | src/tplink_deco_api/tmp_protocol.py:344-353 | removing all traffic of other exchanges changes neither the outcome nor any message sent |
| TmpDiscipline.RecentRepliesIgnored | src/tplink_deco_api/tmp_protocol.py:320-353 | removing all that arrives under an identifier of any of the last 65,535 exchanges of the session changes neither how the present one ends nor what it sends |
| TmpDialogue.Dialogue | src/tplink_deco_api/tmp_protocol.py:322-361 | while an exchange has not ended it has sent its request whole and once; the pull at zero if and only if the payload is empty or was acknowledged to its end; one acknowledgement for each pushed chunk, of the end of the chain so far; one pull each time the chain grew |
| TmpDialogue.LastPull | src/tplink_deco_api/tmp_protocol.py:404-408 | once the chain ends past zero the last later pull is at its end |
| TmpDialogue.LastWord | src/tplink_deco_api/tmp_protocol.py:387-413 | the message that completes a response is acknowledged if it was pushed, and nothing more is said |
| TmpDialogue.NextOutcome | src/tplink_deco_api/tmp_protocol.py:344-413 | what the next event makes of an exchange that has not ended, by the messages that arrived: which failure, waiting, or the response assembled from the chunks |
| TmpTalk.RunOnIsRun | src/tplink_deco_api/tmp_protocol.py:313-416 | on a line the loop is the machine run on the decoded messages, cut at the first send that is refused |
| TmpTalk.ExchangedIsRun | src/tplink_deco_api/tmp_protocol.py:313-416 | a whole exchange ends as the machine does and sends what it sends, or fails with a transport error at its first refused send, having sent exactly what came before |
| TmpTalk.LostExactly | src/tplink_deco_api/tmp_protocol.py:313-416 | an exchange fails by an unexpected end or a transport error if and only if one of its sends is refused or the octets to come run out before it has ended |
| TmpTalk.DecodeWire | src/tplink_deco_api/tmp_protocol.py:130-184 | the octets that carry a sequence of messages and greetings decode to that sequence |
| TmpTalk.RunEnded | src/tplink_deco_api/tmp_protocol.py:339-416 | a run that has ended does not notice what arrives afterwards |
| TmpTalk.PayloadOverTheWire | src/tplink_deco_api/tmp_protocol.py:313-416 | end to end: octets that carry all segments of a cut payload, in any order and among other traffic, make the exchange return that payload whenever the deadline leaves time for them, whatever follows, unless one of its sends is refused, and then it fails |
| TmpSession.TmpAppV2Session.Associate | src/tplink_deco_api/tmp_protocol.py:294-311 | the first refusal or acceptance decides; acceptance is answered with two control frames; a refused send ends it, with exactly the frames before it sent |
| TmpSession.TmpAppV2Session.SendPull | src/tplink_deco_api/tmp_protocol.py:418-428 | sends one message that a peer reads back as the pull, or reports that it was refused |
| TmpSession.TmpAppV2Session.Handle | src/tplink_deco_api/tmp_protocol.py:350-386 | one turn of the loop gives the machine's verdict and sends exactly its messages, or fails at the first that is refused |
| TmpSession.TmpAppV2Session.Accept | src/tplink_deco_api/tmp_protocol.py:387-413 | the same once a chunk has passed the checks |
| TmpSession.TmpAppV2Session.Converse | src/tplink_deco_api/tmp_protocol.py:339-416 | the whole loop returns, reads and sends what the machine does on the line, refused sends included, or times out |
| TmpSession.TmpAppV2Session.Exchange | src/tplink_deco_api/tmp_protocol.py:313-416 | range errors send nothing and use no identifier; otherwise opening and loop together do what the machine does on the line, under the next identifier |
| TmpSession.TmpAppV2Session.Open | src/tplink_deco_api/tmp_protocol.py:213-220 | ready exactly when association and both handshake exchanges succeed, in that order; result, octets read and messages sent are those of the negotiation on the line, refused sends included |
| TmpSession.TmpAppV2Session.RequestRead | src/tplink_deco_api/tmp_protocol.py:222-234 | refused with nothing sent unless the session is ready and the operation is catalogued as read-only; otherwise one exchange |
| TmpSession.TmpAppV2Session.RequestMutation | src/tplink_deco_api/tmp_protocol.py:248-271 | the same for operations catalogued as mutations |
| TmpSession.RefusedExactly | src/tplink_deco_api/tmp_protocol.py:222-234 | a request is begun exactly on a ready session, for a catalogued operation of its class, with an opcode of 16 bits and at most 8,156 octets |
| TmpSession.TmpAppV2Session.Close | src/tplink_deco_api/tmp_protocol.py:273-278 | not ready afterwards and the stream closed, whether or not the BYE goes through; still all that was ever sent belongs to the log, where only handshakes come before ready and only classified operations after |
| TmpSession.ExchangeAccounted | src/tplink_deco_api/tmp_protocol.py:313-428 | entering an exchange in the log accounts for all it sends: every call to the stream is a control frame or carries a message of a logged exchange, under its operation and identifier |
| TmpClient.DecoTmpClient.Attempt | src/tplink_deco_api/tmp_client.py:56-63 | connects and negotiates exactly as the new line decides, sending only control frames and handshakes; the stream of a failed attempt is closed |
| TmpClient.DecoTmpClient.Open | src/tplink_deco_api/tmp_client.py:52-65 | a live session is kept; otherwise the result is that of negotiating on the new connection, a failure closes its stream and leaves the old session in place, and what is added to the client's log is the new session's own log, which accounts for all it sent: handshakes |
| TmpClient.DecoTmpClient.Close | src/tplink_deco_api/tmp_client.py:80-87 | forgets the session and closes its stream, whether or not the BYE goes through; nothing else is sent on it |
| TmpClient.DecoTmpClient.AttemptRead | src/tplink_deco_api/tmp_client.py:103-111 | answers exactly as the present session does on its line, or that there is none, with nothing sent; one request on the session at most, since what is added to the client's log is what was added to the session's; leaves the session as live as it was |
| TmpClient.DecoTmpClient.Reconnect | src/tplink_deco_api/tmp_client.py:112-119 | the old stream is closed with nothing more begun on it, and the answer depends on the new connection alone; at most one exchange besides handshakes is begun on the new session, whose log is what is added; afterwards there is a live session exactly when reopening succeeded and the second attempt kept its connection |
| TmpClient.DecoTmpClient.RequestRead | src/tplink_deco_api/tmp_client.py:67-75 | with failures anywhere, in receiving or sending: on a live session there is a second round if and only if the read is begun and its line is lost, a send refused or the octets run out, before it has ended; then the old stream is closed, and a second unexpected end or transport error leaves no session; any other answer leaves the session live; what the old and the new session began, by their own logs, is at most two exchanges for this read besides handshakes |
| TmpClient.DecoTmpClient.RequestMutation | src/tplink_deco_api/tmp_client.py:77-78 | with failures anywhere: one request on the present session, never retried, since what is added to the client's log is what was added to the session's, one exchange at most; without a live session nothing is sent and nothing changes |
| TmpClient.LimitedInTurn | src/tplink_deco_api/tmp_client.py:108-120 | the limits of two stretches of traffic add up |
| TmpClient.ReadThenRestore | src/tplink_deco_api/tmp_boolean_noop_verification.py:42-62 | the restoring write finds no session if and only if the channel has gone down meanwhile, or there was no live session before, or the read lost its connection and no session outlasted it |
| IdempotencyProtocol.BeginKeepsInv | src/tplink_deco_api/rest/_in_memory_idempotency_store.py:34-64 | reservations match running executions one to one, completed records are faithful, and the table is bounded: purge, eviction and reservation keep all of it |
| IdempotencyProtocol.CommitKeepsInv | src/tplink_deco_api/rest/_in_memory_idempotency_store.py:73-79 | committing keeps it |
| IdempotencyProtocol.ReleaseKeepsInv | src/tplink_deco_api/rest/_in_memory_idempotency_store.py:67-72 | a failing run always frees its own key, removes nothing else, and keeps the invariant |
| IdempotencyProtocol.NextKeepsInv | src/tplink_deco_api/rest/_in_memory_idempotency_store.py:34-79 | every step of every execution keeps the invariant |
| IdempotencyProtocol.RunInv | src/tplink_deco_api/rest/_in_memory_idempotency_store.py:34-88 | the invariant holds at every point of every interleaving |
| IdempotencyProtocol.RunBounded | src/tplink_deco_api/rest/_in_memory_idempotency_store.py:48-64 | at no point of any run does the table exceed its limit or do two executions share a key |
| IdempotencyProtocol.ReservationUntouched | src/tplink_deco_api/rest/_in_memory_idempotency_store.py:34-88 | no step of anybody purges, evicts or overwrites the reservation of an execution that goes on |
| IdempotencyProtocol.CompletedStaysOrLost | src/tplink_deco_api/rest/_in_memory_idempotency_store.py:34-88 | a completed record survives a step unchanged unless it expired or was evicted as the earliest of a full table |
| IdempotencyProtocol.ExecutedTwice | src/tplink_deco_api/rest/_in_memory_idempotency_store.py:34-88 | between two successful executions under one key, the first result expired or was evicted as the earliest-expiring completed record of a full table |
| IdempotencyProtocol.ReplayedFromTable | src/tplink_deco_api/rest/_in_memory_idempotency_store.py:37-47 | a replay comes from a completed record that has not expired and equals what was last committed |
| IdempotencyProtocol.CommittedIsLast | src/tplink_deco_api/rest/_in_memory_idempotency_store.py:73-79 | what counts as last committed is the event of the latest commit under that key |
| IdempotencyProtocol.ReplayIsLastCommit | src/tplink_deco_api/rest/_in_memory_idempotency_store.py:37-79 | every replay of every run has the fingerprint and the result of the latest commit under its key |
| IdempotencyHistory.Answers | src/tplink_deco_api/rest/_in_memory_idempotency_store.py:34-64 | every request is answered as its history calls for: replayed if and only if a result of this request was committed less than its time ago and neither expired nor evicted since; a conflict if and only if another request holds the key; in progress if and only if this one runs; at capacity if and only if nobody holds the key, the running executions fill the table and no result is live; admitted otherwise |
| IdempotencyHistory.LiveIsRecord | src/tplink_deco_api/rest/_in_memory_idempotency_store.py:37-47 | the results that are live by the history are exactly the completed records that a purge leaves |
| IdempotencyHistory.EvictsEarliest | src/tplink_deco_api/rest/_in_memory_idempotency_store.py:48-59 | what is evicted is a live result, and none that is live was committed before it |
| IdempotencyStore.InMemoryIdempotencyStore.Purge | src/tplink_deco_api/rest/_in_memory_idempotency_store.py:81-88 | removes exactly the completed records that have expired |
| IdempotencyStore.InMemoryIdempotencyStore.Evict | src/tplink_deco_api/rest/_in_memory_idempotency_store.py:48-59 | removes an earliest-expiring completed record, or finds that there is none |
| IdempotencyStore.InMemoryIdempotencyStore.Recall | src/tplink_deco_api/rest/_in_memory_idempotency_store.py:37-47 | answers by fingerprint and state of the record, handing out a fresh copy |
| IdempotencyStore.InMemoryIdempotencyStore.Begin | src/tplink_deco_api/rest/_in_memory_idempotency_store.py:34-64 | the first locked section is the protocol's step on the table the object stands for |
| IdempotencyStore.InMemoryIdempotencyStore.Commit | src/tplink_deco_api/rest/_in_memory_idempotency_store.py:66-79 | stores a private copy and returns another one that the store does not keep |
| IdempotencyStore.InMemoryIdempotencyStore.Release | src/tplink_deco_api/rest/_in_memory_idempotency_store.py:67-72 | removes the record only where the fingerprint is its own |
| IdempotencyStore.RecordedStore.Begin | src/tplink_deco_api/rest/_in_memory_idempotency_store.py:34-64 | any sequence of locked sections on the object is a run of the protocol, and callers never hold a dictionary it keeps: this section adds the step its answer tells, at its time, and its answer is exactly the one the history before it calls for; a replay is a fresh dictionary |
| IdempotencyStore.RecordedStore.Commit | src/tplink_deco_api/rest/_in_memory_idempotency_store.py:66-79 | the same for a commit at its time; neither the dictionary returned nor the one the operation returned is kept |
| IdempotencyStore.RecordedStore.Release | src/tplink_deco_api/rest/_in_memory_idempotency_store.py:67-72 | the same for a failure, which on a run always removes exactly its own key and takes no time |
| IdempotencyStore.RecordedStore.Scribble | src/tplink_deco_api/rest/app.py:721-727 | whatever a caller writes into any dictionary it was ever given, table and history stay as they are |
| IdempotencyStore.ExecuteThenReplay | src/tplink_deco_api/rest/app.py:721-727 | after an execution whose dictionaries are both written to, the same request is replayed as long as the result has not expired, and a replay answers with the result as it was when it was committed |
| IdempotencyStore.AnswerExecuted | src/tplink_deco_api/rest/app.py:721-727 | marking the returned dictionary as not replayed reaches neither the store nor the operation's own result |
| IdempotencyStore.AnswerReplayed | src/tplink_deco_api/rest/app.py:721-727 | marking a replayed dictionary leaves the table as the protocol decided |
| NumericLiterals.NormalizeNumericLiterals | src/tplink_deco_api/auth/protocol.py:82-111 | the scanner computes the text with every `Number.NaN` token of the lexer replaced |
| NumericLiterals.LexNormalized | src/tplink_deco_api/auth/protocol.py:82-111 | the output lexes to exactly the input's tokens with null in place of each `Number.NaN` |
| NumericLiterals.StringsKept | src/tplink_deco_api/auth/protocol.py:82-111 | every string literal is kept verbatim and in order, and none of the replaced tokens is left outside strings |
| NumericLiterals.NothingNew | src/tplink_deco_api/auth/protocol.py:82-111 | replacing never brings about a new `Number.NaN`, not even across its own edges |
| NumericLiterals.UnchangedWhenFinite | src/tplink_deco_api/auth/protocol.py:82-111 | the text is returned unchanged if and only if it has no such token |
| NumericLiterals.Idempotent | src/tplink_deco_api/auth/protocol.py:82-111 | a second pass changes nothing |
| NumericLiterals.DocumentNormalized | src/tplink_deco_api/auth/protocol.py:82-111 | a document put together from well-written JSON strings, with any escapes, `Number.NaN` and other characters comes out with null for each `Number.NaN` between the strings and otherwise as it was |
| Rsa.BlockSizeExact | src/tplink_deco_api/crypto/rsa.py:11-18 | the computed block size is the exact length of the modulus in octets |
| Rsa.EncryptBlock | src/tplink_deco_api/crypto/rsa.py:21-32 | an overlong block is refused; otherwise the pad is the next non-zero octets of the supply, at least eight of them, filling the block |
| Rsa.BlockFits | src/tplink_deco_api/crypto/rsa.py:21-32 | a padded block has the modulus's length, is numerically below it, and its ciphertext is exactly two digits per octet |
| Rsa.HexExact | src/tplink_deco_api/crypto/rsa.py:32 | a number below 16 to the width takes exactly that many digits, and they give it back |
| Rsa.UnpadEncoded | src/tplink_deco_api/crypto/rsa.py:21-32 | removing the padding gives the block back (section 7.2.2 of RFC 8017) |
| Rsa.BlockRoundTrip | src/tplink_deco_api/crypto/rsa.py:21-32 | decrypting an encrypted block gives the block, for any inverse of the exponentiation |
| Rsa.RsaEncrypt | src/tplink_deco_api/crypto/rsa.py:11-18 | the loop encrypts consecutive blocks each under its own pad, all pads together being the next non-zero octets of the supply; or fails, or yields nothing, depending on the modulus length |
| Rsa.CipherTextRoundTrip | src/tplink_deco_api/crypto/rsa.py:11-32 | cutting, decrypting, unpadding and joining gives the plaintext back |
| Rsa.RoundTrip | src/tplink_deco_api/crypto/rsa.py:11-32 | the round trip succeeds if and only if the modulus has more than eleven octets, or fewer and the plaintext is empty |
| Rsa.PowModStep | src/tplink_deco_api/crypto/rsa.py:31 | the exponentiation starts from one and multiplies by the message for each unit of the exponent, modulo the modulus |
| Multipart.MultipartBody | src/tplink_deco_api/auth/transport.py:115-133 | prints exactly the non-empty forms all of whose fields are valid, and refuses the others |
| Multipart.PrintStartsWithDelimiter | src/tplink_deco_api/auth/transport.py:115-133 | every printed form opens with the delimiter |
| Multipart.DelimiterFound | src/tplink_deco_api/auth/transport.py:115-133 | in a printed part the first delimiter is the one after the value, unless the value starts like one |
| Multipart.ParsePrinted | src/tplink_deco_api/auth/transport.py:115-133 | from any part on, the parser recovers the remaining fields, or none if a value starts like a delimiter line |
| Multipart.PrintedParses | src/tplink_deco_api/auth/transport.py:115-133 | a printed form parses back to the same names and values in order if and only if no value starts like a delimiter line; otherwise parsing fails |
| Multipart.ValueCutsItsPart | src/tplink_deco_api/auth/transport.py:115-133 | a form the printer accepts and the parser modelled here does not read back |
| Multipart.PartText | src/tplink_deco_api/auth/transport.py:124-132 | the text of a part and of the end of a form, written out |
| Schema.SchemaEntries | src/tplink_deco_api/models/endpoint_observation.py:20-39 | the first printer yields the paths of the document |
| Schema.SchemaPaths | src/tplink_deco_api/tmp_read_contract_probe.py:290-310 | the second printer yields the same set on every document |
| Schema.ShapeDecides | src/tplink_deco_api/models/endpoint_observation.py:20-39 | documents of one shape have the same paths, whatever their scalars |
| Schema.TopLevelResultKeys | src/tplink_deco_api/tmp_mutation_planner.py:260-272 | without an operation or returned data there are no keys; otherwise the keys found are exactly those some path contributes, without duplicates |
| Schema.CutIsPrefix | src/tplink_deco_api/tmp_mutation_planner.py:260-272 | the three splits in a row stop at the first separator of any kind |
| Schema.KeysOfDocument | src/tplink_deco_api/tmp_mutation_planner.py:260-272 | what the planner finds in any document's paths, described on the document |
| Schema.ContributionsSplit | src/tplink_deco_api/tmp_mutation_planner.py:260-272 | that is the prefixes of the result's own keys and what members named like a path below it add |
| Schema.KeysRecovered | src/tplink_deco_api/tmp_mutation_planner.py:260-272 | the planner recovers exactly the keys of the result object if and only if all of them are free of separators and not empty, and other members contribute nothing new |
| Schema.PlannerKeys | src/tplink_deco_api/tmp_mutation_planner.py:260-272 | run on the paths of an object in any order, the planner returns exactly the keys of the result object, without duplicates, if and only if that condition holds |
| Schema.CleanTopLevel | src/tplink_deco_api/tmp_mutation_planner.py:260-272 | with clean top-level keys other members contribute nothing |
| Schema.PathText | src/tplink_deco_api/models/endpoint_observation.py:20-39 | the path of each kind of value, and the way down to members and items, written out |
| NoopVerifier.WriteState | src/tplink_deco_api/http_noop_verification.py:128-137 | one write of the given value, nothing else |
| NoopVerifier.CompareState | src/tplink_deco_api/http_noop_verification.py:140-149 | one read, reported as the same value, another, or none |
| NoopVerifier.WriteThenCompare | src/tplink_deco_api/http_noop_verification.py:55-63 | a write and a read in that order; the first error not caught ends the pair |
| NoopVerifier.Verify | src/tplink_deco_api/http_noop_verification.py:51-106 | against any router: the requests are the plan for the preflight value as far as the run gets, and every field of the report is what the replies say |
| NoopVerifier.VerifyHttpSettingNoop | src/tplink_deco_api/http_noop_verification.py:37-106 | an unknown setting or a wrong confirmation reaches the router with nothing; otherwise a conforming run |
| NoopVerifier.VerifyTmpBooleanNoop | src/tplink_deco_api/tmp_boolean_noop_verification.py:21-89 | confirmation, then the environment gate, then a target (given, or well-formed from the environment), then the identity read; anything more is sent if and only if that reply is a success whose first controller is the target |
| LabTarget.MatchesExactly | src/tplink_deco_api/tmp_lab.py:73-99 | the identity check passes if and only if some device is the first with the role of controller, its model and firmware are those of the target without surrounding blanks, and its address is the same letters but for separators, surrounding blanks and case |
| LabTarget.OneDigitRefused | src/tplink_deco_api/tmp_lab.py:102-105 | addresses that differ in one digit or letter do not agree |
| LabTarget.CaseIgnored | src/tplink_deco_api/tmp_lab.py:102-105 | the case of a letter of an address does not matter |
| LabTarget.SeparatorIgnored | src/tplink_deco_api/tmp_lab.py:102-105 | a separator anywhere in an address does not matter |
| LabTarget.BlanksIgnored | src/tplink_deco_api/tmp_lab.py:102-105 | blanks around an address do not matter |
| NoopVerifier.HttpShows | src/tplink_deco_api/http_noop_verification.py:109-125 | what a reply to an HTTP read shows, if and only if it is a success with a flag or with three texts |
| NoopVerifier.TmpShows | src/tplink_deco_api/tmp_boolean_noop_verification.py:92-103 | what a reply to a TMP read shows, if and only if it is a success with a flag |
| NoopVerifier.HttpVerified | src/tplink_deco_api/http_noop_verification.py:57-79 | success is reported if and only if the write was acknowledged with code zero or none and the verifying read showed the preflight value |
| NoopVerifier.TmpVerified | src/tplink_deco_api/tmp_boolean_noop_verification.py:42-59 | success is reported if and only if the write was acknowledged with code zero and the verifying read showed the preflight value |
| NoopVerifier.WritesCarryPreflight | src/tplink_deco_api/tmp_boolean_noop_verification.py:34-89 | every write carries exactly the value the preflight read reported, and there are at most two |
| NoopVerifier.LastReadAgrees | src/tplink_deco_api/tmp_boolean_noop_verification.py:42-87 | the status is not the unconfirmed one if and only if the last read equalled the preflight |
| NoopVerifier.RollbackExactly | src/tplink_deco_api/tmp_boolean_noop_verification.py:40-69 | over every run past its preflight: a rollback is called for if and only if neither the write nor the verifying read raised an error that is not caught, and the read failed or differed |
| NoopVerifier.RollbackLost | src/tplink_deco_api/tmp_boolean_noop_verification.py:40-69 | over every run past its preflight: a write that left is neither verified nor rolled back if and only if it raised an uncaught error after leaving, or the verifying read did, or the read did not show the preflight value and the rollback raised before it was sent; an uncaught error ends the run where it comes up |
| NoopVerifier.HttpRollbackLost | src/tplink_deco_api/http_noop_verification.py:53-106 | that condition for every setting of the HTTP verifier |
| NoopVerifier.TmpRollbackLost | src/tplink_deco_api/tmp_boolean_noop_verification.py:38-89 | that condition for every setting of the TMP verifier |
| NoopVerifier.RollbackNeverSent | src/tplink_deco_api/tmp_boolean_noop_verification.py:62-75 | a run of the TMP verifier of that kind: the write left, the verifying read fails and the rollback raises before it is sent |
| NoopVerifier.StateNeverChanges | src/tplink_deco_api/http_noop_verification.py:37-106 | on a router that keeps a state and reports it truthfully at first, no run changes that state at any point |
| Fuzzy.GetByName | src/tplink_deco_api/endpoint_catalog.py:1613-1629 | looking an entry up by its name finds that entry |
| Fuzzy.AppendCandidate | src/tplink_deco_api/fuzzy.py:171-184 | appends unless the identity was seen; the seen set stays that of the list |
| Fuzzy.AppendParams | src/tplink_deco_api/fuzzy.py:79-113 | the parameter variants of one endpoint, in order, without repeats |
| Fuzzy.BuildFuzzyReadCandidates | src/tplink_deco_api/fuzzy.py:43-114 | the loops build the list that taking the probes' proposals in turn gives |
| Fuzzy.BuildBounds | src/tplink_deco_api/fuzzy.py:43-114 | distinct identities, at most seven candidates per probe, and each comes from some probe |
| Fuzzy.ProposedExactly | src/tplink_deco_api/fuzzy.py:43-168 | a probe proposes exactly the aliases that are not catalogued and the parameter variants, unless it settled the question or its read may not vary |
| Fuzzy.RestoredIsProposed | src/tplink_deco_api/fuzzy.py:117-154 | the variant applied to its source gives the very candidate that was proposed |
| Fuzzy.EvidenceRoundTrip | src/tplink_deco_api/fuzzy.py:117-154 | restoring from value-free evidence gives the candidate back |
| Fuzzy.RestoredEvidence | src/tplink_deco_api/fuzzy.py:117-154 | whatever is restored gives back the evidence it was restored from |
| Fuzzy.SchemaExactly | src/tplink_deco_api/models/fuzzy_read_candidate.py:23-30 | evidence names each parameter with its type and no value |
| Fuzzy.NameText | src/tplink_deco_api/endpoint_spec.py:47-53 | an endpoint name, character by character |
| Fuzzy.GuardAllows | examples/read_only_probe.py:107-142 | the guard allows a proposed candidate if and only if its parameters cover the required ones; aliases always pass |
| Fuzzy.GuardExactly | examples/read_only_probe.py:107-142 | the guard lets any candidate through if and only if its source is a discoverable read, it keeps to the source's path, form and transport, to read names, to keys that are no catalogued non-read, and to approved and complete parameters |
| Fuzzy.GuardRefuses | examples/read_only_probe.py:107-142 | with a catalogue whose entry requires a parameter, a proposed candidate is refused |
| Fuzzy.BuiltCandidates | src/tplink_deco_api/fuzzy.py:43-154 | every candidate built from any list of catalogue probes survives the evidence round trip and is allowed if and only if its parameters are complete; all are allowed where no safe source requires a parameter |
| Fuzzy.ReadOnlyClient.AllowFuzzyCandidate | examples/read_only_probe.py:107-142 | adds exactly the candidate's signature, and no catalogued non-read is ever among the allowed |
| Firmware.NormalizeHttp | src/tplink_deco_api/service/_firmware_normalization.py:50-59 | fails exactly on malformed input; otherwise the view of the grouped rows, with releases, versions and devices sorted |
| Firmware.NormalizeTmp | src/tplink_deco_api/service/_firmware_normalization.py:62-70 | the same for the TMP interface |
| Firmware.MakeView | src/tplink_deco_api/service/_firmware_normalization.py:117-129 | the sorted view of any dictionary of releases |
| Firmware.HttpGroup | src/tplink_deco_api/service/_firmware_normalization.py:50-59 | a release exists exactly for the keys that occur, and gathers exactly the devices and versions of their rows |
| Firmware.TmpGroup | src/tplink_deco_api/service/_firmware_normalization.py:62-70 | the same for the TMP rows |
| Firmware.TmpNoteIsFirst | src/tplink_deco_api/service/_firmware_normalization.py:62-70 | the note of a release is that of its first row |
| Firmware.HttpRowExactly | src/tplink_deco_api/service/_firmware_normalization.py:73-85 | a row is read as a given one if and only if its members, by name and type, say so |
| Firmware.TmpRowExactly | src/tplink_deco_api/service/_firmware_normalization.py:88-100 | the same for the TMP interface |
| Firmware.HttpAvailable | src/tplink_deco_api/service/_firmware_normalization.py:117-129 | an update is available if and only if some row needs a download or an upgrade |
| Firmware.TmpAvailable | src/tplink_deco_api/service/_firmware_normalization.py:117-129 | the same for the TMP interface |
| Firmware.ReleaseShown | src/tplink_deco_api/service/_firmware_normalization.py:32-47 | each release is shown with its note, and with its versions and devices in order, each once |
| Firmware.ViewSorted | src/tplink_deco_api/service/_firmware_normalization.py:121-128 | releases are listed in the order of their keys |
| Firmware.KeyOrder | src/tplink_deco_api/service/_firmware_normalization.py:103-114 | which is that of their first field that differs |
| Firmware.StringOrder | src/tplink_deco_api/service/_firmware_normalization.py:103-114 | strings are ordered by their first character that differs, a prefix first |
| Firmware.KeysTotal | src/tplink_deco_api/service/_firmware_normalization.py:103-129 | the sort key orders releases totally, so sorting has one result |
| Firmware.HttpOrderIrrelevant | src/tplink_deco_api/service/_firmware_normalization.py:50-59 | the HTTP view is the same for any order and repetition of its rows |
| Firmware.SameKeys | src/tplink_deco_api/service/_firmware_normalization.py:50-70 | the two groupings have the same releases if and only if every release names a device, and the same devices in common ones |
| Firmware.InterfacesAgree | src/tplink_deco_api/service/_firmware_normalization.py:50-129 | when the HTTP rows are the TMP rows per device, both views agree but for versions, notes and gaps if and only if every release names a device |

## Left out

- Sockets, SSH, TLS, HTTP requests, FastAPI and FastMCP wiring, the command line and file writing: input and output.
- Timeouts in the middle of a frame: receptions time out between frames only, as the SSH stream turns the others into transport errors.
- Octets of a refused send that reach the peer all the same: a refused send leaves nothing in the model.
- AES-CBC, MD5, SHA-1, SHA-256, base64 and JSON text: library code; JSON documents are values, and the JSON envelope around request payloads is not built or parsed.
- Operation catalogues, opcode tables, response objects and the other normalizers: data, or checks of one field at a time.
- Capability routing, the mutation-plan store and the request-capacity and header middlewares.
- TmpSession.TmpAppV2Session.RequestMutation: takes the encoded payload and returns the response as octets; the JSON envelope is built and parsed outside the model.
- LabTarget.MatchesExactly: upper case is that of the letters a to z; other letters whose upper case the program takes are left alone.
- Rsa.BlockSizeExact: the logarithm is taken exactly; rounding of the floating-point one near powers of two is not modelled.
- Rsa.RsaEncrypt: the random supply is assumed to hold enough non-zero octets, where the program draws until it has them.
- Rsa.RoundTrip: a private key is any function that inverts the exponentiation below the modulus; that one exists is not proved.
- Multipart.PrintedParses: a quoted field name is read up to its closing quotation mark, with backslash as an ordinary character; the encoding of the text into octets is not modelled.
- IdempotencyStore.InMemoryIdempotencyStore.Commit: copies are one level deep as in the program, and values are strings, so sharing of nested values is not modelled.
- Executions under an idempotency key that end by something other than an `Exception`: they behave like one that never ends, and their reservation stays.
- Fuzzy.EvidenceRoundTrip: the list of parameter names and types is compared as a set.
- Fuzzy.ReadOnlyClient.AllowFuzzyCandidate: request signatures are records instead of JSON text; the static allowlist in `_guard`, `_retry_candidates` and `_merge_fuzzy_observations` are tests and comprehensions with easy claims.
- NoopVerifier.VerifyTmpBooleanNoop: an identity reply whose `error_code` is `false` or `0.0` passes in the program, which compares it with zero; in the model only an integer zero passes, and the others are refused.
- The progress callback of the no-op verifiers.
