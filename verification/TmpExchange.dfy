/**
 One request/response exchange of an AppV2 session as a machine: how it reacts to each
 inbound message, and what a whole run of it returns and sends.
 */
module TmpExchange {
  import opened Bytes
  import opened Crc32
  import opened TmpWire

  const PUSH: nat := 2
  const PULL: nat := 4
  const PUSH_ACK: nat := 3
  const PULL_ACK: nat := 5
  const MAX_REQUEST_SIZE: nat := 8156

  type Chunks = map<nat, bytes>

  // ----- the chunk table

  /** The offsets from `offset` on that have a chunk. */
  function Ahead(chunks: Chunks, offset: nat): set<nat> {
    set k | k in chunks && k >= offset
  }

  lemma AheadShrinks(chunks: Chunks, offset: nat, next: nat)
    requires offset in chunks && offset < next
    ensures Ahead(chunks, next) < Ahead(chunks, offset)
  {
    assert offset in Ahead(chunks, offset) && offset !in Ahead(chunks, next);
  }

  /** Where the chain of chunks that starts at `offset` ends. */
  function Chain(chunks: Chunks, offset: nat): (end: nat)
    ensures end >= offset
    decreases Ahead(chunks, offset)
  {
    if offset in chunks && chunks[offset] != [] then
      var next := offset + |chunks[offset]|;
      AheadShrinks(chunks, offset, next);
      Chain(chunks, next)
    else offset
  }

  /** `_contiguous_size`. */
  method ContiguousSize(chunks: Chunks) returns (offset: nat)
    ensures offset == Chain(chunks, 0)
  {
    offset := 0;
    while offset in chunks
      invariant Chain(chunks, offset) == Chain(chunks, 0)
      decreases Ahead(chunks, offset)
    {
      var chunk := chunks[offset];
      if chunk == [] {
        break;
      }
      AheadShrinks(chunks, offset, offset + |chunk|);
      offset := offset + |chunk|;
    }
  }

  predicate IsLeast(k: nat, keys: set<nat>) {
    k in keys && forall j :: j in keys ==> k <= j
  }

  lemma {:induction false} LeastExists(keys: set<nat>)
    requires keys != {}
    ensures exists k :: IsLeast(k, keys)
  {
    var k :| k in keys;
    var others := keys - {k};
    if others == {} {
      assert forall j :: j in keys ==> j == k || j in others;
      assert IsLeast(k, keys);
    } else {
      LeastExists(others);
      var m :| IsLeast(m, others);
      var least := if k < m then k else m;
      assert forall j :: j in keys ==> j == k || j in others;
      assert IsLeast(least, keys);
    }
  }

  function Least(keys: set<nat>): (k: nat)
    requires keys != {}
    ensures IsLeast(k, keys)
  {
    LeastExists(keys);
    var k :| IsLeast(k, keys);
    k
  }

  /** The chunks joined in order of their offsets. */
  function SortedJoin(chunks: Chunks): bytes
    decreases |chunks|
  {
    if chunks == map[] then []
    else
      assert chunks.Keys != {};
      var k := Least(chunks.Keys);
      chunks[k] + SortedJoin(chunks - {k})
  }

  // ----- the machine

  datatype Request = Request(opcode: nat, transaction: nat, payload: bytes)

  datatype Declared = Undeclared | Declared(total: nat, checksum: nat)

  datatype State = State(pullSent: bool, chunks: Chunks, declared: Declared, requested: nat)

  datatype Verdict = Continue(next: State) | Done(response: bytes) | Fail(failure: Failure)

  datatype Reaction = Reaction(verdict: Verdict, sent: seq<Message>)

  function PushMessage(q: Request): Message {
    Message(q.opcode, PUSH, 0, q.transaction, Checksum(q.payload), |q.payload|, 0, q.payload)
  }

  function AckMessage(q: Request, size: nat): Message {
    Message(q.opcode, PUSH_ACK, 0, q.transaction, 0, 0, size, [])
  }

  function PullMessage(q: Request, offset: nat): Message {
    Message(q.opcode, PULL, 0, q.transaction, 0, 0, offset, [])
  }

  function Start(q: Request): State {
    State(q.payload == [], map[], Undeclared, 0)
  }

  function Opening(q: Request): seq<Message> {
    [PushMessage(q)] + if q.payload == [] then [PullMessage(q, 0)] else []
  }

  predicate Addressed(q: Request, m: Message) {
    m.opcode == q.opcode && m.transaction == q.transaction
  }

  /** The loop body of `_exchange` for one message. */
  function React(q: Request, st: State, m: Message): Reaction {
    if !Addressed(q, m) then
      Reaction(Continue(st), [])
    else if m.error != 0 then
      Reaction(Fail(AppError(m.error)), [])
    else if m.flag == PUSH_ACK then
      if !st.pullSent && m.offset >= |q.payload| then
        Reaction(Continue(st.(pullSent := true)), [PullMessage(q, 0)])
      else
        Reaction(Continue(st), [])
    else if m.flag != PUSH && m.flag != PULL_ACK then
      Reaction(Continue(st), [])
    else
      Admit(q, st, m)
  }

  /** The checks on a response chunk. */
  function Admit(q: Request, st: State, m: Message): Reaction {
    if m.total > MAX_RESPONSE_SIZE then
      Reaction(Fail(OversizedResponse), [])
    else if st.declared.Declared? && st.declared != Declared(m.total, m.checksum) then
      Reaction(Fail(MetadataChanged), [])
    else if m.offset + |m.chunk| > m.total then
      Reaction(Fail(ChunkTooLong), [])
    else if m.offset in st.chunks && st.chunks[m.offset] != m.chunk then
      Reaction(Fail(ConflictingChunk), [])
    else
      Advance(q, st, m)
  }

  /** What an accepted response chunk leads to. */
  function Advance(q: Request, st: State, m: Message): Reaction {
    var chunks := st.chunks[m.offset := m.chunk];
    var size := Chain(chunks, 0);
    var ack := if m.flag == PUSH then [AckMessage(q, size)] else [];
    if m.total == 0 then
      Reaction(Settle([], m.checksum), ack)
    else if size >= m.total then
      var joined := SortedJoin(chunks);
      Reaction(Settle(if |joined| > m.total then joined[..m.total] else joined, m.checksum), ack)
    else
      var pull := if size != st.requested then [PullMessage(q, size)] else [];
      Reaction(Continue(State(st.pullSent, chunks, Declared(m.total, m.checksum), size)), ack + pull)
  }

  function Settle(response: bytes, checksum: nat): Verdict {
    if Checksum(response) != checksum then Fail(ResponseMismatch) else Done(response)
  }

  // ----- runs

  type Inbox = seq<Result<Inbound>>

  datatype Outcome = Returned(response: bytes) | Failed(failure: Failure) | Waiting(state: State)

  datatype Final = Final(outcome: Outcome, sent: seq<Message>)

  /** A run on what arrives; it stops as soon as there is an outcome. */
  function Run(q: Request, st: State, inbox: Inbox): Final
    decreases |inbox|
  {
    if inbox == [] then Final(Waiting(st), [])
    else
      match inbox[0]
      case Err(failure) => Final(Failed(failure), [])
      case Ok(Silent) => Run(q, st, inbox[1..])
      case Ok(Got(m)) =>
        var r := React(q, st, m);
        match r.verdict
        case Fail(failure) => Final(Failed(failure), r.sent)
        case Done(response) => Final(Returned(response), r.sent)
        case Continue(next) =>
          var f := Run(q, next, inbox[1..]);
          Final(f.outcome, r.sent + f.sent)
  }

  /** All that an exchange says on what arrives: the opening, then what the run sends. */
  function Spoken(q: Request, inbox: Inbox): seq<Message> {
    Opening(q) + Run(q, Start(q), inbox).sent
  }

  /** What up to `patience` reads of the octets `s` report; nothing is read after a failure. */
  function Decode(s: bytes, ending: Failure, patience: nat): (inbox: Inbox) {
    if patience == 0 then []
    else
      var p := ParseMessage(s, ending);
      [p.result] + if p.result.Err? then [] else Decode(p.rest, ending, patience - 1)
  }
}
