/**
 The session object: association, negotiation, and the exchange loop over a real stream,
 proved against what TmpTalk says of the stream's line, refused sends included.
 */
module TmpSession {
  import opened Wrappers
  import opened Bytes
  import opened Crc32
  import opened TmpWire
  import opened TmpReader
  import opened TmpExchange
  import opened TmpDiscipline
  import opened TmpTalk

  /** Why a request is refused before anything is sent, if it is. */
  function Refusal(ready: bool, catalogue: map<nat, Safety>, opcode: int, safety: Safety, payload: bytes): Result<()> {
    if !ready then Err(NotReady)
    else if opcode !in catalogue then Err(UnknownOpcode)
    else if catalogue[opcode] != safety then Err(WrongClass)
    else if opcode >= U16 then Err(OpcodeRange)
    else if |payload| > MAX_REQUEST_SIZE then Err(OversizedRequest)
    else Ok(())
  }

  // ----- what was sent

  /** From `before` to `after` exactly the messages `ms` were sent, one call each. */
  ghost predicate Sends(before: seq<bytes>, after: seq<bytes>, ms: seq<Message>) {
    && before <= after && |after| == |before| + |ms|
    && forall i :: 0 <= i < |ms| ==> Encodes(after[|before| + i], ms[i])
  }

  /** What a peer reads from one call: this message and nothing else. */
  ghost predicate Encodes(raw: bytes, m: Message) {
    forall ending :: ParseMessage(raw, ending) == Parse(Ok(Got(m)), [])
  }

  lemma SendsInTurn(s: seq<bytes>, t: seq<bytes>, u: seq<bytes>, ms: seq<Message>, ns: seq<Message>)
    requires Sends(s, t, ms) && Sends(t, u, ns)
    ensures Sends(s, u, ms + ns)
  {
    hide Encodes;
    forall i | 0 <= i < |ms + ns|
      ensures Encodes(u[|s| + i], (ms + ns)[i])
    {
      if i < |ms| {
        assert u[|s| + i] == t[|s| + i];
      } else {
        assert u[|t| + (i - |ms|)] == u[|s| + i];
      }
    }
  }

  lemma NoSends(s: seq<bytes>)
    ensures Sends(s, s, [])
  {}

  /** The messages `ms` were tried on `line` one by one, up to the first refused: those that went through were sent. */
  ghost predicate Tells(line: Line, before: seq<bytes>, rest: Line, after: seq<bytes>, ms: seq<Message>) {
    Sends(before, after, Heard(line, ms)) && rest == Tried(line, |ms|)
  }

  lemma TellsInTurn(line: Line, s: seq<bytes>, middle: Line, t: seq<bytes>, rest: Line, u: seq<bytes>,
                    ms: seq<Message>, ns: seq<Message>)
    requires Through(line, |ms|) && Tells(line, s, middle, t, ms) && Tells(middle, t, rest, u, ns)
    ensures Tells(line, s, rest, u, ms + ns)
    ensures Through(line, |ms + ns|) <==> Through(middle, |ns|)
  {
    hide Sends, Went;
    TriedInTurn(line, |ms|, |ns|);
    assert Heard(line, ms) == ms;
    SendsInTurn(s, t, u, ms, Heard(middle, ns));
    assert Heard(line, ms + ns) == ms + Heard(middle, ns);
  }

  /** Nothing is tried after a refusal. */
  lemma TellsNoMore(line: Line, s: seq<bytes>, rest: Line, t: seq<bytes>, ms: seq<Message>, ns: seq<Message>)
    requires !Through(line, |ms|) && Tells(line, s, rest, t, ms)
    ensures Tells(line, s, rest, t, ms + ns) && !Through(line, |ms + ns|)
  {
    hide Sends, Went;
    TriedInTurn(line, |ms|, |ns|);
    assert Heard(line, ms + ns) == Heard(line, ms);
  }

  lemma TellsNothing(line: Line, s: seq<bytes>)
    ensures Tells(line, s, line, s, []) && Through(line, 0)
  {}

  // ----- the session

  datatype Entry = Entry(opcode: nat, ready: bool)

  /** The octets carry a message of exchange `n` in the log: its operation, under its identifier. */
  ghost predicate OfExchange(raw: bytes, m: Message, n: nat, log: seq<Entry>) {
    && n < |log| && Encodes(raw, m)
    && m.opcode == log[n].opcode && m.transaction == TransactionId(n + 1)
  }

  ghost predicate IsControl(raw: bytes) {
    exists control :: raw == ControlFrame(control)
  }

  ghost predicate AllControl(controls: seq<bytes>) {
    forall i :: 0 <= i < |controls| ==> IsControl(controls[i])
  }

  /** The octets are a control frame, or carry a message of some exchange in the log. */
  ghost predicate Accounted(raw: bytes, log: seq<Entry>) {
    IsControl(raw) || (exists m, n :: OfExchange(raw, m, n, log))
  }

  /** So are all that were sent from the `start`-th call on. */
  ghost predicate AllAccounted(sent: seq<bytes>, start: nat, log: seq<Entry>) {
    start <= |sent| && forall i :: start <= i < |sent| ==> Accounted(sent[i], log)
  }

  lemma AccountedStays(raw: bytes, log: seq<Entry>, e: Entry)
    requires Accounted(raw, log)
    ensures Accounted(raw, log + [e])
  {
    hide Encodes;
    if m, n :| OfExchange(raw, m, n, log) {
      assert OfExchange(raw, m, n, log + [e]);
    }
  }

  /** An exchange that is entered in the log accounts for all that it sends. */
  lemma ExchangeAccounted(q: Request, line: Line, patience: nat, before: seq<bytes>, after: seq<bytes>,
                          start: nat, log: seq<Entry>, e: Entry)
    requires AllAccounted(before, start, log) && Sends(before, after, Exchanged(q, line, patience).0.sent)
    requires q.opcode == e.opcode && q.transaction == TransactionId(|log| + 1)
    ensures AllAccounted(after, start, log + [e])
  {
    hide Encodes, Exchanged, Accounted;
    var ms := Exchanged(q, line, patience).0.sent;
    ExchangedIsOwn(q, line, patience);
    forall i | start <= i < |after|
      ensures Accounted(after[i], log + [e])
    {
      if i < |before| {
        assert after[i] == before[i];
        AccountedStays(after[i], log, e);
      } else {
        var j := i - |before|;
        assert Encodes(after[|before| + j], ms[j]);
        MessageAccounted(q, after[i], ms[j], log, e);
      }
    }
  }

  lemma MessageAccounted(q: Request, raw: bytes, m: Message, log: seq<Entry>, e: Entry)
    requires Encodes(raw, m) && Addressed(q, m)
    requires q.opcode == e.opcode && q.transaction == TransactionId(|log| + 1)
    ensures Accounted(raw, log + [e])
  {
    hide Encodes;
    assert OfExchange(raw, m, |log|, log + [e]);
  }

  lemma ControlAccounted(before: seq<bytes>, controls: seq<bytes>, start: nat, log: seq<Entry>)
    requires AllAccounted(before, start, log)
    requires AllControl(controls)
    ensures AllAccounted(before + controls, start, log)
  {
    hide OfExchange;
    var after := before + controls;
    forall i | start <= i < |after|
      ensures Accounted(after[i], log)
    {
      if i < |before| {
        assert after[i] == before[i];
      } else {
        assert after[i] == controls[i - |before|];
      }
    }
  }

  class TmpAppV2Session {
    const stream: TmpStream
    const catalogue: map<nat, Safety>
    var nextTransactionId: nat
    var ready: bool
    /** Every exchange begun, and whether the session was ready then. */
    ghost var log: seq<Entry>
    /** How many calls the stream had sent when the session got it. */
    ghost const start: nat

    ghost predicate Valid()
      reads this, stream
    {
      && stream.Valid() && Accounts()
      && forall i :: 0 <= i < |log| ==> Permitted(log[i])
    }

    /** The log accounts for every call to the stream since: a control frame, or a message of an exchange in it. */
    ghost predicate Accounts()
      reads this, stream
    {
      nextTransactionId == |log| + 1 && AllAccounted(stream.sent, start, log)
    }

    /** Before negotiation only its own two operations, afterwards only reads and mutations. */
    ghost predicate Permitted(e: Entry) {
      if e.ready then e.opcode in catalogue && catalogue[e.opcode] in {ReadOnly, Mutation}
      else e.opcode == TOKEN_ALLOCATE || e.opcode == COMPONENT_NEGOTIATE
    }

    constructor (stream: TmpStream, catalogue: map<nat, Safety>)
      requires stream.Valid()
      ensures Valid() && !ready && log == []
      ensures this.stream == stream && this.catalogue == catalogue && nextTransactionId == 1
      ensures start == |stream.sent|
    {
      this.stream, this.catalogue := stream, catalogue;
      nextTransactionId, ready, log, start := 1, false, [], |stream.sent|;
    }

    /** Sends one message under an arbitrary serial. */
    method Transmit(m: Message) returns (ok: bool)
      requires Fits(m)
      modifies stream`sent, stream`tries
      ensures Tells(old(stream.Outlook()), old(stream.sent), stream.Outlook(), stream.sent, [m])
      ensures ok == Through(old(stream.Outlook()), 1)
    {
      hide ParseMessage, PackMessage, Went;
      var serial: nat :| serial < U32;
      forall ending: Failure
        ensures PackMessage(m, serial).Ok?
        ensures ParseMessage(PackMessage(m, serial).value, ending) == Parse(Ok(Got(m)), [])
      {
        MessageRoundTrip(m, serial, [], ending);
        assert PackMessage(m, serial).value + [] == PackMessage(m, serial).value;
      }
      MessageRoundTrip(m, serial, [], TimedOut);
      ok := stream.SendAll(PackMessage(m, serial).value);
    }

    /** `_associate`. */
    method Associate(patience: nat) returns (r: Result<()>)
      requires stream.Valid()
      modifies stream`incoming, stream`sent, stream`tries
      ensures var a := Association(old(stream.Outlook()), patience);
              && r == a.result && stream.Outlook() == a.rest && stream.sent == old(stream.sent) + a.control
    {
      hide ParseFrame, Went;
      var asked := stream.SendAll(ControlFrame(ASSOCIATE_REQUEST));
      if !asked {
        return Err(TransportLost);
      }
      ghost var start := stream.Outlook();
      var left := patience;
      while left > 0
        invariant AwaitAccept(stream.incoming, stream.ending, left)
               == AwaitAccept(start.incoming, stream.ending, patience)
        invariant stream.sent == old(stream.sent) + ASK && stream.tries == start.tries
      {
        left := left - 1;
        var frame := ReadFrame(stream);
        if frame.Err? {
          return Err(frame.failure);
        }
        var control := frame.value.control;
        if control == HELLO {
          continue;
        }
        if control == ASSOCIATE_REFUSE {
          return Err(Refused(frame.value.reason));
        }
        if control == ASSOCIATE_ACCEPT {
          TriedInTurn(stream.Outlook(), 1, 1);
          var accepted := stream.SendAll(ControlFrame(ASSOCIATE_ACCEPT));
          if !accepted {
            return Err(TransportLost);
          }
          var greeted := stream.SendAll(ControlFrame(HELLO));
          return if greeted then Ok(()) else Err(TransportLost);
        }
      }
      return Err(TimedOut);
    }

    /** `_send_pull`. */
    method SendPull(q: Request, offset: nat) returns (ok: bool)
      requires Encodable(q) && offset < U32
      modifies stream`sent, stream`tries
      ensures Tells(old(stream.Outlook()), old(stream.sent), stream.Outlook(), stream.sent, [PullMessage(q, offset)])
      ensures ok == Through(old(stream.Outlook()), 1)
    {
      ok := Transmit(PullMessage(q, offset));
    }

    method SendOpening(q: Request) returns (ok: bool)
      requires Encodable(q)
      modifies stream`sent, stream`tries
      ensures Tells(old(stream.Outlook()), old(stream.sent), stream.Outlook(), stream.sent, Opening(q))
      ensures ok == Through(old(stream.Outlook()), |Opening(q)|)
    {
      hide Tells, Through, Checksum;
      ghost var line, s := stream.Outlook(), stream.sent;
      ghost var push, pull := [PushMessage(q)], [PullMessage(q, 0)];
      ok := Transmit(PushMessage(q));
      if q.payload == [] {
        if !ok {
          TellsNoMore(line, s, stream.Outlook(), stream.sent, push, pull);
          return;
        }
        ghost var middle, t := stream.Outlook(), stream.sent;
        ok := SendPull(q, 0);
        TellsInTurn(line, s, middle, t, stream.Outlook(), stream.sent, push, pull);
      }
      assert Opening(q) == if q.payload == [] then push + pull else push;
    }

    /** The reaction `r` to a message was sent on `line`, or as much of it as went through. */
    ghost predicate Reacted(line: Line, before: seq<bytes>, r: Reaction, v: Verdict)
      reads stream
    {
      Tells(line, before, stream.Outlook(), stream.sent, r.sent) && v == Attempted(line, r)
    }

    /** The loop body of `_exchange` for one message. */
    method Handle(q: Request, st: State, m: Message) returns (v: Verdict)
      requires Encodable(q) && Sound(st)
      modifies stream`sent, stream`tries
      ensures Reacted(old(stream.Outlook()), old(stream.sent), React(q, st, m), v)
    {
      hide Tells, Through, Tried, Chain, SortedJoin, Checksum, Sound;
      TellsNothing(stream.Outlook(), stream.sent);
      if m.opcode != q.opcode || m.transaction != q.transaction {
        return Continue(st);
      }
      if m.error != 0 {
        return Fail(AppError(m.error));
      }
      if m.flag == PUSH_ACK {
        if !st.pullSent && m.offset >= |q.payload| {
          var ok := SendPull(q, 0);
          return if ok then Continue(st.(pullSent := true)) else Fail(TransportLost);
        }
        return Continue(st);
      }
      if m.flag != PUSH && m.flag != PULL_ACK {
        return Continue(st);
      }
      if m.total > MAX_RESPONSE_SIZE {
        return Fail(OversizedResponse);
      }
      if st.declared.Declared? && st.declared != Declared(m.total, m.checksum) {
        return Fail(MetadataChanged);
      }
      if m.offset + |m.chunk| > m.total {
        return Fail(ChunkTooLong);
      }
      if m.offset in st.chunks && st.chunks[m.offset] != m.chunk {
        return Fail(ConflictingChunk);
      }
      v := Accept(q, st, m);
    }

    /** The rest of the loop body, once a chunk has passed the checks. */
    method Accept(q: Request, st: State, m: Message) returns (v: Verdict)
      requires Encodable(q) && Sound(st) && Admitted(st, m)
      modifies stream`sent, stream`tries
      ensures Reacted(old(stream.Outlook()), old(stream.sent), Advance(q, st, m), v)
    {
      hide Tells, Through, Chain, SortedJoin, Checksum, Sound;
      ghost var line, s := stream.Outlook(), stream.sent;
      AdvanceBounds(st, m);
      TellsNothing(line, s);
      var chunks := st.chunks[m.offset := m.chunk];
      var contiguous := ContiguousSize(chunks);
      ghost var r := Advance(q, st, m);
      ghost var ack := if m.flag == PUSH then [AckMessage(q, contiguous)] else [];
      ghost var pull := if r.verdict.Continue? && contiguous != st.requested then [PullMessage(q, contiguous)] else [];
      assert r.sent == ack + pull;
      if m.flag == PUSH {
        var ok := Transmit(AckMessage(q, contiguous));
        if !ok {
          TellsNoMore(line, s, stream.Outlook(), stream.sent, ack, pull);
          return Fail(TransportLost);
        }
      }
      assert Through(line, |ack|);
      ghost var middle, t := stream.Outlook(), stream.sent;
      TellsNothing(middle, t);
      var response: bytes;
      if m.total == 0 {
        response := [];
      } else if contiguous >= m.total {
        var joined := SortedJoin(chunks);
        response := if |joined| > m.total then joined[..m.total] else joined;
      } else {
        var ok := true;
        if contiguous != st.requested {
          ok := SendPull(q, contiguous);
        }
        TellsInTurn(line, s, middle, t, stream.Outlook(), stream.sent, ack, pull);
        return if ok then Continue(State(st.pullSent, chunks, Declared(m.total, m.checksum), contiguous))
               else Fail(TransportLost);
      }
      TellsInTurn(line, s, middle, t, stream.Outlook(), stream.sent, ack, pull);
      if Checksum(response) != m.checksum {
        return Fail(ResponseMismatch);
      }
      return Done(response);
    }

    /** The reception loop of `_exchange`. */
    method Converse(q: Request, patience: nat) returns (r: Result<bytes>)
      requires stream.Valid() && Encodable(q)
      modifies stream`incoming, stream`sent, stream`tries
      ensures var (f, rest) := RunOn(q, Start(q), old(stream.Outlook()), patience);
              r == Conclude(f.outcome) && stream.Outlook() == rest && Sends(old(stream.sent), stream.sent, f.sent)
    {
      hide React, ParseMessage, Sound, Sends, RunOn, Start, Through, Tried, Sendable;
      ghost var s := stream.sent;
      ghost var whole := RunOn(q, Start(q), stream.Outlook(), patience);
      ghost var soFar: seq<Message> := [];
      var st := Start(q);
      var left := patience;
      StartIsSound(q);
      NoSends(s);
      assert [] + whole.0.sent == whole.0.sent;
      while left > 0
        invariant Sound(st)
        invariant Sends(s, stream.sent, soFar)
        invariant Extends(whole, soFar, RunOn(q, st, stream.Outlook(), left))
      {
        RunOnStep(q, st, stream.Outlook(), left);
        ghost var run := RunOn(q, st, stream.Outlook(), left);
        left := left - 1;
        var inbound := ReadMessage(stream);
        if inbound.Err? {
          assert soFar + [] == soFar;
          return Err(inbound.failure);
        }
        if inbound.value.Silent? {
          continue;
        }
        var m := inbound.value.message;
        ghost var t, line, reaction := stream.sent, stream.Outlook(), React(q, st, m);
        var verdict := Handle(q, st, m);
        ghost var said := Heard(line, reaction.sent);
        SendsInTurn(s, t, stream.sent, soFar, said);
        match verdict
        case Fail(failure) => return Err(failure);
        case Done(response) => return Ok(response);
        case Continue(next) =>
          ReactKeepsSound(q, st, m);
          ExtendsInTurn(whole, soFar, run, said, RunOn(q, next, stream.Outlook(), left));
          soFar := soFar + said;
          st := next;
      }
      RunOnEnds(q, st, stream.Outlook());
      assert soFar + [] == soFar;
      return Err(TimedOut);
    }

    /** A whole exchange for `q` was held on `line` and answered with `r`. */
    ghost predicate Holds(q: Request, line: Line, before: seq<bytes>, patience: nat, r: Result<bytes>)
      reads stream
    {
      var (f, rest) := Exchanged(q, line, patience);
      r == Conclude(f.outcome) && stream.Outlook() == rest && Sends(before, stream.sent, f.sent)
    }

    /** `_exchange`. */
    method Exchange(opcode: int, payload: bytes, patience: nat) returns (r: Result<bytes>)
      requires stream.Valid() && Accounts()
      modifies this`nextTransactionId, this`log, stream`incoming, stream`sent, stream`tries
      ensures Accounts()
      ensures !(0 <= opcode < U16) ==> r == Err(OpcodeRange)
      ensures 0 <= opcode < U16 && |payload| > MAX_REQUEST_SIZE ==> r == Err(OversizedRequest)
      ensures !(0 <= opcode < U16 && |payload| <= MAX_REQUEST_SIZE) ==>
                nextTransactionId == old(nextTransactionId) && log == old(log) && unchanged(stream)
      ensures 0 <= opcode < U16 && |payload| <= MAX_REQUEST_SIZE ==>
                && Holds(Request(opcode, TransactionId(old(nextTransactionId)), payload),
                         old(stream.Outlook()), old(stream.sent), patience, r)
                && nextTransactionId == old(nextTransactionId) + 1
                && log == old(log) + [Entry(opcode, ready)]
    {
      hide RunOn, Sends, Opening, Start, Through, Tried, Went, AllAccounted;
      if !(0 <= opcode < U16) {
        return Err(OpcodeRange);
      }
      if |payload| > MAX_REQUEST_SIZE {
        return Err(OversizedRequest);
      }
      var q := Request(opcode, TransactionId(nextTransactionId), payload);
      ghost var s, line, entries := stream.sent, stream.Outlook(), log;
      nextTransactionId := nextTransactionId + 1;
      log := log + [Entry(opcode, ready)];
      var ok := SendOpening(q);
      if !ok {
        ExchangeAccounted(q, line, patience, s, stream.sent, start, entries, Entry(opcode, ready));
        return Err(TransportLost);
      }
      ghost var t, middle := stream.sent, stream.Outlook();
      assert Sends(s, t, Opening(q)) by {
        WhenThrough(line, Opening(q));
      }
      r := Converse(q, patience);
      SendsInTurn(s, t, stream.sent, Opening(q), RunOn(q, Start(q), middle, patience).0.sent);
      ExchangeAccounted(q, line, patience, s, stream.sent, start, entries, Entry(opcode, ready));
    }

    /** `open`. */
    method Open(patience: nat) returns (r: Result<()>)
      requires Valid()
      modifies this, stream`incoming, stream`sent, stream`tries
      ensures Valid()
      ensures old(ready) ==> r == Ok(()) && unchanged(this) && unchanged(stream)
      ensures ready <==> r.Ok?
      ensures !old(ready) ==>
                var n := Negotiation(old(nextTransactionId), old(stream.Outlook()), patience);
                && r == n.result && stream.Outlook() == n.rest
                && Sends(old(stream.sent) + n.control, stream.sent, n.said)
      ensures old(log) <= log <= old(log) + [Entry(TOKEN_ALLOCATE, false), Entry(COMPONENT_NEGOTIATE, false)]
      ensures !old(ready) && r.Ok? ==> |log| == |old(log)| + 2
    {
      hide Sends, Exchanged, Association, AllAccounted;
      if ready {
        return Ok(());
      }
      ghost var first, line := nextTransactionId, stream.Outlook();
      AssociationIsControl(line, patience);
      ghost var sent := stream.sent;
      var associated := Associate(patience);
      ControlAccounted(sent, Association(line, patience).control, start, log);
      ghost var s := stream.sent;
      NoSends(s);
      if associated.Err? {
        return Err(associated.failure);
      }
      ghost var greeted := stream.Outlook();
      var token := Exchange(TOKEN_ALLOCATE, [], patience);
      if token.Err? {
        return Err(token.failure);
      }
      ghost var t, middle := stream.sent, stream.Outlook();
      var components := Exchange(COMPONENT_NEGOTIATE, [], patience);
      SendsInTurn(s, t, stream.sent, Exchanged(TokenRequest(first), greeted, patience).0.sent,
                  Exchanged(ComponentRequest(first + 1), middle, patience).0.sent);
      if components.Err? {
        return Err(components.failure);
      }
      ready := true;
      return Ok(());
    }

    /** `request_read`. */
    method RequestRead(opcode: int, payload: bytes, patience: nat) returns (r: Result<bytes>)
      requires Valid()
      modifies this`nextTransactionId, this`log, stream`incoming, stream`sent, stream`tries
      ensures Valid()
      ensures Requested(opcode, ReadOnly, payload, patience, r, old(nextTransactionId), old(log),
                        old(stream.Outlook()), old(stream.sent))
    {
      hide Requested;
      r := RequestClass(opcode, ReadOnly, payload, patience);
    }

    /** `_request_mutation_json`, on the encoded envelope. */
    method RequestMutation(opcode: int, payload: bytes, patience: nat) returns (r: Result<bytes>)
      requires Valid()
      modifies this`nextTransactionId, this`log, stream`incoming, stream`sent, stream`tries
      ensures Valid()
      ensures Requested(opcode, Mutation, payload, patience, r, old(nextTransactionId), old(log),
                        old(stream.Outlook()), old(stream.sent))
    {
      hide Requested;
      r := RequestClass(opcode, Mutation, payload, patience);
    }

    /**
     A request of class `safety` was answered with `r`, from the state given: refused with
     nothing sent or read, or one exchange for `opcode`.
     */
    ghost predicate Requested(opcode: int, safety: Safety, payload: bytes, patience: nat, r: Result<bytes>,
                              counter: nat, before: seq<Entry>, line: Line, sent: seq<bytes>)
      reads this, stream
    {
      var refusal := Refusal(ready, catalogue, opcode, safety, payload);
      if refusal.Err? then
        && r == Err(refusal.failure)
        && nextTransactionId == counter && log == before && stream.Outlook() == line && stream.sent == sent
      else
        && Holds(Request(opcode, TransactionId(counter), payload), line, sent, patience, r)
        && nextTransactionId == counter + 1 && log == before + [Entry(opcode, true)]
    }

    method RequestClass(opcode: int, safety: Safety, payload: bytes, patience: nat) returns (r: Result<bytes>)
      requires Valid() && safety in {ReadOnly, Mutation}
      modifies this`nextTransactionId, this`log, stream`incoming, stream`sent, stream`tries
      ensures Valid()
      ensures Requested(opcode, safety, payload, patience, r, old(nextTransactionId), old(log),
                        old(stream.Outlook()), old(stream.sent))
    {
      hide Sends, Exchanged, Holds;
      if !ready {
        return Err(NotReady);
      }
      if opcode !in catalogue {
        return Err(UnknownOpcode);
      }
      if catalogue[opcode] != safety {
        return Err(WrongClass);
      }
      r := Exchange(opcode, payload, patience);
    }

    /** `close`: the stream is closed whether or not the farewell goes through. */
    method Close()
      requires Valid()
      modifies this`ready, stream`sent, stream`tries, stream`closed
      ensures Valid() && !ready && stream.closed
      ensures var line := old(stream.Outlook());
              && stream.Outlook() == Tried(line, 1)
              && stream.sent == old(stream.sent) + [ControlFrame(BYE)][..Sendable(line, 1)]
    {
      hide Went, AllAccounted;
      ControlAccounted(stream.sent, [ControlFrame(BYE)][..Sendable(stream.Outlook(), 1)], start, log);
      ready := false;
      var sent := stream.SendAll(ControlFrame(BYE));
      stream.Close();
    }
  }

  lemma WhenThrough(line: Line, ms: seq<Message>)
    requires Through(line, |ms|)
    ensures Heard(line, ms) == ms
  {}

  /** An association sends control frames and no message. */
  lemma AssociationIsControl(line: Line, patience: nat)
    ensures Association(line, patience).said == []
    ensures AllControl(Association(line, patience).control)
  {
    hide Went, AwaitAccept;
    var all, control := ASK + CONFIRM, Association(line, patience).control;
    assert all[0] == ControlFrame(ASSOCIATE_REQUEST);
    assert all[1] == ControlFrame(ASSOCIATE_ACCEPT) && all[2] == ControlFrame(HELLO);
    assert forall i :: 0 <= i < |control| ==> control[i] == all[i];
  }

  /** A request is begun exactly on a ready session, for an operation of its class, within the limits. */
  lemma RefusedExactly(ready: bool, catalogue: map<nat, Safety>, opcode: int, safety: Safety, payload: bytes)
    ensures var r := Refusal(ready, catalogue, opcode, safety, payload);
            && (r.Ok? <==> && ready && opcode in catalogue && catalogue[opcode] == safety
                           && opcode <= 0xFFFF && |payload| <= 8156)
            && (r == Err(NotReady) <==> !ready)
            && (r == Err(UnknownOpcode) <==> ready && opcode !in catalogue)
            && (r == Err(WrongClass) <==> ready && opcode in catalogue && catalogue[opcode] != safety)
  {}
}
