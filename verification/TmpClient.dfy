/**
 The reconnecting client on top of the session object. Connecting, and whether an open
 channel is still up, is the network's choice; so are the octets each new stream delivers.
 */
module TmpClient {
  import opened Wrappers
  import opened Bytes
  import opened TmpWire
  import opened TmpReader
  import opened TmpExchange
  import opened TmpDiscipline
  import opened TmpTalk
  import opened TmpSession

  datatype Reply = Answer(result: Result<bytes>) | NotConnected

  /** `_is_connection_failure`. */
  predicate ConnectionFailure(f: Failure) {
    f == TransportLost || f == UnexpectedEof
  }

  predicate LostConnection(r: Reply) {
    r.Answer? && r.result.Err? && ConnectionFailure(r.result.failure)
  }

  /** The exchanges in `log` begun on a session that was ready. */
  function Attempts(log: seq<Entry>): nat {
    if log == [] then 0 else Attempts(log[..|log| - 1]) + if log[|log| - 1].ready then 1 else 0
  }

  lemma {:induction false} AttemptsConcat(a: seq<Entry>, b: seq<Entry>)
    ensures Attempts(a + b) == Attempts(a) + Attempts(b)
    decreases |b|
  {
    if b == [] {
      assert a + b == a;
    } else {
      assert (a + b)[..|a + b| - 1] == a + b[..|b| - 1];
      AttemptsConcat(a, b[..|b| - 1]);
    }
  }

  predicate Handshake(e: Entry) {
    !e.ready && (e.opcode == TOKEN_ALLOCATE || e.opcode == COMPONENT_NEGOTIATE)
  }

  /** `more` consists of handshakes and of at most `limit` exchanges for `opcode`, which is of class `safety`. */
  ghost predicate Limited(more: seq<Entry>, catalogue: map<nat, Safety>, opcode: int, safety: Safety, limit: nat) {
    && Attempts(more) <= limit
    && forall i :: 0 <= i < |more| ==>
         Handshake(more[i])
         || (more[i].ready && more[i].opcode == opcode && more[i].opcode in catalogue
             && catalogue[more[i].opcode] == safety)
  }

  lemma LimitedInTurn(a: seq<Entry>, b: seq<Entry>, catalogue: map<nat, Safety>, opcode: int, safety: Safety,
                      m: nat, n: nat)
    requires Limited(a, catalogue, opcode, safety, m) && Limited(b, catalogue, opcode, safety, n)
    ensures Limited(a + b, catalogue, opcode, safety, m + n)
  {
    AttemptsConcat(a, b);
  }

  // ----- what the network does, and what follows from it

  /**
   What becomes of one attempt to connect: no channel, or one that will deliver `incoming`
   and accepts some sends and refuses others.
   */
  datatype Dial = NoChannel | Channel(incoming: bytes, reset: bool, accepts: nat -> bool)

  function NewLine(dial: Dial): Line
    requires dial.Channel?
  {
    Line(dial.incoming, if dial.reset then TransportLost else UnexpectedEof, 0, dial.accepts)
  }

  const FIRST_ID: nat := 1

  /** How opening a new session ends. */
  function Dialled(dial: Dial, patience: nat): Result<()> {
    if dial.NoChannel? then Err(TransportLost) else Negotiation(FIRST_ID, NewLine(dial), patience).result
  }

  /** The answer to a request made on a ready session whose counter and line are given. */
  function Asked(catalogue: map<nat, Safety>, opcode: int, safety: Safety, payload: bytes, counter: nat,
                 line: Line, patience: nat): Result<bytes> {
    var refusal := Refusal(true, catalogue, opcode, safety, payload);
    if refusal.Err? then Err(refusal.failure)
    else Conclude(Exchanged(Request(opcode, TransactionId(counter), payload), line, patience).0.outcome)
  }

  /** A read on this line begins an exchange, and the line is lost before it has ended. */
  ghost predicate ReadLost(catalogue: map<nat, Safety>, opcode: int, payload: bytes, counter: nat, line: Line,
                           patience: nat)
  {
    && Refusal(true, catalogue, opcode, ReadOnly, payload).Ok?
    && LineLost(Request(opcode, TransactionId(counter), payload), line, patience)
  }

  lemma LostIsLineLost(catalogue: map<nat, Safety>, opcode: int, payload: bytes, counter: nat, line: Line,
                       patience: nat)
    requires line.ending == UnexpectedEof || line.ending == TransportLost
    ensures var r := Answer(Asked(catalogue, opcode, ReadOnly, payload, counter, line, patience));
            && (LostConnection(r) <==> r == Answer(Err(UnexpectedEof)) || r == Answer(Err(TransportLost)))
            && (LostConnection(r) <==> ReadLost(catalogue, opcode, payload, counter, line, patience))
  {
    hide Exchanged, LineLost;
    if Refusal(true, catalogue, opcode, ReadOnly, payload).Ok? {
      LostExactly(Request(opcode, TransactionId(counter), payload), line, patience);
    }
  }

  /** What the second round of a read gives, from the new connection alone. */
  function Retried(catalogue: map<nat, Safety>, opcode: int, payload: bytes, dial: Dial, up: bool, patience: nat)
    : Reply
  {
    var dialled := Dialled(dial, patience);
    if dialled.Err? then Answer(Err(dialled.failure))
    else if !up then NotConnected
    else
      var line := Negotiation(FIRST_ID, NewLine(dial), patience).rest;
      Answer(Asked(catalogue, opcode, ReadOnly, payload, FIRST_ID + 2, line, patience))
  }

  // ----- the client

  class DecoTmpClient {
    const catalogue: map<nat, Safety>
    var session: TmpAppV2Session?
    /** Every exchange begun through this client, over all its sessions. */
    ghost var log: seq<Entry>

    ghost predicate Valid()
      reads this, session, if session == null then {} else {session.stream}
    {
      && (session != null ==> session.Valid() && session.catalogue == catalogue)
      && forall i :: 0 <= i < |log| ==> Handshake(log[i]) || Classified(log[i])
    }

    /** An exchange on a ready session, of an operation that is catalogued as a read or a mutation. */
    ghost predicate Classified(e: Entry) {
      e.ready && e.opcode in catalogue && catalogue[e.opcode] in {ReadOnly, Mutation}
    }

    /** What the client's methods may change. */
    ghost function Footprint(): set<object>
      reads this
    {
      {this} + if session == null then {} else {session, session.stream}
    }

    constructor (catalogue: map<nat, Safety>)
      ensures Valid() && session == null && log == []
      ensures this.catalogue == catalogue
    {
      this.catalogue, session, log := catalogue, null, [];
    }

    /** There is a session, negotiated and not closed by this side. */
    predicate Live()
      reads this, session, if session == null then {} else {session.stream}
    {
      session != null && !session.stream.closed && session.ready
    }

    /** `connected`, when the network still holds the channel open exactly if `up`. */
    predicate Connected(up: bool)
      reads this, session, if session == null then {} else {session.stream}
    {
      up && Live()
    }

    /** What a request on the present session is answered with. */
    ghost function Present(opcode: int, safety: Safety, payload: bytes, up: bool, patience: nat): Reply
      reads this, session, if session == null then {} else {session.stream}
    {
      if !Connected(up) then NotConnected
      else Answer(Asked(catalogue, opcode, safety, payload, session.nextTransactionId,
                        session.stream.Outlook(), patience))
    }

    /**
     A request on the present session, where there is one: answered as the session answered
     it, and what it added to the session's log is what was added to this one. Nothing else
     was sent; and nothing at all without a live session.
     */
    twostate predicate Asks(opcode: int, safety: Safety, payload: bytes, up: bool, patience: nat, r: Reply)
      reads this, session, if session == null then {} else {session.stream}
    {
      && session == old(session) && old(log) <= log
      && if old(Connected(up)) then
           && r.Answer?
           && session.Requested(opcode, safety, payload, patience, r.result, old(session.nextTransactionId),
                                old(session.log), old(session.stream.Outlook()), old(session.stream.sent))
           && session.log == old(session.log) + log[|old(log)|..]
         else
           && log == old(log)
           && (session != null ==> unchanged(session) && unchanged(session.stream))
    }

    /** Everything begun on `next`, if it was opened, is at the end of the log, after `before`. */
    ghost predicate Covers(before: seq<Entry>, next: TmpAppV2Session?)
      reads this, next, if next == null then {} else {next.stream}
    {
      && (next != null ==> next.Valid() && next.catalogue == catalogue && next.start == 0)
      && log == before + if next == null then [] else next.log
    }

    /** Connects and negotiates; the stream of an attempt that fails is closed. */
    method Attempt(dial: Dial, patience: nat) returns (r: Result<()>, attempt: TmpAppV2Session)
      requires dial.Channel?
      ensures fresh(attempt) && fresh(attempt.stream)
      ensures attempt.Valid() && attempt.catalogue == catalogue && attempt.start == 0
      ensures var n := Negotiation(FIRST_ID, NewLine(dial), patience);
              && r == n.result && attempt.stream.Outlook() == n.rest
              && Sends(n.control, attempt.stream.sent, n.said)
      ensures attempt.ready == !attempt.stream.closed == r.Ok?
      ensures attempt.log <= [Entry(TOKEN_ALLOCATE, false), Entry(COMPONENT_NEGOTIATE, false)]
      ensures r.Ok? ==> |attempt.log| == 2
    {
      hide Negotiation, Sends, AllAccounted;
      ghost var control := Negotiation(FIRST_ID, NewLine(dial), patience).control;
      var stream := new TmpStream(dial.incoming, if dial.reset then TransportLost else UnexpectedEof, dial.accepts);
      attempt := new TmpAppV2Session(stream, catalogue);
      r := attempt.Open(patience);
      assert [] + control == control;
      if r.Err? {
        stream.Close();
      }
    }

    /** The read is begun on the present session, and that session's line is lost before it has ended. */
    ghost predicate PresentLost(opcode: int, payload: bytes, patience: nat)
      requires session != null
      reads this, session, session.stream
    {
      ReadLost(catalogue, opcode, payload, session.nextTransactionId, session.stream.Outlook(), patience)
    }

    /** `open`; `next` is the session that was tried, if any. */
    method Open(up: bool, dial: Dial, patience: nat) returns (r: Result<()>, ghost next: TmpAppV2Session?)
      requires Valid()
      modifies this
      ensures Valid() && Covers(old(log), next)
      ensures forall i :: |old(log)| <= i < |log| ==> Handshake(log[i])
      ensures next != null ==> fresh(next) && fresh(next.stream)
      ensures next != null <==> !old(Connected(up)) && dial.Channel?
      ensures old(Connected(up)) ==> r == Ok(()) && session == old(session)
      ensures !old(Connected(up)) ==> r == Dialled(dial, patience)
      ensures r.Err? ==> session == old(session)
      ensures next != null ==>
                var n := Negotiation(FIRST_ID, NewLine(dial), patience);
                && next.stream.Outlook() == n.rest && Sends(n.control, next.stream.sent, n.said)
                && if r.Ok? then session == next && Live() else next.stream.closed && !next.ready
      ensures !old(Connected(up)) && r.Ok? ==>
                && next != null && next.nextTransactionId == FIRST_ID + 2
                && next.log == [Entry(TOKEN_ALLOCATE, false), Entry(COMPONENT_NEGOTIATE, false)]
    {
      hide Negotiation, Sends, AllAccounted;
      next := null;
      if Connected(up) {
        return Ok(()), next;
      }
      if dial.NoChannel? {
        return Err(TransportLost), next;
      }
      var attempt;
      r, attempt := Attempt(dial, patience);
      next := attempt;
      log := log + attempt.log;
      if r.Err? {
        return;
      }
      session := attempt;
    }

    /** `close`: the stream is closed, whether or not the farewell goes through. */
    method Close()
      requires Valid()
      modifies Footprint()
      ensures fresh(Footprint() - old(Footprint()))
      ensures Valid() && session == null && log == old(log)
      ensures old(session) != null ==>
                && !old(session).ready && old(session).stream.closed
                && old(session).Valid() && old(session).log == old(session.log)
                && old(session).stream.sent
                   == old(session.stream.sent) + [ControlFrame(BYE)][..Sendable(old(session.stream.Outlook()), 1)]
    {
      hide AllAccounted;
      var current := session;
      session := null;
      if current != null {
        current.Close();
      }
    }

    /** `_require_session`. */
    method RequireSession(up: bool) returns (s: TmpAppV2Session?)
      ensures s == if Connected(up) then session else null
    {
      return if Connected(up) then session else null;
    }

    /** One attempt at a read on the current session, if there is one; it stays as live as it was. */
    method AttemptRead(opcode: int, payload: bytes, up: bool, patience: nat) returns (r: Reply)
      requires Valid()
      modifies Footprint()
      ensures fresh(Footprint() - old(Footprint()))
      ensures Valid() && Asks(opcode, ReadOnly, payload, up, patience, r)
      ensures Live() == old(Live())
      ensures r == old(Present(opcode, ReadOnly, payload, up, patience))
      ensures Limited(log[|old(log)|..], catalogue, opcode, ReadOnly, 1)
    {
      hide Exchanged, Sends, AllAccounted;
      var s := RequireSession(up);
      if s == null {
        NoExchanges(catalogue, opcode, ReadOnly, 1);
        assert log[|log|..] == [];
        return NotConnected;
      }
      ghost var before := s.log;
      var result := s.RequestRead(opcode, payload, patience);
      ghost var more := s.log[|before|..];
      log := log + more;
      assert more == [] || more == [Entry(opcode, true)];
      OneExchange(more, catalogue, opcode, ReadOnly);
      assert log[|old(log)|..] == more;
      return Answer(result);
    }

    /** The second round of `_request_with_reconnect`: close, reopen, one more attempt; `next` is the new session. */
    method Reconnect(opcode: int, payload: bytes, dial: Dial, up: bool, patience: nat)
      returns (r: Reply, ghost next: TmpAppV2Session?)
      requires Valid()
      modifies Footprint()
      ensures fresh(Footprint() - old(Footprint()))
      ensures Valid() && Covers(old(log), next)
      ensures next != null ==> fresh(next) && fresh(next.stream)
      ensures r == Retried(catalogue, opcode, payload, dial, up, patience)
      ensures old(session) != null ==>
                && old(session).stream.closed && old(session).Valid() && old(session).log == old(session.log)
      ensures Limited(log[|old(log)|..], catalogue, opcode, ReadOnly, 1)
      ensures if Live() then session == next else session == null && (next != null ==> next.stream.closed)
      ensures Live() <==> Dialled(dial, patience).Ok? && !LostConnection(r)
    {
      hide Limited, Exchanged, Negotiation, AllAccounted, Sends, Refusal;
      Close();
      ghost var start := log;
      var reopened;
      reopened, next := Open(up, dial, patience);
      ghost var greeting := log[|start|..];
      HandshakesOnly(greeting, catalogue, opcode, ReadOnly);
      if reopened.Err? {
        LimitedMore(greeting, catalogue, opcode, ReadOnly, 0, 1);
        return Answer(Err(reopened.failure)), next;
      }
      ghost var middle := log;
      r := AttemptRead(opcode, payload, up, patience);
      LimitedInTurn(greeting, log[|middle|..], catalogue, opcode, ReadOnly, 0, 1);
      assert log[|start|..] == greeting + log[|middle|..];
      if LostConnection(r) {
        Close();
      }
    }

    /**
     `_request_with_reconnect`: `up` and `again` say whether the channel is still there in
     each round. What is added to the log is what the old session began, then what the new
     one did; both logs account for all that was sent on their streams.
     */
    method RequestRead(opcode: int, payload: bytes, up: bool, dial: Dial, again: bool, patience: nat)
      returns (r: Reply, ghost next: TmpAppV2Session?)
      requires Valid()
      modifies Footprint()
      ensures fresh(Footprint() - old(Footprint()))
      ensures Valid()
      ensures next != null ==> fresh(next) && fresh(next.stream)
      ensures old(session) != null ==> old(session).Valid() && old(session.log) <= old(session).log
      ensures Covers(old(log) + (if old(session) == null then [] else old(session).log[|old(session.log)|..]), next)
      ensures var first := old(Present(opcode, ReadOnly, payload, up, patience));
              if LostConnection(first)
              then
                && r == Retried(catalogue, opcode, payload, dial, again, patience)
                && old(session).stream.closed && session != old(session)
                && (if Live() then session == next else session == null && (next != null ==> next.stream.closed))
                && (Live() <==> Dialled(dial, patience).Ok? && !LostConnection(r))
              else
                && r == first && Live() == old(Live()) && next == null
                && Asks(opcode, ReadOnly, payload, up, patience, r)
      ensures Limited(log[|old(log)|..], catalogue, opcode, ReadOnly, 2)
      ensures r == Answer(Err(UnexpectedEof)) || r == Answer(Err(TransportLost)) ==> session == null
      ensures old(Connected(up)) ==>
                if old(PresentLost(opcode, payload, patience))
                then
                  && old(session).stream.closed && session != old(session)
                  && r == Retried(catalogue, opcode, payload, dial, again, patience)
                else session == old(session) && Live() && next == null
    {
      hide Limited, Asked, Retried, Dialled, AllAccounted, Sends, Exchanged, Negotiation, ReadLost;
      ghost var start, s, entries := log, session, if session == null then [] else session.log;
      if session != null {
        LostIsLineLost(catalogue, opcode, payload, session.nextTransactionId, session.stream.Outlook(), patience);
      }
      r := AttemptRead(opcode, payload, up, patience);
      next := null;
      ghost var first := log[|start|..];
      assert log == start + first;
      assert s != null ==> s.log == entries + first;
      if LostConnection(r) {
        ghost var middle := log;
        r, next := Reconnect(opcode, payload, dial, again, patience);
        LimitedInTurn(first, log[|middle|..], catalogue, opcode, ReadOnly, 1, 1);
        assert log[|start|..] == first + log[|middle|..];
      } else {
        LimitedMore(first, catalogue, opcode, ReadOnly, 1, 2);
      }
    }

    /** `_request_mutation_json`: on the current session, once, without reconnecting. */
    method RequestMutation(opcode: int, payload: bytes, up: bool, patience: nat) returns (r: Reply)
      requires Valid()
      modifies Footprint()
      ensures fresh(Footprint() - old(Footprint()))
      ensures Valid() && Asks(opcode, Mutation, payload, up, patience, r)
      ensures Live() == old(Live())
      ensures r == old(Present(opcode, Mutation, payload, up, patience))
      ensures Limited(log[|old(log)|..], catalogue, opcode, Mutation, 1)
      ensures |log| <= |old(log)| + 1
    {
      hide Exchanged, Sends, AllAccounted;
      var s := RequireSession(up);
      if s == null {
        NoExchanges(catalogue, opcode, Mutation, 1);
        assert log[|log|..] == [];
        return NotConnected;
      }
      ghost var before := s.log;
      var result := s.RequestMutation(opcode, payload, patience);
      ghost var more := s.log[|before|..];
      log := log + more;
      assert more == [] || more == [Entry(opcode, true)];
      OneExchange(more, catalogue, opcode, Mutation);
      assert log[|old(log)|..] == more;
      return Answer(result);
    }
  }

  /**
   The order in which a no-op verifier uses the client. While the network holds the channel
   open, the restoring write finds no session exactly when there was none to begin with, or
   the read lost its connection and reconnecting did not bring a session that outlasted it.
   */
  method ReadThenRestore(client: DecoTmpClient, read: int, write: int, payload: bytes,
                         up: bool, dial: Dial, again: bool, later: bool, patience: nat)
    returns (seen: Reply, restored: Reply)
    requires client.Valid()
    modifies client.Footprint()
    ensures client.Valid()
    ensures var first := old(client.Present(read, ReadOnly, [], up, patience));
            && seen == (if LostConnection(first) then Retried(client.catalogue, read, [], dial, again, patience)
                        else first)
            && (restored == NotConnected
            <==> !later || if LostConnection(first) then Dialled(dial, patience).Err? || LostConnection(seen)
                           else !old(client.Live()))
    ensures LostConnection(seen) ==> restored == NotConnected && client.session == null
    ensures old(client.log) <= client.log
    ensures restored == NotConnected ==>
              Limited(client.log[|old(client.log)|..], client.catalogue, read, ReadOnly, 2)
  {
    hide Asked, Retried, Limited, Dialled;
    ghost var next;
    seen, next := client.RequestRead(read, [], up, dial, again, patience);
    restored := client.RequestMutation(write, payload, later, patience);
  }

  lemma NoExchanges(catalogue: map<nat, Safety>, opcode: int, safety: Safety, limit: nat)
    ensures Limited([], catalogue, opcode, safety, limit)
  {}

  lemma OneExchange(more: seq<Entry>, catalogue: map<nat, Safety>, opcode: int, safety: Safety)
    requires more == [] || (|more| == 1 && more[0].ready && more[0].opcode == opcode
                            && more[0].opcode in catalogue && catalogue[more[0].opcode] == safety)
    ensures Limited(more, catalogue, opcode, safety, 1)
  {
    if more != [] {
      assert more[..0] == [];
    }
  }

  lemma LimitedMore(more: seq<Entry>, catalogue: map<nat, Safety>, opcode: int, safety: Safety, m: nat, n: nat)
    requires Limited(more, catalogue, opcode, safety, m) && m <= n
    ensures Limited(more, catalogue, opcode, safety, n)
  {}

  lemma {:induction false} HandshakesOnly(more: seq<Entry>, catalogue: map<nat, Safety>, opcode: int, safety: Safety)
    requires forall i :: 0 <= i < |more| ==> Handshake(more[i])
    ensures Limited(more, catalogue, opcode, safety, 0)
  {
    if more != [] {
      HandshakesOnly(more[..|more| - 1], catalogue, opcode, safety);
    }
  }
}
