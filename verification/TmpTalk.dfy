/**
 What an exchange, and the negotiation before any, make of a line: the octets to come and
 the sends that go through. `patience` stands for the deadline: the number of receptions
 that end before it passes; receptions that time out do nothing.
 */
module TmpTalk {
  import opened Bytes
  import opened Crc32
  import opened TmpWire
  import opened TmpReader
  import opened TmpExchange
  import opened TmpDiscipline
  import opened TmpReassembly

  const TOKEN_ALLOCATE: nat := 0x0001
  const COMPONENT_NEGOTIATE: nat := 0x4001

  // ----- a run on a line

  /** What was said and how it ended, and the line it leaves. */
  type Talk = (Final, Line)

  function Conclude(o: Outcome): Result<bytes> {
    match o
    case Returned(response) => Ok(response)
    case Failed(failure) => Err(failure)
    case Waiting(_) => Err(TimedOut)
  }

  /** The verdict on a message once its reaction was sent, or could not be. */
  function Attempted(line: Line, r: Reaction): Verdict {
    if Through(line, |r.sent|) then r.verdict else Fail(TransportLost)
  }

  /** A run on a line: it ends at the first send that is refused, if not before. */
  function RunOn(q: Request, st: State, line: Line, patience: nat): Talk
    decreases patience
  {
    if patience == 0 then (Final(Waiting(st), []), line)
    else
      var p := ParseMessage(line.incoming, line.ending);
      var after := line.(incoming := p.rest);
      match p.result
      case Err(failure) => (Final(Failed(failure), []), after)
      case Ok(Silent) => RunOn(q, st, after, patience - 1)
      case Ok(Got(m)) =>
        var r := React(q, st, m);
        var said, left := Heard(after, r.sent), Tried(after, |r.sent|);
        match Attempted(after, r)
        case Fail(failure) => (Final(Failed(failure), said), left)
        case Done(response) => (Final(Returned(response), said), left)
        case Continue(next) =>
          var (f, rest) := RunOn(q, next, left, patience - 1);
          (Final(f.outcome, said + f.sent), rest)
  }

  /** Those of the next messages that go through. */
  function Heard(line: Line, ms: seq<Message>): seq<Message> {
    ms[..Sendable(line, |ms|)]
  }

  lemma RunOnEnds(q: Request, st: State, line: Line)
    ensures RunOn(q, st, line, 0) == (Final(Waiting(st), []), line)
  {}

  lemma RunOnStep(q: Request, st: State, line: Line, patience: nat)
    requires patience > 0
    ensures var p := ParseMessage(line.incoming, line.ending);
            var run := RunOn(q, st, line, patience);
            var after := line.(incoming := p.rest);
            match p.result
            case Err(failure) => run == (Final(Failed(failure), []), after)
            case Ok(Silent) => run == RunOn(q, st, after, patience - 1)
            case Ok(Got(m)) =>
              var r := React(q, st, m);
              var said, left := Heard(after, r.sent), Tried(after, |r.sent|);
              match Attempted(after, r)
              case Fail(failure) => run == (Final(Failed(failure), said), left)
              case Done(response) => run == (Final(Returned(response), said), left)
              case Continue(next) => Extends(run, said, RunOn(q, next, left, patience - 1))
  {
    hide React, ParseMessage, Heard, Tried, Attempted;
  }

  /** `whole` is `part` after the messages `sent` were sent. */
  ghost predicate Extends(whole: Talk, sent: seq<Message>, part: Talk) {
    whole == (Final(part.0.outcome, sent + part.0.sent), part.1)
  }

  lemma ExtendsInTurn(a: Talk, s: seq<Message>, b: Talk, t: seq<Message>, c: Talk)
    requires Extends(a, s, b) && Extends(b, t, c)
    ensures Extends(a, s + t, c)
  {
    assert s + (t + c.0.sent) == (s + t) + c.0.sent;
  }

  /** A whole exchange on a line: the opening, then the run. */
  function Exchanged(q: Request, line: Line, patience: nat): Talk {
    var n := |Opening(q)|;
    if !Through(line, n) then (Final(Failed(TransportLost), Heard(line, Opening(q))), Tried(line, n))
    else
      var (f, rest) := RunOn(q, Start(q), Tried(line, n), patience);
      (Final(f.outcome, Opening(q) + f.sent), rest)
  }

  // ----- a line that refuses sends

  /** What becomes of a talk when sends may be refused: it fails at the first that is. */
  function Cut(line: Line, f: Final): Final {
    if Through(line, |f.sent|) then f else Final(Failed(TransportLost), Heard(line, f.sent))
  }

  lemma CutInTurn(line: Line, sent: seq<Message>, f: Final)
    ensures var whole := Cut(line, Final(f.outcome, sent + f.sent));
            if Through(line, |sent|)
            then var part := Cut(Tried(line, |sent|), f); whole == Final(part.outcome, sent + part.sent)
            else whole == Final(Failed(TransportLost), Heard(line, sent))
  {
    hide Went;
    TriedInTurn(line, |sent|, |f.sent|);
    var k := Sendable(line, |sent + f.sent|);
    if Through(line, |sent|) {
      assert (sent + f.sent)[..k] == sent + f.sent[..k - |sent|];
    } else {
      assert (sent + f.sent)[..k] == sent[..k];
    }
  }

  lemma DecodeStep(s: bytes, ending: Failure, patience: nat)
    ensures patience == 0 ==> Decode(s, ending, patience) == []
    ensures patience > 0 ==>
              var p := ParseMessage(s, ending);
              Decode(s, ending, patience)
              == [p.result] + if p.result.Err? then [] else Decode(p.rest, ending, patience - 1)
  {
    hide ParseMessage;
  }

  /** On a line a run is the machine's on what the octets decode to, up to the first send that is refused. */
  lemma {:induction false} RunOnIsRun(q: Request, st: State, line: Line, patience: nat)
    ensures RunOn(q, st, line, patience).0 == Cut(line, Run(q, st, Decode(line.incoming, line.ending, patience)))
    decreases patience
  {
    hide React, ParseMessage, Decode, Went, RunOn;
    DecodeStep(line.incoming, line.ending, patience);
    if patience == 0 {
      RunOnEnds(q, st, line);
      return;
    }
    RunOnStep(q, st, line, patience);
    var p := ParseMessage(line.incoming, line.ending);
    var after := line.(incoming := p.rest);
    var inbox := Decode(line.incoming, line.ending, patience);
    if p.result.Ok? {
      assert inbox[1..] == Decode(p.rest, line.ending, patience - 1);
      if p.result.value.Silent? {
        RunOnIsRun(q, st, after, patience - 1);
      } else {
        var r := React(q, st, p.result.value.message);
        if r.verdict.Continue? {
          var left := Tried(after, |r.sent|);
          RunOnIsRun(q, r.verdict.next, left, patience - 1);
          CutInTurn(line, r.sent, Run(q, r.verdict.next, inbox[1..]));
        }
      }
    }
  }

  /** On any line an exchange is the machine's, or fails at the first of its sends that is refused. */
  lemma ExchangedIsRun(q: Request, line: Line, patience: nat)
    ensures var inbox := Decode(line.incoming, line.ending, patience);
            Exchanged(q, line, patience).0
            == Cut(line, Final(Run(q, Start(q), inbox).outcome, Spoken(q, inbox)))
  {
    hide Run, RunOn, Decode, Went, Start, Opening;
    CutInTurn(line, Opening(q), Run(q, Start(q), Decode(line.incoming, line.ending, patience)));
    RunOnIsRun(q, Start(q), Tried(line, |Opening(q)|), patience);
  }

  // ----- when the connection is lost

  lemma ParseLost(s: bytes, ending: Failure, f: Failure)
    requires ParseMessage(s, ending).result == Err(f) && (f == UnexpectedEof || f == TransportLost)
    ensures f == ending && ParseMessage(s, ending).rest == []
  {
    hide CheckFrame, Interpret, Unpack16;
    forall frame
      ensures Interpret(frame) != Err(UnexpectedEof) && Interpret(frame) != Err(TransportLost)
    {
      InterpretNeverLost(frame);
    }
    forall g, t, payload | |g| == 4 && |t| == 12
      ensures CheckFrame(g, t, payload) != Err(UnexpectedEof) && CheckFrame(g, t, payload) != Err(TransportLost)
    {
      CheckNeverLost(g, t, payload);
    }
  }

  lemma InterpretNeverLost(frame: Frame)
    ensures Interpret(frame) != Err(UnexpectedEof) && Interpret(frame) != Err(TransportLost)
  {
    hide Unpack16, Unpack32;
  }

  lemma CheckNeverLost(g: bytes, t: bytes, payload: bytes)
    requires |g| == 4 && |t| == 12
    ensures CheckFrame(g, t, payload) != Err(UnexpectedEof) && CheckFrame(g, t, payload) != Err(TransportLost)
  {
    hide Checksum, Pack32, Unpack32;
  }

  /** Only the last of the events that octets decode to is a failure, and of these two kinds only the line's own. */
  lemma {:induction false} DecodeLost(s: bytes, ending: Failure, patience: nat, n: nat)
    requires n < |Decode(s, ending, patience)| && Decode(s, ending, patience)[n].Err?
    ensures n == |Decode(s, ending, patience)| - 1
    ensures var f := Decode(s, ending, patience)[n].failure;
            f == UnexpectedEof || f == TransportLost ==> f == ending
    decreases patience
  {
    hide ParseMessage, Decode;
    DecodeStep(s, ending, patience);
    var p := ParseMessage(s, ending);
    if n > 0 {
      DecodeLost(p.rest, ending, patience - 1, n - 1);
    } else if p.result == Err(UnexpectedEof) || p.result == Err(TransportLost) {
      ParseLost(s, ending, p.result.failure);
    }
  }

  lemma ReactNeverLost(q: Request, st: State, m: Message)
    ensures React(q, st, m).verdict != Fail(UnexpectedEof) && React(q, st, m).verdict != Fail(TransportLost)
  {
    hide Chain, SortedJoin, Checksum;
  }

  /** A run fails in these ways only by an event, before which it had not ended. */
  lemma {:induction false} RunLost(q: Request, st: State, inbox: Inbox, f: Failure)
    requires f == UnexpectedEof || f == TransportLost
    ensures Run(q, st, inbox).outcome == Failed(f)
       <==> exists n :: 0 <= n < |inbox| && inbox[n] == Err(f) && Run(q, st, inbox[..n]).outcome.Waiting?
    decreases |inbox|
  {
    hide React;
    if inbox != [] {
      var tail := inbox[1..];
      forall n | 0 < n <= |inbox|
        ensures inbox[..n][0] == inbox[0] && inbox[..n][1..] == tail[..n - 1]
      {
      }
      if inbox[0].Err? {
        assert inbox[..0] == [];
      } else {
        var next := st;
        if inbox[0].value.Got? {
          ReactNeverLost(q, st, inbox[0].value.message);
          var v := React(q, st, inbox[0].value.message).verdict;
          next := if v.Continue? then v.next else st;
        }
        if inbox[0].value.Silent? || React(q, st, inbox[0].value.message).verdict.Continue? {
          RunLost(q, next, tail, f);
          if n :| 0 <= n < |tail| && tail[n] == Err(f) && Run(q, next, tail[..n]).outcome.Waiting? {
            assert inbox[n + 1] == Err(f) && inbox[..n + 1][1..] == tail[..n];
            assert Run(q, st, inbox[..n + 1]).outcome.Waiting?;
          }
          if n :| 0 <= n < |inbox| && inbox[n] == Err(f) && Run(q, st, inbox[..n]).outcome.Waiting? {
            assert tail[n - 1] == Err(f) && Run(q, next, tail[..n - 1]).outcome.Waiting?;
          }
        }
      }
    }
  }

  /** The octets to come run out before the exchange has ended and while there is still time. */
  ghost predicate RunsOut(q: Request, line: Line, patience: nat) {
    var inbox := Decode(line.incoming, line.ending, patience);
    inbox != [] && inbox[|inbox| - 1] == Err(line.ending) && Run(q, Start(q), inbox[..|inbox| - 1]).outcome.Waiting?
  }

  /** One of the exchange's sends is refused, or the octets to come run out. */
  ghost predicate LineLost(q: Request, line: Line, patience: nat) {
    !Through(line, |Spoken(q, Decode(line.incoming, line.ending, patience))|) || RunsOut(q, line, patience)
  }

  /** An exchange fails by an unexpected end or a transport error exactly when the line was lost. */
  lemma LostExactly(q: Request, line: Line, patience: nat)
    requires line.ending == UnexpectedEof || line.ending == TransportLost
    ensures var o := Exchanged(q, line, patience).0.outcome;
            (o == Failed(UnexpectedEof) || o == Failed(TransportLost)) <==> LineLost(q, line, patience)
  {
    hide Exchanged, Run, Start, Spoken, Decode, Went;
    var inbox := Decode(line.incoming, line.ending, patience);
    ExchangedIsRun(q, line, patience);
    RunLost(q, Start(q), inbox, UnexpectedEof);
    RunLost(q, Start(q), inbox, TransportLost);
    forall n | 0 <= n < |inbox| && inbox[n].Err?
      ensures n == |inbox| - 1
      ensures inbox[n].failure == UnexpectedEof || inbox[n].failure == TransportLost ==> inbox[n].failure == line.ending
    {
      DecodeLost(line.incoming, line.ending, patience, n);
    }
  }

  /** On any line too, what an exchange says is under its own operation and identifier. */
  lemma ExchangedIsOwn(q: Request, line: Line, patience: nat)
    ensures var sent := Exchanged(q, line, patience).0.sent;
            forall i :: 0 <= i < |sent| ==> Addressed(q, sent[i])
  {
    hide Run, Exchanged, Decode, Went, Start, Opening, Spoken;
    ExchangedIsRun(q, line, patience);
    SpokenIsOwn(q, Decode(line.incoming, line.ending, patience));
  }

  // ----- association and negotiation

  function ControlFrame(control: byte): bytes {
    [1, 1, control, 0]
  }

  /** The answer to the request for association, and the octets left. */
  function AwaitAccept(s: bytes, ending: Failure, patience: nat): Parse<()>
    decreases patience
  {
    if patience == 0 then Parse(Err(TimedOut), s)
    else
      var p := ParseFrame(s, ending);
      match p.result
      case Err(failure) => Parse(Err(failure), p.rest)
      case Ok(f) =>
        if f.control == ASSOCIATE_REFUSE then Parse(Err(Refused(f.reason)), p.rest)
        else if f.control == ASSOCIATE_ACCEPT then Parse(Ok(()), p.rest)
        else AwaitAccept(p.rest, ending, patience - 1)
  }

  /** How opening a session ended, the control frames and the messages it sent, and the line it leaves. */
  datatype Greeting = Greeting(result: Result<()>, control: seq<bytes>, said: seq<Message>, rest: Line)

  const ASK: seq<bytes> := [ControlFrame(ASSOCIATE_REQUEST)]
  const CONFIRM: seq<bytes> := [ControlFrame(ASSOCIATE_ACCEPT), ControlFrame(HELLO)]

  /** `_associate`. */
  function Association(line: Line, patience: nat): Greeting {
    if !Through(line, 1) then Greeting(Err(TransportLost), [], [], Tried(line, 1))
    else
      var asked := Tried(line, 1);
      var answer := AwaitAccept(asked.incoming, asked.ending, patience);
      var heard := asked.(incoming := answer.rest);
      if answer.result.Err? then Greeting(answer.result, ASK, [], heard)
      else Greeting(if Through(heard, 2) then Ok(()) else Err(TransportLost),
                     ASK + CONFIRM[..Sendable(heard, 2)], [], Tried(heard, 2))
  }

  function TokenRequest(counter: nat): Request {
    Request(TOKEN_ALLOCATE, TransactionId(counter), [])
  }

  function ComponentRequest(counter: nat): Request {
    Request(COMPONENT_NEGOTIATE, TransactionId(counter), [])
  }

  /** Association first, then the two handshake exchanges, each only after the one before it succeeded. */
  function Negotiation(first: nat, line: Line, patience: nat): Greeting {
    var a := Association(line, patience);
    if a.result.Err? then a
    else
      var (t, middle) := Exchanged(TokenRequest(first), a.rest, patience);
      var token := Conclude(t.outcome);
      if token.Err? then Greeting(Err(token.failure), a.control, t.sent, middle)
      else
        var (c, rest) := Exchanged(ComponentRequest(first + 1), middle, patience);
        var components := Conclude(c.outcome);
        Greeting(if components.Err? then Err(components.failure) else Ok(()), a.control, t.sent + c.sent, rest)
  }

  // ----- from octets to the payload

  /** The octets that carry one event: a greeting for a silent one, a data frame for a message. */
  function Carried(event: Inbound, serial: nat): bytes
    requires serial < U32 && (event.Got? ==> Fits(event.message))
  {
    if event.Silent? then ControlFrame(HELLO)
    else
      MessageRoundTrip(event.message, serial, [], TimedOut);
      PackMessage(event.message, serial).value
  }

  function Wire(events: seq<Inbound>, serials: seq<nat>): bytes
    requires |serials| == |events|
    requires forall i :: 0 <= i < |events| ==> serials[i] < U32 && (events[i].Got? ==> Fits(events[i].message))
  {
    if events == [] then [] else Carried(events[0], serials[0]) + Wire(events[1..], serials[1..])
  }

  function Arrivals(events: seq<Inbound>): (inbox: Inbox)
    ensures |inbox| == |events|
    ensures forall i :: 0 <= i < |events| ==> inbox[i] == Ok(events[i])
  {
    seq(|events|, i requires 0 <= i < |events| => Ok(events[i]))
  }

  lemma GreetingParses(rest: bytes, ending: Failure)
    ensures ParseMessage(ControlFrame(HELLO) + rest, ending) == Parse(Ok(Silent), rest)
  {
    hide Checksum;
    var f := Frame(1, 1, HELLO, 0, 0, 0, 0, 0, []);
    PackThenParse(f, rest, ending);
  }

  lemma CarriedParses(event: Inbound, serial: nat, rest: bytes, ending: Failure)
    requires serial < U32 && (event.Got? ==> Fits(event.message))
    ensures ParseMessage(Carried(event, serial) + rest, ending) == Parse(Ok(event), rest)
  {
    hide ParseMessage, PackMessage, Fits, ControlFrame;
    if event.Silent? {
      GreetingParses(rest, ending);
    } else {
      MessageRoundTrip(event.message, serial, rest, ending);
    }
  }

  lemma WireStep(events: seq<Inbound>, serials: seq<nat>, rest: bytes, ending: Failure)
    requires |serials| == |events| && events != []
    requires forall i :: 0 <= i < |events| ==> serials[i] < U32 && (events[i].Got? ==> Fits(events[i].message))
    ensures ParseMessage(Wire(events, serials) + rest, ending)
         == Parse(Ok(events[0]), Wire(events[1..], serials[1..]) + rest)
  {
    hide ParseMessage, Fits, Carried;
    var tail := Wire(events[1..], serials[1..]);
    assert Wire(events, serials) + rest == Carried(events[0], serials[0]) + (tail + rest);
    CarriedParses(events[0], serials[0], tail + rest, ending);
  }

  /** Octets that carry some events decode to those events. */
  lemma {:induction false} DecodeWire(events: seq<Inbound>, serials: seq<nat>, rest: bytes, ending: Failure)
    requires |serials| == |events|
    requires forall i :: 0 <= i < |events| ==> serials[i] < U32 && (events[i].Got? ==> Fits(events[i].message))
    ensures Decode(Wire(events, serials) + rest, ending, |events|) == Arrivals(events)
    decreases |events|
  {
    hide ParseMessage, Fits, Decode, Wire;
    DecodeStep(Wire(events, serials) + rest, ending, |events|);
    if events != [] {
      WireStep(events, serials, rest, ending);
      DecodeWire(events[1..], serials[1..], rest, ending);
      assert Arrivals(events) == [Ok(events[0])] + Arrivals(events[1..]);
    }
  }

  /** More patience never changes what was received before. */
  lemma {:induction false} DecodeGrows(s: bytes, ending: Failure, p: nat, q: nat)
    requires p <= q
    ensures Decode(s, ending, p) <= Decode(s, ending, q)
    decreases p
  {
    hide ParseMessage, Decode;
    DecodeStep(s, ending, p);
    DecodeStep(s, ending, q);
    if p > 0 {
      DecodeGrows(ParseMessage(s, ending).rest, ending, p - 1, q - 1);
    }
  }

  /** A run that has ended does not notice what arrives afterwards. */
  lemma {:induction false} RunEnded(q: Request, st: State, inbox: Inbox, k: nat)
    requires k <= |inbox| && !Run(q, st, inbox[..k]).outcome.Waiting?
    ensures Run(q, st, inbox) == Run(q, st, inbox[..k])
    decreases k
  {
    hide React;
    assert k > 0;
    assert inbox[..k][1..] == inbox[1..][..k - 1];
    if inbox[0] == Ok(Silent) {
      RunEnded(q, st, inbox[1..], k - 1);
    } else if inbox[0].Ok? && React(q, st, inbox[0].value.message).verdict.Continue? {
      RunEnded(q, React(q, st, inbox[0].value.message).verdict.next, inbox[1..], k - 1);
    }
  }

  /**
   End to end: when the octets to come carry traffic with every segment of a cut payload,
   and the deadline leaves time for it, the exchange returns that payload, whatever follows,
   unless one of its sends is refused.
   */
  lemma PayloadOverTheWire(q: Request, segs: seq<bytes>, events: seq<Inbound>, serials: seq<nat>,
                           rest: bytes, line: Line, patience: nat)
    requires |serials| == |events| <= patience
    requires forall i :: 0 <= i < |events| ==> serials[i] < U32 && (events[i].Got? ==> Fits(events[i].message))
    requires IsCut(segs) && Traffic(q, segs, Arrivals(events))
    requires forall i :: 0 <= i < |segs| ==> Arrived(q, segs, Arrivals(events), i)
    requires line.incoming == Wire(events, serials) + rest
    ensures Conclude(Exchanged(q, line, patience).0.outcome)
         == if Through(line, |Spoken(q, Arrivals(events))|) then Ok(Whole(segs, 0)) else Err(TransportLost)
  {
    hide Arrived, Delivers, Idle, Run, RunOn, Fits, Wire, Went, Exchanged, Decode, Checksum, Start, Opening, IsCut;
    var early, inbox := Arrivals(events), Decode(line.incoming, line.ending, patience);
    DecodeWire(events, serials, rest, line.ending);
    DecodeGrows(line.incoming, line.ending, |events|, patience);
    assert inbox[..|events|] == early;
    Reassembly(q, segs, early, |early|);
    assert early[..|early|] == early;
    RunEnded(q, Start(q), inbox, |events|);
    ExchangedIsRun(q, line, patience);
    assert Spoken(q, inbox) == Spoken(q, early);
  }
}
