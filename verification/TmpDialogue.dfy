/**
 What an exchange must say and how it must end, told by the messages that arrived alone:
 the request and the pull that starts the response, an acknowledgement for every pushed
 chunk, a pull whenever the chain has grown, and the outcome of the next event.
 */
module TmpDialogue {
  import opened Bytes
  import opened Crc32
  import opened TmpWire
  import opened TmpExchange
  import opened TmpDiscipline

  // ----- what arrived

  /**
   The event is a message of this exchange without an error; flags 2, 3 and 5 are a push, its
   acknowledgement and the answer to a pull.
   */
  predicate Own(q: Request, event: Result<Inbound>, flags: set<nat>) {
    && event.Ok? && event.value.Got?
    && event.value.message.opcode == q.opcode && event.value.message.transaction == q.transaction
    && event.value.message.error == 0 && event.value.message.flag in flags
  }

  /** The whole request is acknowledged. */
  predicate Confirms(q: Request, event: Result<Inbound>) {
    Own(q, event, {3}) && event.value.message.offset >= |q.payload|
  }

  ghost predicate Confirmed(q: Request, inbox: Inbox) {
    exists n :: 0 <= n < |inbox| && Confirms(q, inbox[n])
  }

  predicate Brings(q: Request, event: Result<Inbound>) {
    Own(q, event, {2, 5})
  }

  /** The chunks received. */
  function Table(q: Request, inbox: Inbox): Chunks {
    if inbox == [] then map[]
    else
      var before, last := Table(q, inbox[..|inbox| - 1]), inbox[|inbox| - 1];
      if Brings(q, last) then before[last.value.message.offset := last.value.message.chunk] else before
  }

  /** How far the chunks received reach from the start without a gap. */
  function Reached(q: Request, inbox: Inbox): nat {
    Chain(Table(q, inbox), 0)
  }

  // ----- what is to be said

  function Only(ms: seq<Message>, which: Message -> bool): seq<Message> {
    if ms == [] then [] else (if which(ms[0]) then [ms[0]] else []) + Only(ms[1..], which)
  }

  const REQUESTS := (m: Message) => m.flag == 2
  const ACKNOWLEDGEMENTS := (m: Message) => m.flag == 3
  const FIRST_PULLS := (m: Message) => m.flag == 4 && m.offset == 0
  const LATER_PULLS := (m: Message) => m.flag == 4 && m.offset != 0

  /** One acknowledgement for each pushed chunk, of what has been reached with it. */
  function Acknowledged(q: Request, inbox: Inbox): seq<Message> {
    if inbox == [] then []
    else
      Acknowledged(q, inbox[..|inbox| - 1])
      + if Own(q, inbox[|inbox| - 1], {2})
        then [Message(q.opcode, 3, 0, q.transaction, 0, 0, Reached(q, inbox), [])] else []
  }

  /** One pull each time a chunk carries the chain further, at its new end. */
  function Pulled(q: Request, inbox: Inbox): seq<Message> {
    if inbox == [] then []
    else
      var init := inbox[..|inbox| - 1];
      Pulled(q, init)
      + if Reached(q, inbox) != Reached(q, init)
        then [Message(q.opcode, 4, 0, q.transaction, 0, 0, Reached(q, inbox), [])] else []
  }

  // ----- one event at a time

  lemma {:induction false} OnlyConcat(a: seq<Message>, b: seq<Message>, which: Message -> bool)
    ensures Only(a + b, which) == Only(a, which) + Only(b, which)
  {
    if a == [] {
      assert a + b == b;
    } else {
      assert (a + b)[1..] == a[1..] + b;
      OnlyConcat(a[1..], b, which);
    }
  }

  function Concluded(v: Verdict): Outcome {
    match v
    case Fail(failure) => Failed(failure)
    case Done(response) => Returned(response)
    case Continue(next) => Waiting(next)
  }

  /** What one more event adds to a run. */
  lemma {:induction false} RunSnoc(q: Request, st: State, inbox: Inbox, e: Result<Inbound>)
    ensures var f, g := Run(q, st, inbox), Run(q, st, inbox + [e]);
            if !f.outcome.Waiting? then g == f
            else match e
                 case Err(failure) => g == Final(Failed(failure), f.sent)
                 case Ok(Silent) => g == f
                 case Ok(Got(m)) =>
                   var r := React(q, f.outcome.state, m);
                   g == Final(Concluded(r.verdict), f.sent + r.sent)
    decreases |inbox|
  {
    hide React;
    var all := inbox + [e];
    if inbox == [] {
      assert all == [e] && all[1..] == [];
    } else {
      assert all[0] == inbox[0] && all[1..] == inbox[1..] + [e];
      if inbox[0] == Ok(Silent) {
        RunSnoc(q, st, inbox[1..], e);
      } else if inbox[0].Ok? && React(q, st, inbox[0].value.message).verdict.Continue? {
        RunSnoc(q, React(q, st, inbox[0].value.message).verdict.next, inbox[1..], e);
      }
    }
  }

  /** What the first chunk declares. */
  function Promise(q: Request, inbox: Inbox): Declared {
    if inbox == [] then Undeclared
    else
      var before, last := Promise(q, inbox[..|inbox| - 1]), inbox[|inbox| - 1];
      if before.Undeclared? && Brings(q, last) then Declared(last.value.message.total, last.value.message.checksum)
      else before
  }

  /** The state of a run that has not ended, told by what arrived. */
  ghost predicate Tracks(q: Request, inbox: Inbox, st: State) {
    && Sound(st) && st.chunks == Table(q, inbox) && st.declared == Promise(q, inbox)
    && (st.pullSent <==> q.payload == [] || Confirmed(q, inbox))
  }

  lemma OnlyOne(m: Message, which: Message -> bool)
    ensures Only([m], which) == if which(m) then [m] else []
  {
    assert [m][1..] == [];
  }

  lemma ConfirmedSnoc(q: Request, inbox: Inbox, e: Result<Inbound>)
    ensures Confirmed(q, inbox + [e]) <==> Confirmed(q, inbox) || Confirms(q, e)
  {
    hide Confirms;
    var all := inbox + [e];
    assert all[|inbox|] == e;
    if Confirmed(q, inbox) {
      var n :| 0 <= n < |inbox| && Confirms(q, inbox[n]);
      assert all[n] == inbox[n];
    }
  }

  lemma Snoc(q: Request, inbox: Inbox, e: Result<Inbound>)
    ensures var all := inbox + [e];
            && all[..|all| - 1] == inbox && all[|all| - 1] == e
            && Table(q, all) == (if Brings(q, e) then Table(q, inbox)[e.value.message.offset := e.value.message.chunk]
                                 else Table(q, inbox))
            && Promise(q, all) == (if Promise(q, inbox).Undeclared? && Brings(q, e)
                                   then Declared(e.value.message.total, e.value.message.checksum)
                                   else Promise(q, inbox))
  {
    var all := inbox + [e];
    assert all[..|all| - 1] == inbox;
  }

  /** A message that the run goes on after leaves a state that tracks it. */
  lemma TracksOn(q: Request, inbox: Inbox, st: State, m: Message)
    requires Tracks(q, inbox, st) && React(q, st, m).verdict.Continue?
    ensures Tracks(q, inbox + [Ok(Got(m))], React(q, st, m).verdict.next)
  {
    hide React, Advance, Sound, Table, Promise, Confirmed;
    var e: Result<Inbound> := Ok(Got(m));
    Snoc(q, inbox, e);
    ConfirmedSnoc(q, inbox, e);
    ReactKeepsSound(q, st, m);
    ReactCases(q, st, m);
    if IsChunk(q, m) {
      AdvanceKeepsSound(q, st, m);
      DeclaredFirst(st, m);
    } else {
      PullStarts(q, st, m);
    }
  }

  lemma DeclaredFirst(st: State, m: Message)
    requires Admitted(st, m)
    ensures st.declared.Declared? ==> st.declared == Declared(m.total, m.checksum)
  {}

  /** Other messages start the pull exactly when they confirm the request for the first time. */
  lemma PullStarts(q: Request, st: State, m: Message)
    requires !IsChunk(q, m) && React(q, st, m).verdict.Continue?
    ensures React(q, st, m)
         == if Confirms(q, Ok(Got(m))) && !st.pullSent
            then Reaction(Continue(st.(pullSent := true)), [Message(q.opcode, 4, 0, q.transaction, 0, 0, 0, [])])
            else Reaction(Continue(st), [])
  {
    hide Admit;
  }

  /** What a chunk is answered with, as far as it is not refused. */
  lemma ChunkAnswered(q: Request, inbox: Inbox, st: State, m: Message)
    requires Tracks(q, inbox, st) && Brings(q, Ok(Got(m))) && Admitted(st, m)
    ensures var e := Ok(Got(m));
            var all := inbox + [e];
            var r := React(q, st, m);
            var ack := Message(q.opcode, 3, 0, q.transaction, 0, 0, Reached(q, all), []);
            var pull := Message(q.opcode, 4, 0, q.transaction, 0, 0, Reached(q, all), []);
            r.sent == (if Own(q, e, {2}) then [ack] else [])
                      + (if r.verdict.Continue? && Reached(q, all) != Reached(q, inbox) then [pull] else [])
    ensures Reached(q, inbox + [Ok(Got(m))]) >= Reached(q, inbox)
  {
    hide Chain, SortedJoin, Checksum, Table, Promise;
    Snoc(q, inbox, Ok(Got(m)));
    AdvanceBounds(st, m);
  }

  // ----- whole runs

  function StartPull(q: Request): Message {
    Message(q.opcode, 4, 0, q.transaction, 0, 0, 0, [])
  }

  /** The messages after the opening, sorted by kind: of each kind exactly those that are called for. */
  ghost predicate Says(q: Request, inbox: Inbox, sent: seq<Message>) {
    && Only(sent, REQUESTS) == []
    && Only(sent, ACKNOWLEDGEMENTS) == Acknowledged(q, inbox)
    && Only(sent, LATER_PULLS) == Pulled(q, inbox)
    && Only(sent, FIRST_PULLS) == (if q.payload != [] && Confirmed(q, inbox) then [StartPull(q)] else [])
  }

  lemma AllConcat(a: seq<Message>, b: seq<Message>)
    ensures Only(a + b, REQUESTS) == Only(a, REQUESTS) + Only(b, REQUESTS)
    ensures Only(a + b, ACKNOWLEDGEMENTS) == Only(a, ACKNOWLEDGEMENTS) + Only(b, ACKNOWLEDGEMENTS)
    ensures Only(a + b, LATER_PULLS) == Only(a, LATER_PULLS) + Only(b, LATER_PULLS)
    ensures Only(a + b, FIRST_PULLS) == Only(a, FIRST_PULLS) + Only(b, FIRST_PULLS)
  {
    OnlyConcat(a, b, REQUESTS);
    OnlyConcat(a, b, ACKNOWLEDGEMENTS);
    OnlyConcat(a, b, LATER_PULLS);
    OnlyConcat(a, b, FIRST_PULLS);
  }

  lemma AckKinds(ack: seq<Message>)
    requires ack != [] ==> |ack| == 1 && ack[0].flag == 3
    ensures Only(ack, REQUESTS) == [] && Only(ack, FIRST_PULLS) == [] && Only(ack, LATER_PULLS) == []
    ensures Only(ack, ACKNOWLEDGEMENTS) == ack
  {
    if ack != [] {
      KindOfOne(ack[0]);
      assert ack == [ack[0]];
    }
  }

  lemma PullKinds(pull: seq<Message>)
    requires pull != [] ==> |pull| == 1 && pull[0].flag == 4 && pull[0].offset != 0
    ensures Only(pull, REQUESTS) == [] && Only(pull, FIRST_PULLS) == [] && Only(pull, ACKNOWLEDGEMENTS) == []
    ensures Only(pull, LATER_PULLS) == pull
  {
    if pull != [] {
      KindOfOne(pull[0]);
      assert pull == [pull[0]];
    }
  }

  /** The kinds in what a chunk is answered with. */
  lemma AnswerKinds(ack: seq<Message>, pull: seq<Message>)
    requires ack != [] ==> |ack| == 1 && ack[0].flag == 3
    requires pull != [] ==> |pull| == 1 && pull[0].flag == 4 && pull[0].offset != 0
    ensures Only(ack + pull, REQUESTS) == [] && Only(ack + pull, FIRST_PULLS) == []
    ensures Only(ack + pull, ACKNOWLEDGEMENTS) == ack && Only(ack + pull, LATER_PULLS) == pull
  {
    hide Only;
    AllConcat(ack, pull);
    AckKinds(ack);
    PullKinds(pull);
    assert ack + [] == ack && [] + pull == pull;
  }

  lemma KindOfOne(m: Message)
    ensures Only([m], REQUESTS) == if m.flag == 2 then [m] else []
    ensures Only([m], ACKNOWLEDGEMENTS) == if m.flag == 3 then [m] else []
    ensures Only([m], FIRST_PULLS) == if m.flag == 4 && m.offset == 0 then [m] else []
    ensures Only([m], LATER_PULLS) == if m.flag == 4 && m.offset != 0 then [m] else []
  {
    OnlyOne(m, REQUESTS);
    OnlyOne(m, ACKNOWLEDGEMENTS);
    OnlyOne(m, FIRST_PULLS);
    OnlyOne(m, LATER_PULLS);
  }

  lemma CalledForSnoc(q: Request, inbox: Inbox, e: Result<Inbound>)
    ensures var all := inbox + [e];
            && Acknowledged(q, all) == Acknowledged(q, inbox)
               + (if Own(q, e, {2}) then [Message(q.opcode, 3, 0, q.transaction, 0, 0, Reached(q, all), [])] else [])
            && Pulled(q, all) == Pulled(q, inbox)
               + (if Reached(q, all) != Reached(q, inbox)
                  then [Message(q.opcode, 4, 0, q.transaction, 0, 0, Reached(q, all), [])] else [])
            && (!Brings(q, e) ==> Reached(q, all) == Reached(q, inbox))
  {
    var all := inbox + [e];
    assert all[..|all| - 1] == inbox;
  }

  lemma SaysNothingNew(q: Request, inbox: Inbox, e: Result<Inbound>, sent: seq<Message>)
    requires Says(q, inbox, sent) && !Brings(q, e) && !Confirms(q, e)
    ensures Says(q, inbox + [e], sent)
  {
    CalledForSnoc(q, inbox, e);
    ConfirmedSnoc(q, inbox, e);
  }

  lemma SaysOnChunk(q: Request, inbox: Inbox, st: State, m: Message, sent: seq<Message>)
    requires Tracks(q, inbox, st) && Says(q, inbox, sent) && Brings(q, Ok(Got(m))) && Admitted(st, m)
    requires React(q, st, m).verdict.Continue?
    ensures Says(q, inbox + [Ok(Got(m))], sent + React(q, st, m).sent)
  {
    hide React, Tracks, Table, Chain, Confirmed, Acknowledged, Pulled;
    var e: Result<Inbound> := Ok(Got(m));
    var all, r := inbox + [e], React(q, st, m);
    ChunkAnswered(q, inbox, st, m);
    CalledForSnoc(q, inbox, e);
    ConfirmedSnoc(q, inbox, e);
    var ack := if Own(q, e, {2}) then [Message(q.opcode, 3, 0, q.transaction, 0, 0, Reached(q, all), [])] else [];
    var pull := if Reached(q, all) != Reached(q, inbox)
                then [Message(q.opcode, 4, 0, q.transaction, 0, 0, Reached(q, all), [])] else [];
    AnswerKinds(ack, pull);
    AllConcat(sent, ack + pull);
  }

  lemma SaysOnOther(q: Request, inbox: Inbox, st: State, m: Message, sent: seq<Message>)
    requires Tracks(q, inbox, st) && Says(q, inbox, sent) && !Brings(q, Ok(Got(m)))
    requires React(q, st, m).verdict.Continue?
    ensures Says(q, inbox + [Ok(Got(m))], sent + React(q, st, m).sent)
  {
    hide React, Table, Chain, Promise, Acknowledged, Pulled, Confirmed, Sound;
    var e: Result<Inbound> := Ok(Got(m));
    PullStarts(q, st, m);
    CalledForSnoc(q, inbox, e);
    ConfirmedSnoc(q, inbox, e);
    var r := React(q, st, m);
    AllConcat(sent, r.sent);
    KindOfOne(StartPull(q));
    assert sent + [] == sent;
  }

  /** As long as an exchange has not ended, it has said what is called for, and no more. */
  lemma {:induction false} RunSays(q: Request, inbox: Inbox)
    requires Run(q, Start(q), inbox).outcome.Waiting?
    ensures Tracks(q, inbox, Run(q, Start(q), inbox).outcome.state)
    ensures Says(q, inbox, Run(q, Start(q), inbox).sent)
    decreases |inbox|
  {
    hide Run, React, Tracks, Says, Brings, Confirms;
    if inbox == [] {
      NothingSaid(q);
    } else {
      var init, e := inbox[..|inbox| - 1], inbox[|inbox| - 1];
      assert inbox == init + [e];
      RunSnoc(q, Start(q), init, e);
      RunSays(q, init);
      var f := Run(q, Start(q), init);
      if e == Ok(Silent) {
        SilentTracks(q, init, f.outcome.state);
        SilentIsNothing(q);
        SaysNothingNew(q, init, e, f.sent);
      } else {
        var m := e.value.message;
        TracksOn(q, init, f.outcome.state, m);
        if Brings(q, e) {
          GoesOnAdmitted(q, f.outcome.state, m);
          SaysOnChunk(q, init, f.outcome.state, m, f.sent);
        } else {
          SaysOnOther(q, init, f.outcome.state, m, f.sent);
        }
      }
    }
  }

  lemma NothingSaid(q: Request)
    ensures Run(q, Start(q), []) == Final(Waiting(Start(q)), [])
    ensures Tracks(q, [], Start(q)) && Says(q, [], [])
  {}

  lemma SilentIsNothing(q: Request)
    ensures !Brings(q, Ok(Silent)) && !Confirms(q, Ok(Silent))
  {}

  lemma SilentTracks(q: Request, inbox: Inbox, st: State)
    requires Tracks(q, inbox, st)
    ensures Tracks(q, inbox + [Ok(Silent)], st)
  {
    hide Sound;
    Snoc(q, inbox, Ok(Silent));
    ConfirmedSnoc(q, inbox, Ok(Silent));
  }

  lemma GoesOnAdmitted(q: Request, st: State, m: Message)
    requires Brings(q, Ok(Got(m))) && !React(q, st, m).verdict.Fail?
    ensures Admitted(st, m)
  {
    hide Advance;
  }

  // ----- what an exchange must say

  /**
   As long as an exchange has not ended: it has sent its request, whole and once; the pull
   that starts the response exactly if the request is empty or was acknowledged to its end;
   one acknowledgement for each pushed chunk; one pull each time the chain grew.
   */
  lemma Dialogue(q: Request, inbox: Inbox)
    requires Run(q, Start(q), inbox).outcome.Waiting?
    ensures var said := Spoken(q, inbox);
            && Only(said, REQUESTS)
               == [Message(q.opcode, 2, 0, q.transaction, Checksum(q.payload), |q.payload|, 0, q.payload)]
            && Only(said, REQUESTS) <= said
            && Only(said, FIRST_PULLS) == (if q.payload == [] || Confirmed(q, inbox) then [StartPull(q)] else [])
            && Only(said, ACKNOWLEDGEMENTS) == Acknowledged(q, inbox)
            && Only(said, LATER_PULLS) == Pulled(q, inbox)
  {
    hide Run, Start, Tracks, Confirmed, Acknowledged, Pulled, Only, Checksum;
    RunSays(q, inbox);
    SaidWithOpening(q, inbox, Run(q, Start(q), inbox).sent);
  }

  lemma SaidWithOpening(q: Request, inbox: Inbox, sent: seq<Message>)
    requires Says(q, inbox, sent)
    ensures var said := Opening(q) + sent;
            && Only(said, REQUESTS)
               == [Message(q.opcode, 2, 0, q.transaction, Checksum(q.payload), |q.payload|, 0, q.payload)]
            && Only(said, REQUESTS) <= said
            && Only(said, FIRST_PULLS) == (if q.payload == [] || Confirmed(q, inbox) then [StartPull(q)] else [])
            && Only(said, ACKNOWLEDGEMENTS) == Acknowledged(q, inbox)
            && Only(said, LATER_PULLS) == Pulled(q, inbox)
  {
    hide Confirmed, Acknowledged, Pulled, Only, Checksum;
    AllConcat(Opening(q), sent);
    OpeningKinds(q);
    assert Only(sent, REQUESTS) == [];
  }

  lemma OpeningKinds(q: Request)
    ensures Only(Opening(q), REQUESTS)
         == [Message(q.opcode, 2, 0, q.transaction, Checksum(q.payload), |q.payload|, 0, q.payload)]
    ensures Only(Opening(q), FIRST_PULLS) == if q.payload == [] then [StartPull(q)] else []
    ensures Only(Opening(q), ACKNOWLEDGEMENTS) == [] && Only(Opening(q), LATER_PULLS) == []
    ensures Opening(q) != [] && Only(Opening(q), REQUESTS) == [Opening(q)[0]]
  {
    hide Checksum, Only;
    KindOfOne(PushMessage(q));
    KindOfOne(StartPull(q));
    AllConcat([PushMessage(q)], if q.payload == [] then [StartPull(q)] else []);
    NoKinds();
  }

  lemma NoKinds()
    ensures Only([], REQUESTS) == [] && Only([], FIRST_PULLS) == []
    ensures Only([], ACKNOWLEDGEMENTS) == [] && Only([], LATER_PULLS) == []
  {}

  /** Once something is reached, the last of the later pulls asks for what comes next. */
  lemma {:induction false} LastPull(q: Request, inbox: Inbox)
    ensures Reached(q, inbox) > 0 ==>
              Pulled(q, inbox) != [] && Pulled(q, inbox)[|Pulled(q, inbox)| - 1].offset == Reached(q, inbox)
    decreases |inbox|
  {
    hide Chain, Brings;
    if inbox == [] {
      NothingReached(q);
    } else {
      LastPull(q, inbox[..|inbox| - 1]);
    }
  }

  lemma NothingReached(q: Request)
    ensures Reached(q, []) == 0
  {}

  /** The message that completes the response, rightly or not, is acknowledged if it was pushed; that is all. */
  lemma LastWord(q: Request, inbox: Inbox, m: Message)
    requires var f := Run(q, Start(q), inbox + [Ok(Got(m))]).outcome;
             Run(q, Start(q), inbox).outcome.Waiting? && (f.Returned? || f == Failed(ResponseMismatch))
    ensures Spoken(q, inbox + [Ok(Got(m))])
         == Spoken(q, inbox)
            + if Own(q, Ok(Got(m)), {2})
              then [Message(q.opcode, 3, 0, q.transaction, 0, 0, Reached(q, inbox + [Ok(Got(m))]), [])] else []
  {
    hide Run, Start, Opening, Tracks, React, Says, Table, Chain;
    var e: Result<Inbound> := Ok(Got(m));
    var f := Run(q, Start(q), inbox);
    RunSays(q, inbox);
    RunSnoc(q, Start(q), inbox, e);
    CompletesAdmitted(q, f.outcome.state, m);
    ChunkAnswered(q, inbox, f.outcome.state, m);
    assert Opening(q) + (f.sent + React(q, f.outcome.state, m).sent)
        == (Opening(q) + f.sent) + React(q, f.outcome.state, m).sent;
  }

  lemma CompletesAdmitted(q: Request, st: State, m: Message)
    requires var v := React(q, st, m).verdict; v.Done? || v == Fail(ResponseMismatch)
    ensures Brings(q, Ok(Got(m))) && Admitted(st, m)
  {
    hide Advance;
  }

  // ----- how it must end

  /** A chunk under another total or checksum came before. */
  ghost predicate Differs(q: Request, inbox: Inbox, m: Message) {
    exists n :: 0 <= n < |inbox| && Brings(q, inbox[n])
      && (inbox[n].value.message.total, inbox[n].value.message.checksum) != (m.total, m.checksum)
  }

  /** Another chunk for the same place came before. */
  ghost predicate Conflicts(q: Request, inbox: Inbox, m: Message) {
    exists n :: 0 <= n < |inbox| && Brings(q, inbox[n])
      && inbox[n].value.message.offset == m.offset && inbox[n].value.message.chunk != m.chunk
  }

  /** In a run that has not ended every chunk agrees with the promise and is in the table. */
  lemma {:induction false} ChunksKept(q: Request, inbox: Inbox, n: nat)
    requires Run(q, Start(q), inbox).outcome.Waiting? && n < |inbox| && Brings(q, inbox[n])
    ensures var m := inbox[n].value.message;
            && Promise(q, inbox) == Declared(m.total, m.checksum)
            && m.offset in Table(q, inbox) && Table(q, inbox)[m.offset] == m.chunk
    decreases |inbox|
  {
    hide Run, React, Tracks, Says, Brings, Start, Chain, Table, Promise;
    var init, e := inbox[..|inbox| - 1], inbox[|inbox| - 1];
    assert inbox == init + [e];
    RunSnoc(q, Start(q), init, e);
    Snoc(q, init, e);
    RunSays(q, init);
    SilentIsNothing(q);
    if Brings(q, e) {
      ChunkKeeps(q, init, Run(q, Start(q), init).outcome.state, e.value.message);
    }
    if n < |init| {
      assert inbox[n] == init[n];
      ChunksKept(q, init, n);
    }
  }

  lemma ChunkKeeps(q: Request, inbox: Inbox, st: State, m: Message)
    requires Tracks(q, inbox, st) && React(q, st, m).verdict.Continue? && Brings(q, Ok(Got(m)))
    ensures Promise(q, inbox).Declared? ==> Promise(q, inbox) == Declared(m.total, m.checksum)
    ensures m.offset in Table(q, inbox) ==> Table(q, inbox)[m.offset] == m.chunk
  {
    hide Advance, Sound, Table, Promise, Confirmed;
    GoesOnAdmitted(q, st, m);
  }

  lemma {:induction false} PromiseFrom(q: Request, inbox: Inbox) returns (n: nat)
    requires Promise(q, inbox).Declared?
    ensures n < |inbox| && Brings(q, inbox[n])
    ensures Promise(q, inbox) == Declared(inbox[n].value.message.total, inbox[n].value.message.checksum)
    decreases |inbox|
  {
    hide Brings;
    var init := inbox[..|inbox| - 1];
    if Promise(q, init).Declared? {
      n := PromiseFrom(q, init);
      assert init[n] == inbox[n];
    } else {
      n := |inbox| - 1;
    }
  }

  lemma {:induction false} TableFrom(q: Request, inbox: Inbox, k: nat) returns (n: nat)
    requires k in Table(q, inbox)
    ensures n < |inbox| && Brings(q, inbox[n])
    ensures inbox[n].value.message.offset == k && inbox[n].value.message.chunk == Table(q, inbox)[k]
    decreases |inbox|
  {
    hide Brings;
    var init, e := inbox[..|inbox| - 1], inbox[|inbox| - 1];
    if Brings(q, e) && BringsGot(q, e).offset == k {
      n := |inbox| - 1;
    } else {
      n := TableFrom(q, init, k);
      assert init[n] == inbox[n];
    }
  }

  function BringsGot(q: Request, e: Result<Inbound>): Message
    requires Brings(q, e)
  {
    e.value.message
  }

  /** In a run that has not ended, what earlier chunks say against a new one can be seen from promise and table. */
  lemma Objections(q: Request, inbox: Inbox, m: Message)
    requires Run(q, Start(q), inbox).outcome.Waiting?
    ensures Differs(q, inbox, m)
       <==> Promise(q, inbox).Declared? && Promise(q, inbox) != Declared(m.total, m.checksum)
    ensures Conflicts(q, inbox, m) <==> m.offset in Table(q, inbox) && Table(q, inbox)[m.offset] != m.chunk
  {
    hide Run, Start, Table, Promise;
    if Differs(q, inbox, m) {
      var n :| 0 <= n < |inbox| && Brings(q, inbox[n])
               && (inbox[n].value.message.total, inbox[n].value.message.checksum) != (m.total, m.checksum);
      ChunksKept(q, inbox, n);
    }
    if Conflicts(q, inbox, m) {
      var n :| 0 <= n < |inbox| && Brings(q, inbox[n])
               && inbox[n].value.message.offset == m.offset && inbox[n].value.message.chunk != m.chunk;
      ChunksKept(q, inbox, n);
    }
    if Promise(q, inbox).Declared? && Promise(q, inbox) != Declared(m.total, m.checksum) {
      var n := PromiseFrom(q, inbox);
      assert Differs(q, inbox, m);
    }
    if m.offset in Table(q, inbox) && Table(q, inbox)[m.offset] != m.chunk {
      var n := TableFrom(q, inbox, m.offset);
      assert Conflicts(q, inbox, m);
    }
  }

  /** The chunks received, in order of their offsets, up to a length that they have. */
  function Assembled(chunks: Chunks, total: nat): bytes
    requires total <= |SortedJoin(chunks)|
  {
    SortedJoin(chunks)[..total]
  }

  /** How an exchange that has not ended, after `inbox`, goes on with the message `m`. */
  ghost predicate Follows(q: Request, inbox: Inbox, m: Message, o: Outcome) {
    var all := inbox + [Ok(Got(m))];
    if m.opcode != q.opcode || m.transaction != q.transaction then o.Waiting?
    else if m.error != 0 then o == Failed(AppError(m.error))
    else if m.flag != 2 && m.flag != 5 then o.Waiting?
    else if m.total > 16 * 1024 * 1024 then o == Failed(OversizedResponse)
    else if Differs(q, inbox, m) then o == Failed(MetadataChanged)
    else if m.offset + |m.chunk| > m.total then o == Failed(ChunkTooLong)
    else if Conflicts(q, inbox, m) then o == Failed(ConflictingChunk)
    else if Reached(q, all) < m.total then o.Waiting?
    else
      && m.total <= |SortedJoin(Table(q, all))|
      && o == if Checksum(Assembled(Table(q, all), m.total)) == m.checksum
              then Returned(Assembled(Table(q, all), m.total)) else Failed(ResponseMismatch)
  }

  /** What the next event makes of an exchange that has not ended. */
  lemma NextOutcome(q: Request, inbox: Inbox, e: Result<Inbound>)
    requires Run(q, Start(q), inbox).outcome.Waiting?
    ensures var o := Run(q, Start(q), inbox + [e]).outcome;
            if e.Err? then o == Failed(e.failure)
            else if e.value.Silent? then o.Waiting?
            else Follows(q, inbox, e.value.message, o)
  {
    hide Run, Start, React, Table, Promise, Tracks, Says, Brings, Differs, Conflicts, Chain, SortedJoin, Checksum;
    RunSnoc(q, Start(q), inbox, e);
    if e.Ok? && e.value.Got? {
      RunSays(q, inbox);
      Objections(q, inbox, e.value.message);
      NextReaction(q, inbox, Run(q, Start(q), inbox).outcome.state, e.value.message);
    }
  }

  lemma NextReaction(q: Request, inbox: Inbox, st: State, m: Message)
    requires Tracks(q, inbox, st)
    ensures var v := React(q, st, m).verdict;
            var all := inbox + [Ok(Got(m))];
            if m.opcode != q.opcode || m.transaction != q.transaction then v.Continue?
            else if m.error != 0 then v == Fail(AppError(m.error))
            else if m.flag != 2 && m.flag != 5 then v.Continue?
            else if m.total > 16 * 1024 * 1024 then v == Fail(OversizedResponse)
            else if Promise(q, inbox).Declared? && Promise(q, inbox) != Declared(m.total, m.checksum)
            then v == Fail(MetadataChanged)
            else if m.offset + |m.chunk| > m.total then v == Fail(ChunkTooLong)
            else if m.offset in Table(q, inbox) && Table(q, inbox)[m.offset] != m.chunk then v == Fail(ConflictingChunk)
            else if Reached(q, all) < m.total then v.Continue?
            else
              && m.total <= |SortedJoin(Table(q, all))|
              && v == if Checksum(Assembled(Table(q, all), m.total)) == m.checksum
                      then Done(Assembled(Table(q, all), m.total)) else Fail(ResponseMismatch)
  {
    hide Table, Promise, Chain, SortedJoin, Checksum, Confirmed;
    var all := inbox + [Ok(Got(m))];
    Snoc(q, inbox, Ok(Got(m)));
    if Brings(q, Ok(Got(m))) && Admitted(st, m) {
      AdvanceBounds(st, m);
      var joined := SortedJoin(Table(q, all));
      assert |joined| == m.total ==> joined[..m.total] == joined;
      assert m.total == 0 ==> joined[..0] == [];
    }
  }
}
