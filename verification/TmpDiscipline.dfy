/**
 What holds of an exchange against any peer whatever: bounds on what is returned and sent,
 the order of acknowledgements and pulls, and indifference to traffic of other exchanges.
 */
module TmpDiscipline {
  import opened Bytes
  import opened Crc32
  import opened TmpWire
  import opened TmpExchange

  // ----- the chunk table

  ghost predicate Within(chunks: Chunks, total: nat) {
    forall k :: k in chunks ==> k + |chunks[k]| <= total
  }

  lemma {:induction false} ChainWithin(chunks: Chunks, offset: nat, total: nat)
    requires Within(chunks, total)
    ensures Chain(chunks, offset) <= if offset < total then total else offset
    decreases Ahead(chunks, offset)
  {
    if offset in chunks && chunks[offset] != [] {
      AheadShrinks(chunks, offset, offset + |chunks[offset]|);
      ChainWithin(chunks, offset + |chunks[offset]|, total);
    }
  }

  /** Adding a chunk that conflicts with nothing never shortens the chain. */
  lemma {:induction false} ChainGrows(chunks: Chunks, k: nat, chunk: bytes, offset: nat)
    requires k in chunks ==> chunks[k] == chunk
    ensures Chain(chunks, offset) <= Chain(chunks[k := chunk], offset)
    decreases Ahead(chunks, offset)
  {
    if offset in chunks && chunks[offset] != [] {
      AheadShrinks(chunks, offset, offset + |chunks[offset]|);
      ChainGrows(chunks, k, chunk, offset + |chunks[offset]|);
    }
  }

  /** The octet at position `p` is in some chunk. */
  ghost predicate Holds(chunks: Chunks, p: nat) {
    exists k :: k in chunks && k <= p < k + |chunks[k]|
  }

  lemma {:induction false} ChainIsHeld(chunks: Chunks, offset: nat, p: nat)
    requires offset <= p < Chain(chunks, offset)
    ensures Holds(chunks, p)
    decreases Ahead(chunks, offset)
  {
    var next := offset + |chunks[offset]|;
    if next <= p {
      AheadShrinks(chunks, offset, next);
      ChainIsHeld(chunks, next, p);
    }
  }

  /** The joined length is the sum of the chunk lengths, so any chunk can be taken out of it. */
  lemma {:induction false} JoinLength(chunks: Chunks, k: nat)
    requires k in chunks
    ensures |SortedJoin(chunks)| == |chunks[k]| + |SortedJoin(chunks - {k})|
    decreases |chunks|
  {
    var l := Least(chunks.Keys);
    if k != l {
      var c, d := chunks - {l}, chunks - {k};
      assert l in d;
      JoinLength(c, k);
      JoinLength(d, l);
      assert c - {k} == d - {l};
    }
  }

  lemma {:induction false} ChainIgnores(chunks: Chunks, k: nat, offset: nat)
    requires k < offset
    ensures Chain(chunks - {k}, offset) == Chain(chunks, offset)
    decreases Ahead(chunks, offset)
  {
    if offset in chunks && chunks[offset] != [] {
      AheadShrinks(chunks, offset, offset + |chunks[offset]|);
      ChainIgnores(chunks, k, offset + |chunks[offset]|);
    }
  }

  /** The joined chunks are at least as long as the chain. */
  lemma {:induction false} JoinCoversChain(chunks: Chunks, offset: nat)
    ensures Chain(chunks, offset) - offset <= |SortedJoin(chunks)|
    decreases |chunks|
  {
    if offset in chunks && chunks[offset] != [] {
      var next := offset + |chunks[offset]|;
      JoinLength(chunks, offset);
      ChainIgnores(chunks, offset, next);
      JoinCoversChain(chunks - {offset}, next);
    }
  }

  // ----- the invariant of a run

  ghost predicate Sound(st: State) {
    && (st.declared == Undeclared ==> st.chunks == map[])
    && (st.declared.Declared? ==>
          st.declared.total <= MAX_RESPONSE_SIZE && Within(st.chunks, st.declared.total)
          && Chain(st.chunks, 0) < st.declared.total)
    && st.requested == Chain(st.chunks, 0)
  }

  lemma StartIsSound(q: Request)
    ensures Sound(Start(q))
  {}

  /** A response chunk of this exchange. */
  predicate IsChunk(q: Request, m: Message) {
    Addressed(q, m) && m.error == 0 && (m.flag == PUSH || m.flag == PULL_ACK)
  }

  predicate Admitted(st: State, m: Message) {
    && m.total <= MAX_RESPONSE_SIZE
    && (st.declared.Declared? ==> st.declared == Declared(m.total, m.checksum))
    && m.offset + |m.chunk| <= m.total
    && (m.offset in st.chunks ==> st.chunks[m.offset] == m.chunk)
  }

  /** A message is either refused outright, or is an admitted chunk, or sends at most the pull at the start. */
  lemma ReactCases(q: Request, st: State, m: Message)
    requires !React(q, st, m).verdict.Fail? || React(q, st, m).sent != []
    ensures IsChunk(q, m) ==> Admitted(st, m) && React(q, st, m) == Advance(q, st, m)
    ensures !IsChunk(q, m) ==>
              var r := React(q, st, m);
              || r == Reaction(Continue(st), [])
              || (!st.pullSent && r == Reaction(Continue(st.(pullSent := true)), [PullMessage(q, 0)]))
  {
    hide Advance;
  }

  /** What admitting a chunk does to the chunk table. */
  lemma AdvanceBounds(st: State, m: Message)
    requires Sound(st) && Admitted(st, m)
    ensures var chunks := st.chunks[m.offset := m.chunk];
            && Within(chunks, m.total)
            && Chain(st.chunks, 0) <= Chain(chunks, 0) <= m.total
            && Chain(chunks, 0) <= |SortedJoin(chunks)|
  {
    var chunks := st.chunks[m.offset := m.chunk];
    ChainGrows(st.chunks, m.offset, m.chunk, 0);
    ChainWithin(chunks, 0, m.total);
    JoinCoversChain(chunks, 0);
  }

  lemma AdvanceKeepsSound(q: Request, st: State, m: Message)
    requires Sound(st) && Admitted(st, m) && Advance(q, st, m).verdict.Continue?
    ensures Sound(Advance(q, st, m).verdict.next)
    ensures Advance(q, st, m).verdict.next.declared == Declared(m.total, m.checksum)
    ensures Advance(q, st, m).verdict.next.chunks == st.chunks[m.offset := m.chunk]
    ensures Advance(q, st, m).verdict.next.pullSent == st.pullSent
  {
    hide Chain, SortedJoin, Checksum;
    AdvanceBounds(st, m);
  }

  lemma ReactKeepsSound(q: Request, st: State, m: Message)
    requires Sound(st) && React(q, st, m).verdict.Continue?
    ensures Sound(React(q, st, m).verdict.next)
  {
    hide React, Advance, Chain;
    ReactCases(q, st, m);
    if IsChunk(q, m) {
      AdvanceKeepsSound(q, st, m);
    }
  }

  // ----- what is returned

  /** What the first response chunk of a run declares. */
  function FirstDeclared(q: Request, st: State, inbox: Inbox): Declared {
    if st.declared.Declared? then st.declared
    else if inbox == [] then Undeclared
    else if inbox[0].Ok? && inbox[0].value.Got? && IsChunk(q, inbox[0].value.message) then
      Declared(inbox[0].value.message.total, inbox[0].value.message.checksum)
    else FirstDeclared(q, st, inbox[1..])
  }

  lemma SettledResponse(q: Request, st: State, m: Message)
    requires Sound(st) && Admitted(st, m) && Advance(q, st, m).verdict.Done?
    ensures var r := Advance(q, st, m).verdict.response;
            |r| == m.total && Checksum(r) == m.checksum
  {
    hide Chain, SortedJoin, Checksum;
    AdvanceBounds(st, m);
  }

  /** Continuing never changes what the first chunk declared. */
  lemma DeclaredStays(q: Request, st: State, inbox: Inbox)
    requires Sound(st) && inbox != [] && inbox[0].Ok? && inbox[0].value.Got?
    requires React(q, st, inbox[0].value.message).verdict.Continue?
    ensures var next := React(q, st, inbox[0].value.message).verdict.next;
            FirstDeclared(q, st, inbox) == FirstDeclared(q, next, inbox[1..])
  {
    hide React, Advance;
    var m := inbox[0].value.message;
    ReactCases(q, st, m);
    if IsChunk(q, m) {
      AdvanceKeepsSound(q, st, m);
    }
    if st.declared.Declared? {
      assert FirstDeclared(q, st, inbox) == st.declared;
    } else {
      PullSentIrrelevant(q, st, inbox[1..]);
    }
  }

  lemma {:induction false} PullSentIrrelevant(q: Request, st: State, inbox: Inbox)
    ensures FirstDeclared(q, st.(pullSent := true), inbox) == FirstDeclared(q, st, inbox)
    decreases |inbox|
  {
    if inbox != [] {
      PullSentIrrelevant(q, st, inbox[1..]);
    }
  }

  lemma {:induction false} ReturnedFrom(q: Request, st: State, inbox: Inbox)
    requires Sound(st) && Run(q, st, inbox).outcome.Returned?
    ensures var r := Run(q, st, inbox).outcome.response;
            FirstDeclared(q, st, inbox) == Declared(|r|, Checksum(r)) && |r| <= MAX_RESPONSE_SIZE
    decreases |inbox|
  {
    hide React, Advance, Checksum, Sound;
    if inbox[0] == Ok(Silent) {
      ReturnedFrom(q, st, inbox[1..]);
    } else {
      var m := inbox[0].value.message;
      var v := React(q, st, m).verdict;
      ReactCases(q, st, m);
      if v.Continue? {
        ReactKeepsSound(q, st, m);
        DeclaredStays(q, st, inbox);
        ReturnedFrom(q, v.next, inbox[1..]);
      } else {
        SettledResponse(q, st, m);
      }
    }
  }

  /** Whatever arrives, a returned response is as long as, and has the checksum that, the first chunk declared. */
  lemma ReturnedIsDeclared(q: Request, inbox: Inbox)
    requires Run(q, Start(q), inbox).outcome.Returned?
    ensures var r := Run(q, Start(q), inbox).outcome.response;
            FirstDeclared(q, Start(q), inbox) == Declared(|r|, Checksum(r)) && |r| <= MAX_RESPONSE_SIZE
  {
    hide Run, FirstDeclared, Checksum;
    StartIsSound(q);
    ReturnedFrom(q, Start(q), inbox);
  }

  // ----- what is sent

  predicate Encodable(q: Request) {
    q.opcode < U16 && q.transaction < U16 && |q.payload| <= MAX_REQUEST_SIZE
  }

  /** Every message a run sends has fields that fit their places in the headers. */
  lemma {:induction false} SentFits(q: Request, st: State, inbox: Inbox)
    requires Sound(st) && Encodable(q)
    ensures forall i :: 0 <= i < |Run(q, st, inbox).sent| ==> Fits(Run(q, st, inbox).sent[i])
    decreases |inbox|
  {
    hide React, Sound;
    if inbox != [] && inbox[0].Ok? {
      if inbox[0].value.Silent? {
        SentFits(q, st, inbox[1..]);
      } else {
        var m := inbox[0].value.message;
        ReactFits(q, st, m);
        if React(q, st, m).verdict.Continue? {
          ReactKeepsSound(q, st, m);
          SentFits(q, React(q, st, m).verdict.next, inbox[1..]);
        }
      }
    }
  }

  lemma ReactFits(q: Request, st: State, m: Message)
    requires Sound(st) && Encodable(q)
    ensures forall i :: 0 <= i < |React(q, st, m).sent| ==> Fits(React(q, st, m).sent[i])
  {
    hide Chain, SortedJoin, Checksum;
    if IsChunk(q, m) && Admitted(st, m) {
      AdvanceBounds(st, m);
    }
  }

  /** Whatever arrives, everything an exchange says has fields that fit, from the opening on. */
  lemma SpokenFits(q: Request, inbox: Inbox)
    requires Encodable(q)
    ensures forall i :: 0 <= i < |Spoken(q, inbox)| ==> Fits(Spoken(q, inbox)[i])
  {
    hide Checksum, Run, Start;
    StartIsSound(q);
    SentFits(q, Start(q), inbox);
    forall i | 0 <= i < |Spoken(q, inbox)|
      ensures Fits(Spoken(q, inbox)[i])
    {
      var n := |Opening(q)|;
      if i >= n {
        assert Spoken(q, inbox)[i] == Run(q, Start(q), inbox).sent[i - n];
      }
    }
  }

  lemma {:induction false} SentIsOwn(q: Request, st: State, inbox: Inbox)
    ensures forall i :: 0 <= i < |Run(q, st, inbox).sent| ==> Addressed(q, Run(q, st, inbox).sent[i])
    decreases |inbox|
  {
    hide Chain, SortedJoin, Checksum;
    if inbox != [] && inbox[0].Ok? {
      if inbox[0].value.Silent? {
        SentIsOwn(q, st, inbox[1..]);
      } else if React(q, st, inbox[0].value.message).verdict.Continue? {
        SentIsOwn(q, React(q, st, inbox[0].value.message).verdict.next, inbox[1..]);
      }
    }
  }

  /** Whatever arrives, everything an exchange says is under its own operation and identifier. */
  lemma SpokenIsOwn(q: Request, inbox: Inbox)
    ensures forall i :: 0 <= i < |Spoken(q, inbox)| ==> Addressed(q, Spoken(q, inbox)[i])
  {
    hide Checksum, Run, Start;
    SentIsOwn(q, Start(q), inbox);
    forall i | 0 <= i < |Spoken(q, inbox)|
      ensures Addressed(q, Spoken(q, inbox)[i])
    {
      var n := |Opening(q)|;
      if i >= n {
        assert Spoken(q, inbox)[i] == Run(q, Start(q), inbox).sent[i - n];
      }
    }
  }

  /**
   The order kept by the messages of a run that starts with `low` octets in sequence and
   with the last pull at `asked`: acknowledgements never go down and stay within the total;
   pulls past the start strictly increase and stay below the total; the pull at the start
   is sent at most once, and not at all unless `mayStart`.
   */
  ghost predicate Orderly(sent: seq<Message>, low: nat, asked: nat, mayStart: bool, declared: Declared) {
    && (forall i :: 0 <= i < |sent| ==> Placed(sent[i], low, asked, mayStart, declared))
    && (forall i, j :: 0 <= i < j < |sent| ==> InOrder(sent[i], sent[j]))
  }

  predicate Placed(m: Message, low: nat, asked: nat, mayStart: bool, declared: Declared) {
    if m.flag == PUSH_ACK then
      declared.Declared? && low <= m.offset <= declared.total
    else
      && m.flag == PULL
      && if m.offset == 0 then mayStart
         else declared.Declared? && asked < m.offset < declared.total
  }

  predicate InOrder(m: Message, n: Message) {
    && (m.flag == PUSH_ACK && n.flag == PUSH_ACK ==> m.offset <= n.offset)
    && (m.flag == PULL && n.flag == PULL && n.offset != 0 ==> m.offset < n.offset)
    && (m.flag == PULL && n.flag == PULL && m.offset == 0 ==> n.offset != 0)
  }

  /** A reaction keeps the order, and leaves a state that knows what it sent. */
  ghost predicate KeepsOrder(st: State, r: Reaction, declared: Declared) {
    && Orderly(r.sent, Chain(st.chunks, 0), st.requested, !st.pullSent, declared)
    && (r.verdict.Continue? ==>
          var next := r.verdict.next;
          && Chain(st.chunks, 0) <= Chain(next.chunks, 0)
          && (st.pullSent ==> next.pullSent)
          && forall i :: 0 <= i < |r.sent| ==> Handled(r.sent[i], next))
  }

  lemma AdvanceOrderly(q: Request, st: State, m: Message)
    requires Sound(st) && Admitted(st, m)
    ensures KeepsOrder(st, Advance(q, st, m), Declared(m.total, m.checksum))
  {
    hide Chain, SortedJoin, Checksum;
    AdvanceBounds(st, m);
  }

  lemma ReactOrderly(q: Request, st: State, m: Message)
    requires Sound(st) && (!React(q, st, m).verdict.Fail? || React(q, st, m).sent != [])
    ensures KeepsOrder(st, React(q, st, m), if IsChunk(q, m) then Declared(m.total, m.checksum) else st.declared)
  {
    hide Chain, React, Advance;
    ReactCases(q, st, m);
    if IsChunk(q, m) {
      AdvanceOrderly(q, st, m);
    }
  }

  /** A message already sent when a run goes on from `next`. */
  predicate Handled(m: Message, next: State) {
    && (m.flag == PUSH_ACK ==> m.offset <= Chain(next.chunks, 0))
    && (m.flag == PULL ==> m.offset <= next.requested && (m.offset == 0 ==> next.pullSent))
  }

  lemma ContinueOrderly(head: seq<Message>, tail: seq<Message>, st: State, next: State, declared: Declared)
    requires Orderly(head, Chain(st.chunks, 0), st.requested, !st.pullSent, declared)
    requires Orderly(tail, Chain(next.chunks, 0), next.requested, !next.pullSent, declared)
    requires Sound(st) && Sound(next) && Chain(st.chunks, 0) <= Chain(next.chunks, 0)
    requires st.pullSent ==> next.pullSent
    requires forall i :: 0 <= i < |head| ==> Handled(head[i], next)
    ensures Orderly(head + tail, Chain(st.chunks, 0), st.requested, !st.pullSent, declared)
  {
    hide Chain;
    var all := head + tail;
    forall i | 0 <= i < |all|
      ensures Placed(all[i], Chain(st.chunks, 0), st.requested, !st.pullSent, declared)
    {
      if i >= |head| {
        assert all[i] == tail[i - |head|];
      }
    }
    forall i, j | 0 <= i < j < |all|
      ensures InOrder(all[i], all[j])
    {
      if i < |head| <= j {
        assert Handled(head[i], next) && all[j] == tail[j - |head|];
        assert Placed(tail[j - |head|], Chain(next.chunks, 0), next.requested, !next.pullSent, declared);
      } else if i >= |head| {
        assert all[i] == tail[i - |head|] && all[j] == tail[j - |head|];
      }
    }
  }

  lemma OrderlyDeclared(sent: seq<Message>, low: nat, asked: nat, mayStart: bool, declared: Declared)
    requires Orderly(sent, low, asked, mayStart, Undeclared)
    ensures Orderly(sent, low, asked, mayStart, declared)
  {
    forall i | 0 <= i < |sent|
      ensures Placed(sent[i], low, asked, mayStart, declared)
    {
      assert Placed(sent[i], low, asked, mayStart, Undeclared);
    }
  }

  /** The reaction to the first message of a run is orderly in terms of the whole run. */
  lemma FirstOrderly(q: Request, st: State, inbox: Inbox)
    requires Sound(st) && inbox != [] && inbox[0].Ok? && inbox[0].value.Got?
    ensures Orderly(React(q, st, inbox[0].value.message).sent,
                    Chain(st.chunks, 0), st.requested, !st.pullSent, FirstDeclared(q, st, inbox))
  {
    hide React, Chain, Orderly;
    var m := inbox[0].value.message;
    var sent := React(q, st, m).sent;
    if React(q, st, m).verdict.Fail? && sent == [] {
      NothingIsOrderly(Chain(st.chunks, 0), st.requested, !st.pullSent, FirstDeclared(q, st, inbox));
    } else {
      ReactOrderly(q, st, m);
      ReactCases(q, st, m);
      if !IsChunk(q, m) && st.declared == Undeclared {
        OrderlyDeclared(sent, Chain(st.chunks, 0), st.requested, !st.pullSent, FirstDeclared(q, st, inbox));
      }
    }
  }

  lemma NothingIsOrderly(low: nat, asked: nat, mayStart: bool, declared: Declared)
    ensures Orderly([], low, asked, mayStart, declared)
  {}

  lemma {:induction false} RunOrderly(q: Request, st: State, inbox: Inbox)
    requires Sound(st)
    ensures Orderly(Run(q, st, inbox).sent, Chain(st.chunks, 0), st.requested, !st.pullSent,
                    FirstDeclared(q, st, inbox))
    decreases |inbox|
  {
    hide React, Chain, Orderly, Sound;
    if inbox == [] || inbox[0].Err? {
      NothingIsOrderly(Chain(st.chunks, 0), st.requested, !st.pullSent, FirstDeclared(q, st, inbox));
    } else if inbox[0].value.Silent? {
      RunOrderly(q, st, inbox[1..]);
    } else {
      var r := React(q, st, inbox[0].value.message);
      FirstOrderly(q, st, inbox);
      if r.verdict.Continue? {
        ReactOrderly(q, st, inbox[0].value.message);
        ReactKeepsSound(q, st, inbox[0].value.message);
        DeclaredStays(q, st, inbox);
        RunOrderly(q, r.verdict.next, inbox[1..]);
        ContinueOrderly(r.sent, Run(q, r.verdict.next, inbox[1..]).sent, st, r.verdict.next,
                        FirstDeclared(q, st, inbox));
      }
    }
  }

  /** Over a whole exchange acknowledgements and pulls keep their order, whatever the peer sends. */
  lemma ExchangeOrderly(q: Request, inbox: Inbox)
    ensures Orderly(Run(q, Start(q), inbox).sent, 0, 0, q.payload != [], FirstDeclared(q, Start(q), inbox))
  {
    hide Run, FirstDeclared, Orderly;
    StartIsSound(q);
    RunOrderly(q, Start(q), inbox);
  }

  /** Octet `p` arrived in some response chunk. */
  ghost predicate Received(q: Request, inbox: Inbox, p: nat) {
    exists n :: 0 <= n < |inbox| && Carries(q, inbox[n], p)
  }

  predicate Carries(q: Request, event: Result<Inbound>, p: nat) {
    && event.Ok? && event.value.Got? && IsChunk(q, event.value.message)
    && event.value.message.offset <= p < event.value.message.offset + |event.value.message.chunk|
  }

  lemma AckedByReaction(q: Request, st: State, event: Result<Inbound>, i: nat, p: nat)
    requires Sound(st) && event.Ok? && event.value.Got?
    requires i < |React(q, st, event.value.message).sent|
    requires React(q, st, event.value.message).sent[i].flag == PUSH_ACK
    requires p < React(q, st, event.value.message).sent[i].offset
    ensures Holds(st.chunks, p) || Carries(q, event, p)
  {
    hide React, Chain, SortedJoin, Checksum;
    var m := event.value.message;
    ReactCases(q, st, m);
    var chunks := st.chunks[m.offset := m.chunk];
    ChainIsHeld(chunks, 0, p);
    var k :| k in chunks && k <= p < k + |chunks[k]|;
    if k != m.offset {
      assert k in st.chunks && chunks[k] == st.chunks[k];
    }
  }

  lemma HeldNext(q: Request, st: State, event: Result<Inbound>, p: nat)
    requires Sound(st) && event.Ok? && event.value.Got?
    requires React(q, st, event.value.message).verdict.Continue?
    requires Holds(React(q, st, event.value.message).verdict.next.chunks, p)
    ensures Holds(st.chunks, p) || Carries(q, event, p)
  {
    hide React, Advance, Chain;
    var m := event.value.message;
    ReactCases(q, st, m);
    if IsChunk(q, m) {
      AdvanceKeepsSound(q, st, m);
      var chunks := st.chunks[m.offset := m.chunk];
      var k :| k in chunks && k <= p < k + |chunks[k]|;
      if k != m.offset {
        assert k in st.chunks && chunks[k] == st.chunks[k];
      }
    }
  }

  lemma {:induction false} AckedIsReceived(q: Request, st: State, inbox: Inbox, i: nat, p: nat)
    requires Sound(st) && i < |Run(q, st, inbox).sent|
    requires Run(q, st, inbox).sent[i].flag == PUSH_ACK && p < Run(q, st, inbox).sent[i].offset
    ensures Holds(st.chunks, p) || Received(q, inbox, p)
    decreases |inbox|
  {
    hide React, Holds, Carries, Sound;
    var tail := inbox[1..];
    if Received(q, tail, p) {
      var n :| 0 <= n < |tail| && Carries(q, tail[n], p);
      assert inbox[n + 1] == tail[n];
    } else if inbox[0].value.Silent? {
      AckedIsReceived(q, st, tail, i, p);
    } else {
      var r := React(q, st, inbox[0].value.message);
      if i < |r.sent| {
        AckedByReaction(q, st, inbox[0], i, p);
      } else {
        ReactKeepsSound(q, st, inbox[0].value.message);
        AckedIsReceived(q, r.verdict.next, tail, i - |r.sent|, p);
        HeldNext(q, st, inbox[0], p);
      }
    }
  }

  /** The messages sent by a prefix of a run are a prefix of the messages sent. */
  lemma {:induction false} PrefixSends(q: Request, st: State, inbox: Inbox, k: nat)
    requires k <= |inbox|
    ensures Run(q, st, inbox[..k]).sent <= Run(q, st, inbox).sent
    decreases |inbox|
  {
    hide React;
    if k > 0 {
      assert inbox[..k][1..] == inbox[1..][..k - 1];
      if inbox[0] == Ok(Silent) {
        PrefixSends(q, st, inbox[1..], k - 1);
      } else if inbox[0].Ok? && React(q, st, inbox[0].value.message).verdict.Continue? {
        PrefixSends(q, React(q, st, inbox[0].value.message).verdict.next, inbox[1..], k - 1);
      }
    }
  }

  /** Every octet an acknowledgement covers has arrived by the time it is sent. */
  lemma AcknowledgedBytesArrived(q: Request, inbox: Inbox, k: nat, i: nat, p: nat)
    requires k <= |inbox| && i < |Run(q, Start(q), inbox[..k]).sent|
    requires var ack := Run(q, Start(q), inbox[..k]).sent[i]; ack.flag == PUSH_ACK && p < ack.offset
    ensures Received(q, inbox[..k], p)
  {
    StartIsSound(q);
    AckedIsReceived(q, Start(q), inbox[..k], i, p);
  }

  // ----- traffic of other exchanges

  /** Failures of the wire and messages of this exchange; control frames and other traffic are not. */
  predicate Relevant(q: Request, event: Result<Inbound>) {
    event.Err? || (event.value.Got? && Addressed(q, event.value.message))
  }

  function Filtered(q: Request, inbox: Inbox): Inbox {
    if inbox == [] then []
    else (if Relevant(q, inbox[0]) then [inbox[0]] else []) + Filtered(q, inbox[1..])
  }

  /** Removing everything that is not of this exchange changes neither the outcome nor what is sent. */
  lemma {:induction false} StaleTrafficIgnored(q: Request, st: State, inbox: Inbox)
    ensures Run(q, st, Filtered(q, inbox)) == Run(q, st, inbox)
    decreases |inbox|
  {
    hide Admit;
    if inbox != [] {
      var tail := Filtered(q, inbox[1..]);
      if Relevant(q, inbox[0]) {
        assert Filtered(q, inbox)[1..] == tail;
        if inbox[0].Ok? && React(q, st, inbox[0].value.message).verdict.Continue? {
          StaleTrafficIgnored(q, React(q, st, inbox[0].value.message).verdict.next, inbox[1..]);
        }
      } else {
        assert Filtered(q, inbox) == tail;
        StaleTrafficIgnored(q, st, inbox[1..]);
        assert Run(q, st, inbox).sent == Run(q, st, inbox[1..]).sent;
      }
    }
  }

  /** Identifiers are drawn from a counter, reduced to 16 bits. */
  function TransactionId(counter: nat): nat {
    counter % U16
  }

  /** The event is a message under the identifier of one of the 65,535 exchanges before the one numbered `counter`. */
  ghost predicate OfRecent(counter: nat, event: Result<Inbound>) {
    && event.Ok? && event.value.Got?
    && exists other: nat ::
         other < counter < other + U16 && event.value.message.transaction == TransactionId(other)
  }

  ghost function WithoutRecent(counter: nat, inbox: Inbox): Inbox {
    if inbox == [] then []
    else (if OfRecent(counter, inbox[0]) then [] else [inbox[0]]) + WithoutRecent(counter, inbox[1..])
  }

  lemma RecentIsStale(q: Request, counter: nat, event: Result<Inbound>)
    requires q.transaction == TransactionId(counter) && OfRecent(counter, event)
    ensures !Relevant(q, event)
  {
    var other: nat :| other < counter < other + U16 && event.value.message.transaction == TransactionId(other);
  }

  lemma {:induction false} FilteredWithoutRecent(q: Request, counter: nat, inbox: Inbox)
    requires q.transaction == TransactionId(counter)
    ensures Filtered(q, WithoutRecent(counter, inbox)) == Filtered(q, inbox)
  {
    hide Relevant, OfRecent;
    if inbox != [] {
      var tail := WithoutRecent(counter, inbox[1..]);
      FilteredWithoutRecent(q, counter, inbox[1..]);
      if OfRecent(counter, inbox[0]) {
        RecentIsStale(q, counter, inbox[0]);
        assert WithoutRecent(counter, inbox) == tail;
      } else {
        assert ([inbox[0]] + tail)[1..] == tail;
      }
    }
  }

  /**
   Removing all that arrives under an identifier of any of the last 65,535 exchanges of the
   session changes neither how the present one ends nor what it says.
   */
  lemma RecentRepliesIgnored(opcode: nat, counter: nat, payload: bytes, inbox: Inbox)
    ensures var q := Request(opcode, TransactionId(counter), payload);
            var others := WithoutRecent(counter, inbox);
            && Run(q, Start(q), others) == Run(q, Start(q), inbox)
            && Spoken(q, others) == Spoken(q, inbox)
  {
    hide Run, Start;
    var q := Request(opcode, TransactionId(counter), payload);
    FilteredWithoutRecent(q, counter, inbox);
    StaleTrafficIgnored(q, Start(q), inbox);
    StaleTrafficIgnored(q, Start(q), WithoutRecent(counter, inbox));
  }
}
