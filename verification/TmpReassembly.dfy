/**
 Reassembly is correct: a payload cut into non-empty segments is returned exactly when the
 last missing segment arrives, whatever the order, the repetitions and the other traffic.
 */
module TmpReassembly {
  import opened Bytes
  import opened Crc32
  import opened TmpWire
  import opened TmpExchange

  // ----- a payload and its cut

  /** Where segment `i` starts. */
  function At(segs: seq<bytes>, i: nat): nat
    requires i <= |segs|
  {
    if i == 0 then 0 else At(segs, i - 1) + |segs[i - 1]|
  }

  /** The segments from `i` on, joined. */
  function Whole(segs: seq<bytes>, i: nat): bytes
    requires i <= |segs|
    decreases |segs| - i
  {
    if i == |segs| then [] else segs[i] + Whole(segs, i + 1)
  }

  ghost predicate IsCut(segs: seq<bytes>) {
    && segs != []
    && (forall i :: 0 <= i < |segs| ==> segs[i] != [])
    && |Whole(segs, 0)| <= MAX_RESPONSE_SIZE
  }

  lemma {:induction false} AtIncreases(segs: seq<bytes>, i: nat, j: nat)
    requires i < j <= |segs|
    requires forall k :: 0 <= k < |segs| ==> segs[k] != []
    ensures At(segs, i) < At(segs, j)
  {
    assert segs[j - 1] != [];
    if i < j - 1 {
      AtIncreases(segs, i, j - 1);
    }
  }

  lemma {:induction false} WholeLength(segs: seq<bytes>, i: nat)
    requires i <= |segs|
    ensures At(segs, i) + |Whole(segs, i)| == At(segs, |segs|)
    ensures At(segs, 0) == 0
    decreases |segs| - i
  {
    if i < |segs| {
      WholeLength(segs, i + 1);
    }
  }

  /** The segment numbers from `i` on. */
  function Onward(i: nat, n: nat): (r: set<nat>)
    ensures forall j :: j in r <==> i <= j < n
    decreases n - i
  {
    if i >= n then {} else {i} + Onward(i + 1, n)
  }

  // ----- the chunk table while segments arrive

  /** The table holds exactly the segments in `have`. */
  ghost predicate IsTable(chunks: Chunks, segs: seq<bytes>, have: set<nat>) {
    && (forall i :: i in have ==> i < |segs| && At(segs, i) in chunks && chunks[At(segs, i)] == segs[i])
    && (forall k :: k in chunks ==> exists i :: i in have && i < |segs| && At(segs, i) == k)
  }

  lemma AbsentFromTable(chunks: Chunks, segs: seq<bytes>, have: set<nat>, i: nat)
    requires IsTable(chunks, segs, have) && IsCut(segs)
    requires i <= |segs| && i !in have
    ensures At(segs, i) !in chunks
  {
    if At(segs, i) in chunks {
      var j :| j in have && j < |segs| && At(segs, j) == At(segs, i);
      if j < i {
        AtIncreases(segs, j, i);
      } else {
        AtIncreases(segs, i, j);
      }
    }
  }

  /** With nothing missing from `i` on, the chain from there reaches the end. */
  lemma {:induction false} ChainFull(chunks: Chunks, segs: seq<bytes>, have: set<nat>, i: nat)
    requires IsTable(chunks, segs, have) && IsCut(segs)
    requires i <= |segs| && forall j :: i <= j < |segs| ==> j in have
    ensures Chain(chunks, At(segs, i)) == At(segs, |segs|)
    decreases |segs| - i
  {
    hide IsTable;
    if i < |segs| {
      assert i in have;
      TableHas(chunks, segs, have, i);
      assert segs[i] != [];
      ChainFull(chunks, segs, have, i + 1);
    } else {
      TableBounded(chunks, segs, have);
      AbsentFromTable(chunks, segs, have, i);
    }
  }

  /** A missing segment stops the chain. */
  lemma {:induction false} ChainGap(chunks: Chunks, segs: seq<bytes>, have: set<nat>, i: nat, gap: nat)
    requires IsTable(chunks, segs, have) && IsCut(segs)
    requires i <= gap < |segs| && gap !in have
    ensures Chain(chunks, At(segs, i)) <= At(segs, gap)
    decreases gap - i
  {
    hide IsTable;
    if i in have {
      TableHas(chunks, segs, have, i);
      assert segs[i] != [];
      ChainGap(chunks, segs, have, i + 1, gap);
    } else {
      AbsentFromTable(chunks, segs, have, i);
      if i < gap {
        AtIncreases(segs, i, gap);
      }
    }
  }

  lemma FirstIsLeast(chunks: Chunks, segs: seq<bytes>, i: nat, k: nat)
    requires i < |segs| && IsCut(segs) && IsTable(chunks, segs, Onward(i, |segs|))
    requires IsLeast(k, chunks.Keys)
    ensures k == At(segs, i)
  {
    hide At;
    TableHas(chunks, segs, Onward(i, |segs|), i);
    var j :| j in Onward(i, |segs|) && j < |segs| && At(segs, j) == k;
    if i < j {
      AtIncreases(segs, i, j);
    }
  }

  /** On a full table the sorted join agrees with the cut. */
  lemma {:induction false} SortedJoinFull(chunks: Chunks, segs: seq<bytes>, i: nat)
    requires i <= |segs| && IsCut(segs)
    requires IsTable(chunks, segs, Onward(i, |segs|))
    ensures SortedJoin(chunks) == Whole(segs, i)
    decreases |segs| - i
  {
    hide At, IsTable;
    var have := Onward(i, |segs|);
    if i == |segs| {
      EmptyTable(chunks, segs, have);
    } else {
      TableHas(chunks, segs, have, i);
      var k := Least(chunks.Keys);
      FirstIsLeast(chunks, segs, i, k);
      TableWithout(chunks, segs, have, i);
      assert have - {i} == Onward(i + 1, |segs|);
      SortedJoinFull(chunks - {k}, segs, i + 1);
    }
  }

  lemma EmptyTable(chunks: Chunks, segs: seq<bytes>, have: set<nat>)
    requires IsTable(chunks, segs, have) && have == {}
    ensures chunks == map[]
  {}

  lemma TableHas(chunks: Chunks, segs: seq<bytes>, have: set<nat>, i: nat)
    requires IsTable(chunks, segs, have) && i in have
    ensures i < |segs| && At(segs, i) in chunks && chunks[At(segs, i)] == segs[i]
  {}

  lemma TableWithout(chunks: Chunks, segs: seq<bytes>, have: set<nat>, i: nat)
    requires IsTable(chunks, segs, have) && IsCut(segs) && i in have
    ensures IsTable(chunks - {At(segs, i)}, segs, have - {i})
  {
    hide At;
    var less := chunks - {At(segs, i)};
    forall j | j in have - {i}
      ensures At(segs, j) in less && less[At(segs, j)] == segs[j]
    {
      if j < i { AtIncreases(segs, j, i); } else { AtIncreases(segs, i, j); }
    }
    forall k | k in less
      ensures exists j :: j in have - {i} && j < |segs| && At(segs, j) == k
    {
      var j :| j in have && j < |segs| && At(segs, j) == k;
      assert j in have - {i};
    }
  }

  lemma TableWith(chunks: Chunks, segs: seq<bytes>, have: set<nat>, i: nat)
    requires IsTable(chunks, segs, have) && i < |segs|
    requires At(segs, i) in chunks ==> chunks[At(segs, i)] == segs[i]
    ensures IsTable(chunks[At(segs, i) := segs[i]], segs, have + {i})
  {
    hide At;
    var more := chunks[At(segs, i) := segs[i]];
    forall k | k in more
      ensures exists j :: j in have + {i} && j < |segs| && At(segs, j) == k
    {
      if k == At(segs, i) {
        assert i in have + {i};
      } else {
        var j :| j in have && j < |segs| && At(segs, j) == k;
        assert j in have + {i};
      }
    }
    forall j | j in have + {i}
      ensures j < |segs| && At(segs, j) in more && more[At(segs, j)] == segs[j]
    {
      if j in have && At(segs, j) == At(segs, i) {
        assert chunks[At(segs, j)] == segs[j];
      }
    }
  }

  // ----- the traffic of one exchange

  predicate Delivers(q: Request, segs: seq<bytes>, event: Result<Inbound>, i: nat) {
    && event.Ok? && event.value.Got? && i < |segs|
    && var m := event.value.message;
    && Addressed(q, m) && m.error == 0 && (m.flag == PUSH || m.flag == PULL_ACK)
    && m.total == |Whole(segs, 0)| && m.checksum == Checksum(Whole(segs, 0))
    && m.offset == At(segs, i) && m.chunk == segs[i]
  }

  /** Control frames, messages of other exchanges, acknowledgements and unknown flags. */
  predicate Idle(q: Request, event: Result<Inbound>) {
    && event.Ok?
    && (event.value.Silent?
        || var m := event.value.message;
           !Addressed(q, m) || (m.error == 0 && m.flag != PUSH && m.flag != PULL_ACK))
  }

  ghost predicate Traffic(q: Request, segs: seq<bytes>, inbox: Inbox) {
    forall n :: 0 <= n < |inbox| ==> Idle(q, inbox[n]) || exists i :: Delivers(q, segs, inbox[n], i)
  }

  ghost predicate Arrived(q: Request, segs: seq<bytes>, inbox: Inbox, i: nat) {
    exists n :: 0 <= n < |inbox| && Delivers(q, segs, inbox[n], i)
  }

  ghost predicate Complete(q: Request, segs: seq<bytes>, inbox: Inbox, have: set<nat>) {
    forall i :: 0 <= i < |segs| ==> i in have || Arrived(q, segs, inbox, i)
  }

  /** The state after receiving the segments in `have`, some of them still missing. */
  ghost predicate Collecting(st: State, segs: seq<bytes>, have: set<nat>) {
    && IsTable(st.chunks, segs, have)
    && (st.declared == Undeclared || st.declared == Declared(|Whole(segs, 0)|, Checksum(Whole(segs, 0))))
    && exists gap :: 0 <= gap < |segs| && gap !in have
  }

  lemma IdleKeeps(q: Request, st: State, segs: seq<bytes>, have: set<nat>, event: Result<Inbound>)
    requires Idle(q, event) && event.value.Got? && Collecting(st, segs, have)
    ensures React(q, st, event.value.message).verdict.Continue?
    ensures Collecting(React(q, st, event.value.message).verdict.next, segs, have)
  {}

  lemma DeliveryAdmitted(q: Request, st: State, segs: seq<bytes>, have: set<nat>, event: Result<Inbound>, i: nat)
    requires IsCut(segs) && Collecting(st, segs, have) && Delivers(q, segs, event, i)
    ensures React(q, st, event.value.message) == Advance(q, st, event.value.message)
    ensures At(segs, i) in st.chunks ==> st.chunks[At(segs, i)] == segs[i]
  {
    hide Checksum, Advance, At;
    var m := event.value.message;
    WholeLength(segs, 0);
    WholeLength(segs, i);
    assert |segs[i]| <= |Whole(segs, i)|;
    if m.offset in st.chunks {
      var j :| j in have && j < |segs| && At(segs, j) == m.offset;
      if j < i { AtIncreases(segs, j, i); }
      if i < j { AtIncreases(segs, i, j); }
    }
  }

  /** One delivered segment: either it was the last one missing, or collecting goes on. */
  lemma DeliveryStep(q: Request, st: State, segs: seq<bytes>, have: set<nat>, event: Result<Inbound>, i: nat)
    requires IsCut(segs) && Collecting(st, segs, have) && Delivers(q, segs, event, i)
    ensures var v := React(q, st, event.value.message).verdict;
            if AllOf(segs, have + {i})
            then v == Done(Whole(segs, 0))
            else v.Continue? && Collecting(v.next, segs, have + {i})
  {
    hide Checksum, IsTable, React, Chain, SortedJoin;
    var m := event.value.message;
    var chunks := st.chunks[m.offset := m.chunk];
    DeliveryAdmitted(q, st, segs, have, event, i);
    TableWith(st.chunks, segs, have, i);
    WholeLength(segs, 0);
    AtIncreases(segs, 0, |segs|);
    if AllOf(segs, have + {i}) {
      ChainFull(chunks, segs, have + {i}, 0);
      assert Onward(0, |segs|) == have + {i} by {
        TableBounded(chunks, segs, have + {i});
      }
      SortedJoinFull(chunks, segs, 0);
    } else {
      var gap :| 0 <= gap < |segs| && gap !in have + {i};
      ChainGap(chunks, segs, have + {i}, 0, gap);
      AtIncreases(segs, gap, |segs|);
    }
  }

  ghost predicate AllOf(segs: seq<bytes>, have: set<nat>) {
    forall j :: 0 <= j < |segs| ==> j in have
  }

  lemma TableBounded(chunks: Chunks, segs: seq<bytes>, have: set<nat>)
    requires IsTable(chunks, segs, have)
    ensures forall i :: i in have ==> i < |segs|
  {}

  /** What is missing after the first event is missing from the rest. */
  lemma CompleteStep(q: Request, segs: seq<bytes>, inbox: Inbox, have: set<nat>, more: set<nat>)
    requires inbox != []
    requires forall i :: 0 <= i < |segs| ==> (i in more <==> i in have || Delivers(q, segs, inbox[0], i))
    ensures Complete(q, segs, inbox, have) <==> Complete(q, segs, inbox[1..], more)
  {
    hide Delivers;
    var tail := inbox[1..];
    forall i | 0 <= i < |segs|
      ensures (i in have || Arrived(q, segs, inbox, i)) <==> (i in more || Arrived(q, segs, tail, i))
    {
      if Arrived(q, segs, inbox, i) && !Delivers(q, segs, inbox[0], i) {
        var n :| 0 <= n < |inbox| && Delivers(q, segs, inbox[n], i);
        assert inbox[n] == tail[n - 1];
      }
      if Arrived(q, segs, tail, i) {
        var n :| 0 <= n < |tail| && Delivers(q, segs, tail[n], i);
        assert tail[n] == inbox[n + 1];
      }
    }
  }

  lemma DeliversOnlyOne(q: Request, segs: seq<bytes>, event: Result<Inbound>, i: nat)
    requires IsCut(segs) && Delivers(q, segs, event, i)
    ensures !Idle(q, event)
    ensures forall j :: 0 <= j < |segs| && Delivers(q, segs, event, j) ==> j == i
  {
    hide Checksum;
    forall j | 0 <= j < |segs| && Delivers(q, segs, event, j)
      ensures j == i
    {
      if j < i { AtIncreases(segs, j, i); }
      if i < j { AtIncreases(segs, i, j); }
    }
  }

  lemma IdleDeliversNothing(q: Request, segs: seq<bytes>, event: Result<Inbound>)
    requires Idle(q, event)
    ensures forall i :: 0 <= i < |segs| ==> !Delivers(q, segs, event, i)
  {}

  ghost predicate Settled(q: Request, segs: seq<bytes>, complete: bool, f: Final) {
    if complete then f.outcome == Returned(Whole(segs, 0)) else f.outcome.Waiting?
  }

  lemma {:induction false} CollectingRun(q: Request, st: State, segs: seq<bytes>, have: set<nat>, inbox: Inbox)
    requires IsCut(segs) && Collecting(st, segs, have) && Traffic(q, segs, inbox)
    ensures Settled(q, segs, Complete(q, segs, inbox, have), Run(q, st, inbox))
    decreases |inbox|
  {
    hide React, Checksum, Delivers, Idle, Whole, IsTable;
    if inbox == [] {
      var gap :| 0 <= gap < |segs| && gap !in have;
      assert !Arrived(q, segs, inbox, gap);
    } else {
      var tail := inbox[1..];
      assert forall n :: 0 <= n < |tail| ==> tail[n] == inbox[n + 1];
      if Idle(q, inbox[0]) {
        IdleDeliversNothing(q, segs, inbox[0]);
        CompleteStep(q, segs, inbox, have, have);
        IdleIsOk(q, inbox[0]);
        if inbox[0].value.Got? {
          IdleKeeps(q, st, segs, have, inbox[0]);
          CollectingRun(q, React(q, st, inbox[0].value.message).verdict.next, segs, have, tail);
        } else {
          CollectingRun(q, st, segs, have, tail);
        }
      } else {
        var i :| Delivers(q, segs, inbox[0], i);
        DeliversOnlyOne(q, segs, inbox[0], i);
        DeliversIsGot(q, segs, inbox[0], i);
        CompleteStep(q, segs, inbox, have, have + {i});
        DeliveryStep(q, st, segs, have, inbox[0], i);
        if !AllOf(segs, have + {i}) {
          CollectingRun(q, React(q, st, inbox[0].value.message).verdict.next, segs, have + {i}, tail);
        }
      }
    }
  }

  lemma IdleIsOk(q: Request, event: Result<Inbound>)
    requires Idle(q, event)
    ensures event.Ok?
  {}

  lemma DeliversIsGot(q: Request, segs: seq<bytes>, event: Result<Inbound>, i: nat)
    requires Delivers(q, segs, event, i)
    ensures event.Ok? && event.value.Got? && i < |segs|
  {}

  /**
   For any cut of a payload and any traffic that only carries its segments: after every
   prefix of the traffic the exchange has returned exactly the payload if all segments have
   arrived by then, and is still waiting otherwise.
   */
  lemma Reassembly(q: Request, segs: seq<bytes>, inbox: Inbox, k: nat)
    requires IsCut(segs) && Traffic(q, segs, inbox) && k <= |inbox|
    ensures Settled(q, segs, forall i :: 0 <= i < |segs| ==> Arrived(q, segs, inbox[..k], i),
                    Run(q, Start(q), inbox[..k]))
  {
    hide Delivers, Idle, Checksum;
    var have: set<nat> := {};
    assert 0 < |segs| && 0 !in have;
    assert Collecting(Start(q), segs, have);
    assert forall n :: 0 <= n < k ==> inbox[..k][n] == inbox[n];
    CollectingRun(q, Start(q), segs, have, inbox[..k]);
  }

  /** An empty response is returned on its first chunk. */
  lemma EmptyResponse(q: Request, m: Message, rest: Inbox)
    requires Addressed(q, m) && m.error == 0 && (m.flag == PUSH || m.flag == PULL_ACK)
    requires m.total == 0 && m.chunk == [] && m.offset == 0 && m.checksum == 0
    ensures Run(q, Start(q), [Ok(Got(m))] + rest).outcome == Returned([])
  {
    ChecksumOfNothing();
  }

  // ----- disjointness is needed

  const PAYLOAD: bytes := [1, 2, 3, 4]

  function Piece(q: Request, from: nat, to: nat): Message
    requires from <= to <= 4
  {
    Message(q.opcode, PULL_ACK, 0, q.transaction, Checksum(PAYLOAD), 4, from, PAYLOAD[from..to])
  }

  lemma LeastIs(k: nat, keys: set<nat>)
    requires IsLeast(k, keys)
    ensures Least(keys) == k
  {}

  lemma OverlapJoin(chunks: Chunks)
    requires chunks == map[0 := [1, 2], 1 := [2], 2 := [3, 4]]
    ensures Chain(chunks, 0) == 4
    ensures SortedJoin(chunks) == [1, 2, 2, 3, 4]
  {
    assert forall j :: j in chunks.Keys ==> 0 <= j;
    LeastIs(0, chunks.Keys);
    var c1 := chunks - {0};
    assert c1 == map[1 := [2], 2 := [3, 4]];
    assert forall j :: j in c1.Keys ==> j == 1 || j == 2;
    assert 1 in c1;
    LeastIs(1, c1.Keys);
    var c2 := c1 - {1};
    assert c2 == map[2 := [3, 4]];
    assert forall j :: j in c2.Keys ==> j == 2;
    assert 2 in c2;
    LeastIs(2, c2.Keys);
    assert c2 - {2} == map[];
    assert SortedJoin(c2) == [3, 4];
    assert SortedJoin(c1) == [2] + [3, 4];
    assert Chain(chunks, 2) == 4;
  }

  lemma RunContinues(q: Request, st: State, m: Message, next: State, rest: Inbox)
    requires React(q, st, m).verdict == Continue(next)
    ensures Run(q, st, [Ok(Got(m))] + rest).outcome == Run(q, next, rest).outcome
  {
    assert ([Ok(Got(m))] + rest)[1..] == rest;
  }

  function Mid(q: Request, chunks: Chunks): State {
    State(q.payload == [], chunks, Declared(4, Checksum(PAYLOAD)), 2)
  }

  lemma OverlapFirstSteps(q: Request)
    ensures React(q, Start(q), Piece(q, 0, 2)).verdict == Continue(Mid(q, map[0 := [1, 2]]))
    ensures React(q, Mid(q, map[0 := [1, 2]]), Piece(q, 1, 2)).verdict == Continue(Mid(q, map[0 := [1, 2], 1 := [2]]))
  {
    hide Checksum, SortedJoin;
    assert PAYLOAD[0..2] == [1, 2] && PAYLOAD[1..2] == [2];
    var c1: Chunks := map[0 := [1, 2]];
    var c2: Chunks := map[0 := [1, 2], 1 := [2]];
    assert Chain(c1, 2) == 2 && Chain(c1, 0) == 2;
    assert Chain(c2, 2) == 2 && Chain(c2, 0) == 2;
    assert c1[1 := [2]] == c2;
  }

  lemma OverlapLastStep(q: Request)
    ensures React(q, Mid(q, map[0 := [1, 2], 1 := [2]]), Piece(q, 2, 4)).verdict == Fail(ResponseMismatch)
  {
    hide Checksum, SortedJoin, Chain;
    assert PAYLOAD[2..4] == [3, 4];
    var c2: Chunks := map[0 := [1, 2], 1 := [2]];
    assert c2[2 := [3, 4]] == map[0 := [1, 2], 1 := [2], 2 := [3, 4]];
    OverlapJoin(c2[2 := [3, 4]]);
    assert [1, 2, 2, 3, 4][..4] == [1, 2, 2, 3];
    WindowChecksum(PAYLOAD, [1, 2, 2, 3], 2, 2);
  }

  /**
   Overlapping pieces of one and the same payload, each of them correct, make the sorted
   join differ from the payload, and the exchange fails.
   */
  lemma OverlapFails(q: Request)
    ensures Run(q, Start(q), [Ok(Got(Piece(q, 0, 2))), Ok(Got(Piece(q, 1, 2))), Ok(Got(Piece(q, 2, 4)))]).outcome
         == Failed(ResponseMismatch)
  {
    hide React, Mid, Piece;
    var e1, e2, e3 := Ok(Got(Piece(q, 0, 2))), Ok(Got(Piece(q, 1, 2))), Ok(Got(Piece(q, 2, 4)));
    OverlapFirstSteps(q);
    OverlapLastStep(q);
    assert [e1, e2, e3] == [e1] + [e2, e3] && [e2, e3] == [e2] + [e3];
    RunContinues(q, Start(q), Piece(q, 0, 2), Mid(q, map[0 := [1, 2]]), [e2, e3]);
    RunContinues(q, Mid(q, map[0 := [1, 2]]), Piece(q, 1, 2), Mid(q, map[0 := [1, 2], 1 := [2]]), [e3]);
  }
}
