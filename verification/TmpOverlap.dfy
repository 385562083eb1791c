/**
 Truthful chunks that may overlap: pieces of one payload under its own length and checksum,
 cut at any offsets. Which shapes of chunk table give the payload back, whatever it is.
 */
module TmpOverlap {
  import opened Wrappers
  import opened Bytes
  import opened Crc32
  import opened TmpWire
  import opened TmpExchange
  import opened TmpDiscipline
  import opened TmpReassembly

  // ----- shapes

  /** Where the chunks of a table lie: their lengths by offset. */
  type Shape = map<nat, nat>

  ghost predicate FitsIn(shape: Shape, total: nat) {
    forall k :: k in shape ==> k + shape[k] <= total
  }

  /** The chunks that a payload has in these places. */
  function Pieces(payload: bytes, shape: Shape): Chunks
    requires FitsIn(shape, |payload|)
  {
    map k | k in shape :: payload[k..k + shape[k]]
  }

  function Blank(shape: Shape): Chunks {
    map k | k in shape :: seq(shape[k], _ => 0)
  }

  /** Where the chain from `offset` ends; it depends on the shape alone. */
  function Reach(shape: Shape, offset: nat): nat {
    Chain(Blank(shape), offset)
  }

  lemma {:induction false} SameChain(c: Chunks, d: Chunks, offset: nat)
    requires c.Keys == d.Keys && forall k :: k in c ==> |c[k]| == |d[k]|
    ensures Chain(c, offset) == Chain(d, offset)
    decreases Ahead(c, offset)
  {
    if offset in c.Keys && c[offset] != [] {
      AheadShrinks(c, offset, offset + |c[offset]|);
      SameChain(c, d, offset + |c[offset]|);
    }
  }

  lemma ReachIsChain(payload: bytes, shape: Shape)
    requires FitsIn(shape, |payload|)
    ensures Chain(Pieces(payload, shape), 0) == Reach(shape, 0)
  {
    SameChain(Pieces(payload, shape), Blank(shape), 0);
  }

  lemma ReachStep(shape: Shape, offset: nat)
    ensures Reach(shape, offset)
         == if offset in shape && shape[offset] > 0 then Reach(shape, offset + shape[offset]) else offset
  {}

  /**
   In order of offsets, each chunk that is not empty starts at the sum `sum` of the lengths
   before it, or that sum has reached the total.
   */
  predicate Tiled(shape: Shape, sum: nat, total: nat)
    decreases |shape|
  {
    if shape == map[] then true
    else
      assert shape.Keys != {};
      var k := Least(shape.Keys);
      (shape[k] == 0 || k == sum || sum >= total) && Tiled(shape - {k}, sum + shape[k], total)
  }

  // ----- tiled shapes join to the payload

  lemma JoinStep(payload: bytes, shape: Shape)
    requires FitsIn(shape, |payload|) && shape != map[] && shape.Keys != {}
    ensures var k := Least(shape.Keys);
            && FitsIn(shape - {k}, |payload|)
            && SortedJoin(Pieces(payload, shape))
               == payload[k..k + shape[k]] + SortedJoin(Pieces(payload, shape - {k}))
  {
    var k := Least(shape.Keys);
    var chunks := Pieces(payload, shape);
    assert chunks.Keys == shape.Keys;
    assert chunks - {k} == Pieces(payload, shape - {k});
  }

  lemma {:induction false} TiledJoin(payload: bytes, shape: Shape, sum: nat)
    requires FitsIn(shape, |payload|) && Tiled(shape, sum, |payload|) && sum <= |payload|
    ensures var joined := payload[..sum] + SortedJoin(Pieces(payload, shape));
            |joined| >= |payload| ==> joined[..|payload|] == payload
    decreases |shape|
  {
    hide SortedJoin, Least, Pieces, Tiled;
    if shape == map[] {
      NothingJoined(payload);
      assert payload[..sum] + [] == payload[..sum];
    } else if sum < |payload| {
      assert shape.Keys != {};
      var k := Least(shape.Keys);
      JoinStep(payload, shape);
      TiledStep(shape, sum, |payload|);
      TiledJoin(payload, shape - {k}, sum + shape[k]);
      var piece, rest := payload[k..k + shape[k]], SortedJoin(Pieces(payload, shape - {k}));
      assert piece == payload[sum..sum + shape[k]];
      PieceInTurn(payload, sum, shape[k], rest);
    } else {
      assert payload[..sum] == payload;
    }
  }

  lemma TiledStep(shape: Shape, sum: nat, total: nat)
    requires shape != map[] && shape.Keys != {}
    ensures var k := Least(shape.Keys);
            Tiled(shape, sum, total)
            <==> (shape[k] == 0 || k == sum || sum >= total) && Tiled(shape - {k}, sum + shape[k], total)
  {}

  lemma PieceInTurn(payload: bytes, sum: nat, length: nat, rest: bytes)
    requires sum + length <= |payload|
    ensures payload[..sum] + (payload[sum..sum + length] + rest) == payload[..sum + length] + rest
  {
    assert payload[..sum] + payload[sum..sum + length] == payload[..sum + length];
  }

  lemma NothingJoined(payload: bytes)
    ensures SortedJoin(Pieces(payload, map[])) == []
  {
    assert Pieces(payload, map[]) == map[];
  }

  // ----- other shapes do not

  /** The first chunk out of place, and where the join puts it. */
  ghost function Clash(shape: Shape, sum: nat, total: nat): (nat, nat)
    requires !Tiled(shape, sum, total)
    decreases |shape|
  {
    assert shape.Keys != {};
    var k := Least(shape.Keys);
    if shape[k] == 0 || k == sum || sum >= total then Clash(shape - {k}, sum + shape[k], total) else (k, sum)
  }

  lemma {:induction false} ClashInJoin(payload: bytes, shape: Shape, sum: nat)
    requires FitsIn(shape, |payload|) && !Tiled(shape, sum, |payload|)
    ensures var (k, at) := Clash(shape, sum, |payload|);
            var joined := SortedJoin(Pieces(payload, shape));
            sum <= at < sum + |joined| && k < |payload| && joined[at - sum] == payload[k]
    decreases |shape|
  {
    hide SortedJoin;
    assert shape.Keys != {};
    var k := Least(shape.Keys);
    JoinStep(payload, shape);
    if shape[k] == 0 || k == sum || sum >= |payload| {
      ClashInJoin(payload, shape - {k}, sum + shape[k]);
    }
  }

  lemma {:induction false} TiledPast(shape: Shape, sum: nat, total: nat)
    requires sum >= total
    ensures Tiled(shape, sum, total)
    decreases |shape|
  {
    if shape != map[] {
      assert shape.Keys != {};
      TiledPast(shape - {Least(shape.Keys)}, sum + shape[Least(shape.Keys)], total);
    }
  }

  /** When the chain reaches the total, the first chunk out of place overlaps what precedes it. */
  lemma {:induction false} ClashOverlaps(whole: Shape, shape: Shape, sum: nat, total: nat)
    requires !Tiled(shape, sum, total) && Reach(whole, sum) >= total
    requires forall k :: k in shape ==> k in whole && whole[k] == shape[k]
    requires forall k :: k in whole && k !in shape ==> whole[k] == 0 || k < sum
    ensures var (k, at) := Clash(shape, sum, total); k < at < total
    decreases |shape|
  {
    hide Reach;
    assert shape.Keys != {};
    var k := Least(shape.Keys);
    ReachStep(whole, sum);
    if sum >= total {
      TiledPast(shape, sum, total);
      assert false;
    } else if shape[k] == 0 || k == sum {
      ClashOverlaps(whole, shape - {k}, sum + shape[k], total);
    }
  }

  /** A payload that the table of an untiled shape does not join to. */
  lemma UntiledPayload(shape: Shape, total: nat) returns (payload: bytes)
    requires FitsIn(shape, total) && Reach(shape, 0) >= total && !Tiled(shape, 0, total)
    ensures |payload| == total
    ensures |SortedJoin(Pieces(payload, shape))| >= total
    ensures SortedJoin(Pieces(payload, shape))[..total] != payload
  {
    hide SortedJoin, Reach, Tiled, Clash;
    var (k, at) := Clash(shape, 0, total);
    ClashOverlaps(shape, shape, 0, total);
    payload := seq(total, i => if i == at then 1 else 0);
    ClashInJoin(payload, shape, 0);
    ReachIsChain(payload, shape);
    JoinCoversChain(Pieces(payload, shape), 0);
    var joined := SortedJoin(Pieces(payload, shape));
    assert joined[..total][at] == joined[at] == payload[k] == 0;
    assert payload[at] == 1;
  }

  // ----- runs on truthful traffic

  /** A piece of a payload. */
  datatype Slice = Slice(offset: nat, length: nat)

  /** What a run has come to, as far as the slices alone decide it. */
  datatype Course = Open(shape: Shape) | Clashed | Complete(shape: Shape)

  function Add(total: nat, shape: Shape, s: Slice): Course {
    if s.offset in shape && shape[s.offset] != s.length then Clashed
    else
      var next := shape[s.offset := s.length];
      if Reach(next, 0) >= total then Complete(next) else Open(next)
  }

  function Follow(total: nat, shape: Shape, plan: seq<Option<Slice>>): Course
    decreases |plan|
  {
    if plan == [] then Open(shape)
    else if plan[0].None? then Follow(total, shape, plan[1..])
    else
      match Add(total, shape, plan[0].value)
      case Open(next) => Follow(total, next, plan[1..])
      case ended => ended
  }

  ghost predicate PlanFits(plan: seq<Option<Slice>>, total: nat) {
    forall n :: 0 <= n < |plan| ==> plan[n].Some? ==> plan[n].value.offset + plan[n].value.length <= total
  }

  /** The event carries the slice, under the payload's length and checksum; or nothing of the exchange. */
  predicate Carries(q: Request, payload: bytes, event: Result<Inbound>, slice: Option<Slice>) {
    match slice
    case None => Idle(q, event)
    case Some(s) =>
      && event.Ok? && event.value.Got? && s.offset + s.length <= |payload|
      && var m := event.value.message;
      && IsChunk(q, m) && m.total == |payload| && m.checksum == Checksum(payload)
      && m.offset == s.offset && m.chunk == payload[s.offset..s.offset + s.length]
  }

  ghost predicate Truthful(q: Request, payload: bytes, plan: seq<Option<Slice>>, inbox: Inbox) {
    |inbox| == |plan| && forall n :: 0 <= n < |plan| ==> Carries(q, payload, inbox[n], plan[n])
  }

  /** The state holds the slices of a shape. */
  ghost predicate Holding(st: State, payload: bytes, shape: Shape) {
    && FitsIn(shape, |payload|) && st.chunks == Pieces(payload, shape)
    && (st.declared == Undeclared || st.declared == Declared(|payload|, Checksum(payload)))
  }

  /** What a complete table is answered with. */
  function Answered(payload: bytes, shape: Shape): Verdict
    requires FitsIn(shape, |payload|)
  {
    var joined := SortedJoin(Pieces(payload, shape));
    Settle(if |joined| > |payload| then joined[..|payload|] else joined, Checksum(payload))
  }

  lemma SliceAdmitted(q: Request, st: State, payload: bytes, shape: Shape, event: Result<Inbound>, s: Slice)
    requires |payload| <= MAX_RESPONSE_SIZE
    requires Holding(st, payload, shape) && Carries(q, payload, event, Some(s))
    ensures var m := event.value.message;
            if s.offset in shape && shape[s.offset] != s.length
            then React(q, st, m).verdict == Fail(ConflictingChunk)
            else
              var next := shape[s.offset := s.length];
              && React(q, st, m) == Advance(q, st, m)
              && FitsIn(next, |payload|) && st.chunks[m.offset := m.chunk] == Pieces(payload, next)
  {
    hide Checksum, Advance;
    if s.offset in shape {
      assert |st.chunks[s.offset]| == shape[s.offset];
    }
    if !(s.offset in shape && shape[s.offset] != s.length) {
      var m, next := event.value.message, shape[s.offset := s.length];
      assert st.chunks[m.offset := m.chunk] == Pieces(payload, next);
    }
  }

  lemma SliceStep(q: Request, st: State, payload: bytes, shape: Shape, event: Result<Inbound>, s: Slice)
    requires |payload| <= MAX_RESPONSE_SIZE
    requires Holding(st, payload, shape) && Carries(q, payload, event, Some(s))
    ensures var v := React(q, st, event.value.message).verdict;
            match Add(|payload|, shape, s)
            case Clashed => v == Fail(ConflictingChunk)
            case Open(next) => v.Continue? && Holding(v.next, payload, next)
            case Complete(next) => FitsIn(next, |payload|) && v == Answered(payload, next)
  {
    hide Checksum, SortedJoin, Chain, Settle, React, Pieces, Reach;
    SliceAdmitted(q, st, payload, shape, event, s);
    if !Add(|payload|, shape, s).Clashed? {
      var next := shape[s.offset := s.length];
      ReachIsChain(payload, next);
      if |payload| == 0 {
        PiecesOfNothing(payload, next);
      }
    }
  }

  lemma {:induction false} PiecesOfNothing(payload: bytes, shape: Shape)
    requires payload == [] && FitsIn(shape, 0)
    ensures SortedJoin(Pieces(payload, shape)) == []
    decreases |shape|
  {
    if shape == map[] {
      assert Pieces(payload, shape) == map[];
    } else {
      assert shape.Keys != {};
      JoinStep(payload, shape);
      PiecesOfNothing(payload, shape - {Least(shape.Keys)});
    }
  }

  /** How a run ends, or does not, when the course of its slices is `c`. */
  ghost predicate EndsAs(payload: bytes, c: Course, o: Outcome) {
    match c
    case Open(_) => o.Waiting?
    case Clashed => o == Failed(ConflictingChunk)
    case Complete(shape) =>
      && FitsIn(shape, |payload|)
      && match Answered(payload, shape)
         case Done(response) => o == Returned(response)
         case Fail(failure) => o == Failed(failure)
         case Continue(_) => false
  }

  lemma {:induction false} FollowingRun(q: Request, st: State, payload: bytes, shape: Shape,
                                        plan: seq<Option<Slice>>, inbox: Inbox)
    requires |payload| <= MAX_RESPONSE_SIZE
    requires Holding(st, payload, shape) && Truthful(q, payload, plan, inbox)
    ensures EndsAs(payload, Follow(|payload|, shape, plan), Run(q, st, inbox).outcome)
    decreases |plan|
  {
    hide React, Checksum, Carries, Add, Answered, Holding;
    if plan != [] {
      assert Carries(q, payload, inbox[0], plan[0]);
      assert forall n :: 0 <= n < |plan| - 1 ==> inbox[1..][n] == inbox[n + 1] && plan[1..][n] == plan[n + 1];
      if plan[0].None? {
        IdleHolds(q, st, payload, shape, inbox[0]);
        var next := if inbox[0].value.Got? then React(q, st, inbox[0].value.message).verdict.next else st;
        FollowingRun(q, next, payload, shape, plan[1..], inbox[1..]);
      } else {
        CarriesIsGot(q, payload, inbox[0], plan[0].value);
        SliceStep(q, st, payload, shape, inbox[0], plan[0].value);
        AnsweredEnds(payload, Add(|payload|, shape, plan[0].value));
        var v := React(q, st, inbox[0].value.message).verdict;
        if v.Continue? {
          FollowingRun(q, v.next, payload, Add(|payload|, shape, plan[0].value).shape, plan[1..], inbox[1..]);
        }
      }
    }
  }

  lemma IdleHolds(q: Request, st: State, payload: bytes, shape: Shape, event: Result<Inbound>)
    requires Holding(st, payload, shape) && Carries(q, payload, event, None)
    ensures event.Ok?
    ensures event.value.Got? ==>
              var v := React(q, st, event.value.message).verdict; v.Continue? && Holding(v.next, payload, shape)
  {
    hide Checksum;
  }

  lemma CarriesIsGot(q: Request, payload: bytes, event: Result<Inbound>, s: Slice)
    requires Carries(q, payload, event, Some(s))
    ensures event.Ok? && event.value.Got?
  {}

  lemma AnsweredEnds(payload: bytes, c: Course)
    requires c.Complete? ==> FitsIn(c.shape, |payload|)
    ensures c.Complete? ==> !Answered(payload, c.shape).Continue?
  {}

  /**
   On truthful traffic, cut and overlapping in any way, a run waits until the chain reaches
   the end; it fails where an offset comes again with another length; and at the end it
   answers with the sorted join.
   */
  lemma TruthfulRun(q: Request, payload: bytes, plan: seq<Option<Slice>>, inbox: Inbox)
    requires |payload| <= MAX_RESPONSE_SIZE && Truthful(q, payload, plan, inbox)
    ensures EndsAs(payload, Follow(|payload|, map[], plan), Run(q, Start(q), inbox).outcome)
  {
    hide Checksum;
    assert Pieces(payload, map[]) == map[];
    FollowingRun(q, Start(q), payload, map[], plan, inbox);
  }

  // ----- which shapes are returned

  lemma {:induction false} FollowReaches(total: nat, shape: Shape, plan: seq<Option<Slice>>)
    requires FitsIn(shape, total) && PlanFits(plan, total)
    ensures var c := Follow(total, shape, plan);
            c.Complete? ==> FitsIn(c.shape, total) && Reach(c.shape, 0) >= total
    decreases |plan|
  {
    hide Reach;
    if plan != [] {
      assert forall n :: 0 <= n < |plan| - 1 ==> plan[1..][n] == plan[n + 1];
      if plan[0].None? {
        FollowReaches(total, shape, plan[1..]);
      } else if Add(total, shape, plan[0].value).Open? {
        FollowReaches(total, Add(total, shape, plan[0].value).shape, plan[1..]);
      }
    }
  }

  /** The traffic of a plan for a payload. */
  function Deliveries(q: Request, payload: bytes, plan: seq<Option<Slice>>): (inbox: Inbox)
    requires PlanFits(plan, |payload|)
    ensures Truthful(q, payload, plan, inbox)
  {
    hide Checksum;
    seq(|plan|, n requires 0 <= n < |plan| =>
      if plan[n].None? then Ok(Silent)
      else
        var s := plan[n].value;
        Ok(Got(Message(q.opcode, PULL_ACK, 0, q.transaction, Checksum(payload), |payload|, s.offset,
                       payload[s.offset..s.offset + s.length]))))
  }

  /** Traffic of these slices gives back every payload of the total length. */
  ghost predicate AlwaysReturned(q: Request, total: nat, plan: seq<Option<Slice>>) {
    forall payload: bytes, inbox: Inbox ::
      |payload| == total && Truthful(q, payload, plan, inbox) ==>
        Run(q, Start(q), inbox).outcome == Returned(payload)
  }

  /** Slices are put together rightly for every payload if and only if they complete a tiled shape. */
  lemma TiledExactly(q: Request, total: nat, plan: seq<Option<Slice>>)
    requires total <= MAX_RESPONSE_SIZE && PlanFits(plan, total)
    ensures var c := Follow(total, map[], plan);
            AlwaysReturned(q, total, plan) <==> c.Complete? && Tiled(c.shape, 0, total)
  {
    hide Run, Start, Follow, Tiled, Truthful, PlanFits, EndsAs;
    var c := Follow(total, map[], plan);
    FollowReaches(total, map[], plan);
    if c.Complete? && Tiled(c.shape, 0, total) {
      forall payload: bytes, inbox: Inbox | |payload| == total && Truthful(q, payload, plan, inbox)
        ensures Run(q, Start(q), inbox).outcome == Returned(payload)
      {
        TruthfulRun(q, payload, plan, inbox);
        TiledIsReturned(payload, c.shape, Run(q, Start(q), inbox).outcome);
      }
    } else {
      var payload: bytes;
      if c.Complete? {
        payload := UntiledPayload(c.shape, total);
      } else {
        payload := seq(total, _ => 0);
      }
      var inbox := Deliveries(q, payload, plan);
      TruthfulRun(q, payload, plan, inbox);
      OtherIsNotReturned(payload, c, Run(q, Start(q), inbox).outcome);
    }
  }

  lemma TiledIsReturned(payload: bytes, shape: Shape, o: Outcome)
    requires FitsIn(shape, |payload|) && Reach(shape, 0) >= |payload| && Tiled(shape, 0, |payload|)
    requires EndsAs(payload, Complete(shape), o)
    ensures o == Returned(payload)
  {
    hide Checksum, SortedJoin, Reach, Tiled;
    TiledJoin(payload, shape, 0);
    ReachIsChain(payload, shape);
    JoinCoversChain(Pieces(payload, shape), 0);
    var joined := SortedJoin(Pieces(payload, shape));
    assert payload[..0] + joined == joined;
    assert |joined| == |payload| ==> joined[..|payload|] == joined;
  }

  lemma OtherIsNotReturned(payload: bytes, c: Course, o: Outcome)
    requires EndsAs(payload, c, o)
    requires c.Complete? ==>
               var joined := SortedJoin(Pieces(payload, c.shape));
               |joined| >= |payload| && joined[..|payload|] != payload
    ensures o != Returned(payload)
  {
    hide Checksum, SortedJoin;
  }

  /** Overlapping shapes of both kinds: with a chunk that covers all, and with one that is repeated in the middle. */
  lemma OverlapsOfBothKinds()
    ensures var covered: Shape := map[0 := 4, 2 := 2]; Reach(covered, 0) == 4 && Tiled(covered, 0, 4)
    ensures var repeated: Shape := map[0 := 2, 1 := 1, 2 := 2]; Reach(repeated, 0) == 4 && !Tiled(repeated, 0, 4)
  {
    hide Chain, Tiled, Least, Reach;
    var covered: Shape := map[0 := 4, 2 := 2];
    ReachStep(covered, 0);
    ReachStep(covered, 4);
    LeastIs(0, covered.Keys);
    TiledStep(covered, 0, 4);
    TiledPast(covered - {0}, 4, 4);
    var repeated: Shape := map[0 := 2, 1 := 1, 2 := 2];
    ReachStep(repeated, 0);
    ReachStep(repeated, 2);
    ReachStep(repeated, 4);
    LeastIs(0, repeated.Keys);
    var rest := repeated - {0};
    assert rest.Keys == {1, 2};
    LeastIs(1, rest.Keys);
    TiledStep(repeated, 0, 4);
    TiledStep(rest, 2, 4);
  }
}
