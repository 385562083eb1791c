/**
 What a request under an idempotency key is answered with, told by the history alone: the
 commits, expiries and evictions so far, their times, and the executions that are running.
 */
module IdempotencyHistory {
  import opened Wrappers
  import opened IdempotencyProtocol

  // ----- what the history says

  /** Step `i` committed this result, and up to step `n` it was neither committed anew nor expired nor evicted. */
  ghost predicate HeldUntil(steps: seq<Step>, i: nat, n: nat, k: Key, fp: Fingerprint, result: Payload) {
    && i < n <= |steps|
    && steps[i].event.Committed? && steps[i].event.key == k
    && steps[i].event.fingerprint == fp && steps[i].event.result == result
    && forall m :: i < m < n ==> !CommitsKey(steps[m], k) && k !in steps[m].expired && steps[m].evicted != Some(k)
  }

  /** So it is still, and at the time `now` its time has not run out. */
  ghost predicate LiveFrom(c: Config, states: seq<Store>, steps: seq<Step>, i: nat, now: real,
                           k: Key, fp: Fingerprint, result: Payload)
  {
    HeldUntil(steps, i, |steps|, k, fp, result) && i + 1 < |states| && now < states[i + 1].now + c.ttl
  }

  ghost predicate Live(c: Config, states: seq<Store>, steps: seq<Step>, now: real,
                       k: Key, fp: Fingerprint, result: Payload)
  {
    exists i: nat :: LiveFrom(c, states, steps, i, now, k, fp, result)
  }

  /** An execution of this request is running. */
  ghost predicate Runs(s: Store, k: Key, fp: Fingerprint) {
    exists e :: e in s.running && s.running[e] == Claim(k, fp)
  }

  /** A request with fingerprint `fp` holds the key: it is running, or its result is live. */
  ghost predicate Holding(c: Config, states: seq<Store>, steps: seq<Step>, now: real, k: Key, fp: Fingerprint)
    requires states != []
  {
    Runs(states[|states| - 1], k, fp) || exists result :: Live(c, states, steps, now, k, fp, result)
  }

  ghost predicate HeldByAnother(c: Config, states: seq<Store>, steps: seq<Step>, now: real, k: Key, fp: Fingerprint)
    requires states != []
  {
    exists f :: f != fp && Holding(c, states, steps, now, k, f)
  }

  ghost predicate NothingLive(c: Config, states: seq<Store>, steps: seq<Step>, now: real) {
    forall k, fp, result :: !Live(c, states, steps, now, k, fp, result)
  }

  // ----- completed records and commits

  lemma CommitExpires(c: Config, s: Store, t: Store, step: Step)
    requires Inv(c, s) && Next(c, s, t, step) && step.event.Committed?
    ensures var k := step.event.key;
            k in t.records
            && t.records[k] == Record(step.event.fingerprint, Some(step.event.result), t.now + c.ttl)
  {
    hide AllOwned, Faithful, Bounded, Begin, Release;
    if exec, key, fp, now, d :| Begin(c, s, t, exec, key, fp, now, d, step) {
      BeginIsNoCommit(c, s, t, exec, key, fp, now, d, step);
    } else if exec, result, now :| Commit(c, s, t, exec, result, now, step) {
      ClaimHeld(c, s, exec);
    } else {
      var exec :| Release(s, t, exec, step);
      ReleaseEnds(s, t, exec, step);
    }
  }

  /** A result that is held has its record, expiring as long after its commit as configured. */
  lemma {:induction false} HeldIsRecord(c: Config, states: seq<Store>, steps: seq<Step>, i: nat, n: nat,
                                        k: Key, fp: Fingerprint, result: Payload)
    requires IsRun(c, states, steps) && HeldUntil(steps, i, n, k, fp, result)
    ensures k in states[n].records
    ensures states[n].records[k] == Record(fp, Some(result), states[i + 1].now + c.ttl)
    decreases n
  {
    hide Next, Inv;
    RunInv(c, states, steps, n - 1);
    if n == i + 1 {
      CommitExpires(c, states[i], states[n], steps[i]);
    } else {
      HeldIsRecord(c, states, steps, i, n - 1, k, fp, result);
      CompletedStaysOrLost(c, states[n - 1], states[n], steps[n - 1], k);
    }
  }

  /** A completed record that a step did not commit was there before, and the step neither expired nor evicted it. */
  lemma CompletedBefore(c: Config, s: Store, t: Store, step: Step, k: Key)
    requires Inv(c, s) && Next(c, s, t, step) && !CommitsKey(step, k)
    requires k in t.records && t.records[k].result.Some?
    ensures k in s.records && s.records[k] == t.records[k] && k !in step.expired && step.evicted != Some(k)
  {
    hide Begin, Commit, Release, AllOwned, Faithful, Bounded;
    if exec, key, fp, now, d :| Begin(c, s, t, exec, key, fp, now, d, step) {
      CompletedBeforeBegin(c, s, t, exec, key, fp, now, d, step, k);
    } else if exec, result, now :| Commit(c, s, t, exec, result, now, step) {
      CommitEnds(c, s, t, exec, result, now, step);
      OtherKeys(s.records, t.records, s.running[exec].key, k);
    } else {
      var exec :| Release(s, t, exec, step);
      ReleaseEnds(s, t, exec, step);
      ClaimHeld(c, s, exec);
      ReleasedKeeps(s, t, exec, step, k);
    }
  }

  lemma CompletedBeforeBegin(c: Config, s: Store, t: Store, exec: nat, key: Key, fp: Fingerprint, now: real,
                             d: Decision, step: Step, k: Key)
    requires Begin(c, s, t, exec, key, fp, now, d, step) && k in t.records && t.records[k].result.Some?
    ensures k in s.records && s.records[k] == t.records[k] && k !in step.expired && step.evicted != Some(k)
  {
    hide NoneCompleted, EarliestCompleted;
  }

  lemma ReleasedKeeps(s: Store, t: Store, exec: nat, step: Step, k: Key)
    requires Release(s, t, exec, step) && k in t.records
    ensures k in s.records && s.records[k] == t.records[k]
  {}

  /** The commit that a completed record comes from. */
  lemma {:induction false} RecordIsHeld(c: Config, states: seq<Store>, steps: seq<Step>, n: nat, k: Key)
    returns (i: nat)
    requires IsRun(c, states, steps) && n <= |steps|
    requires k in states[n].records && states[n].records[k].result.Some?
    ensures var r := states[n].records[k];
            && HeldUntil(steps, i, n, k, r.fingerprint, r.result.value)
            && r.expiresAt == states[i + 1].now + c.ttl
    decreases n
  {
    hide Next, Inv;
    var s, t, step := states[n - 1], states[n], steps[n - 1];
    RunInv(c, states, steps, n - 1);
    if CommitsKey(step, k) {
      CommitExpires(c, s, t, step);
      i := n - 1;
    } else {
      CompletedBefore(c, s, t, step, k);
      i := RecordIsHeld(c, states, steps, n - 1, k);
    }
  }

  // ----- the table, told by the history

  /** A live result is a record that the purge leaves, and the other way round. */
  lemma LiveIsRecord(c: Config, states: seq<Store>, steps: seq<Step>, now: real, k: Key, fp: Fingerprint,
                     result: Payload)
    requires IsRun(c, states, steps)
    ensures var records := Purged(states[|steps|].records, now);
            Live(c, states, steps, now, k, fp, result)
            <==> k in records && records[k].fingerprint == fp && records[k].result == Some(result)
  {
    hide Next;
    var records := Purged(states[|steps|].records, now);
    if Live(c, states, steps, now, k, fp, result) {
      var i: nat :| LiveFrom(c, states, steps, i, now, k, fp, result);
      HeldIsRecord(c, states, steps, i, |steps|, k, fp, result);
    }
    if k in records && records[k].fingerprint == fp && records[k].result == Some(result) {
      var i := RecordIsHeld(c, states, steps, |steps|, k);
      assert LiveFrom(c, states, steps, i, now, k, fp, result);
    }
  }

  /** A running execution is a reservation, which no purge removes. */
  lemma RunningIsRecord(c: Config, s: Store, now: real, k: Key, fp: Fingerprint)
    requires Inv(c, s)
    ensures var records := Purged(s.records, now);
            Runs(s, k, fp) <==> k in records && records[k].fingerprint == fp && records[k].result.None?
  {
    var records := Purged(s.records, now);
    if Runs(s, k, fp) {
      var e :| e in s.running && s.running[e] == Claim(k, fp);
      assert Holds(s.records, s.running[e]);
    }
    if k in records && records[k].fingerprint == fp && records[k].result.None? {
      assert Owned(s, k);
      var e :| e in s.running && s.running[e].key == k;
      assert Holds(s.records, s.running[e]);
    }
  }

  lemma HoldingIsRecord(c: Config, states: seq<Store>, steps: seq<Step>, now: real, k: Key, fp: Fingerprint)
    requires IsRun(c, states, steps)
    ensures |states| == |steps| + 1
    ensures var records := Purged(states[|steps|].records, now);
            Holding(c, states, steps, now, k, fp) <==> k in records && records[k].fingerprint == fp
  {
    hide Next, Inv, Purged;
    var records := Purged(states[|steps|].records, now);
    RunInv(c, states, steps, |steps|);
    RunningIsRecord(c, states[|steps|], now, k, fp);
    if k in records && records[k].result.Some? {
      LiveIsRecord(c, states, steps, now, k, fp, records[k].result.value);
    }
    if result :| Live(c, states, steps, now, k, fp, result) {
      LiveIsRecord(c, states, steps, now, k, fp, result);
    }
  }

  // ----- how full the table is

  /** With nothing live the records are the reservations, one for each running execution. */
  lemma {:induction false} CountKeys(running: map<nat, Claim>, keys: set<Key>)
    requires Distinct(running)
    requires forall k :: k in keys <==> exists e :: e in running && running[e].key == k
    ensures |keys| == |running|
    decreases |running|
  {
    if running == map[] {
      assert keys == {};
    } else {
      assert running.Keys != {};
      var e :| e in running;
      var rest, others := running - {e}, keys - {running[e].key};
      assert |rest| == |running| - 1 by {
        assert rest.Keys == running.Keys - {e};
        assert |rest.Keys| == |rest| && |running.Keys| == |running|;
      }
      forall k
        ensures k in others <==> exists f :: f in rest && rest[f].key == k
      {
        if k in others {
          var f :| f in running && running[f].key == k;
          assert f in rest;
        }
        if f :| f in rest && rest[f].key == k {
          assert running[f].key == k && running[e].key != k;
        }
      }
      CountKeys(rest, others);
    }
  }

  lemma OnlyReservations(c: Config, states: seq<Store>, steps: seq<Step>, now: real)
    requires IsRun(c, states, steps)
    ensures |states| == |steps| + 1
    ensures var records := Purged(states[|steps|].records, now);
            && (NothingLive(c, states, steps, now) <==> NoneCompleted(records))
            && (NoneCompleted(records) ==> |records| == |states[|steps|].running|)
  {
    hide Next, Purged, Live;
    var s := states[|steps|];
    var records := Purged(s.records, now);
    RunInv(c, states, steps, |steps|);
    if !NoneCompleted(records) {
      var k :| k in records && records[k].result.Some?;
      LiveIsRecord(c, states, steps, now, k, records[k].fingerprint, records[k].result.value);
    }
    if !NothingLive(c, states, steps, now) {
      var k, fp, result :| Live(c, states, steps, now, k, fp, result);
      LiveIsRecord(c, states, steps, now, k, fp, result);
    }
    if NoneCompleted(records) {
      forall k
        ensures k in records.Keys <==> exists e :: e in s.running && s.running[e].key == k
      {
        if k in records {
          RunningIsRecord(c, s, now, k, records[k].fingerprint);
        }
        if e :| e in s.running && s.running[e].key == k {
          assert s.running[e] == Claim(k, s.running[e].fingerprint);
          RunningIsRecord(c, s, now, k, s.running[e].fingerprint);
        }
      }
      CountKeys(s.running, records.Keys);
    }
  }

  // ----- the answer

  /** The key's result is live, and none that is live was committed before it. */
  ghost predicate EarliestLive(c: Config, states: seq<Store>, steps: seq<Step>, now: real, k: Key) {
    exists i: nat, fp, result :: LiveFrom(c, states, steps, i, now, k, fp, result)
      && forall j: nat, l, f, r :: LiveFrom(c, states, steps, j, now, l, f, r) ==>
           states[i + 1].now <= states[j + 1].now
  }

  /** What is evicted to make room is the earliest live result. */
  lemma EvictsEarliest(c: Config, states: seq<Store>, steps: seq<Step>, after: Table, k: Key, fp: Fingerprint,
                       now: real, d: Decision)
    requires IsRun(c, states, steps) && d.Admit? && d.evicted.Some?
    requires Decides(c, Purged(states[|steps|].records, now), after, k, fp, now, d)
    ensures EarliestLive(c, states, steps, now, d.evicted.value)
  {
    hide Next, Live;
    var records, v := Purged(states[|steps|].records, now), d.evicted.value;
    assert EarliestCompleted(records, v);
    var i := RecordIsHeld(c, states, steps, |steps|, v);
    assert LiveFrom(c, states, steps, i, now, v, records[v].fingerprint, records[v].result.value);
    forall j: nat, l, f, r | LiveFrom(c, states, steps, j, now, l, f, r)
      ensures states[i + 1].now <= states[j + 1].now
    {
      HeldIsRecord(c, states, steps, j, |steps|, l, f, r);
      assert l in records && records[l].result.Some?;
    }
  }

  /** The decision on a request, told by the history. */
  ghost predicate Called(c: Config, states: seq<Store>, steps: seq<Step>, now: real, k: Key, fp: Fingerprint,
                         d: Decision)
    requires states != []
  {
    && (forall result :: d == Replay(result) <==> Live(c, states, steps, now, k, fp, result))
    && (d == Refuse(Conflict) <==> HeldByAnother(c, states, steps, now, k, fp))
    && (d == Refuse(InProgress) <==> Runs(states[|states| - 1], k, fp))
    && (d == Refuse(AtCapacity)
        <==> && (forall f :: !Holding(c, states, steps, now, k, f))
             && |states[|states| - 1].running| >= c.maxRecords && NothingLive(c, states, steps, now))
    && (d.Admit? && d.evicted.Some? ==> EarliestLive(c, states, steps, now, d.evicted.value))
  }

  /** The decision on the purged table, in its own terms. */
  lemma DecidedByTable(c: Config, records: Table, after: Table, k: Key, fp: Fingerprint, now: real, d: Decision)
    requires Decides(c, records, after, k, fp, now, d)
    ensures d.Replay? <==> k in records && records[k].fingerprint == fp && records[k].result.Some?
    ensures d.Replay? ==> records[k].result == Some(d.result)
    ensures d == Refuse(Conflict) <==> k in records && records[k].fingerprint != fp
    ensures d == Refuse(InProgress) <==> k in records && records[k].fingerprint == fp && records[k].result.None?
    ensures d == Refuse(AtCapacity) <==> k !in records && |records| >= c.maxRecords && NoneCompleted(records)
  {
    hide NoneCompleted, EarliestCompleted;
  }

  lemma HoldersOf(c: Config, states: seq<Store>, steps: seq<Step>, now: real, k: Key, fp: Fingerprint)
    requires IsRun(c, states, steps) && states != []
    ensures var records := Purged(states[|steps|].records, now);
            && (HeldByAnother(c, states, steps, now, k, fp) <==> k in records && records[k].fingerprint != fp)
            && ((forall f :: !Holding(c, states, steps, now, k, f)) <==> k !in records)
  {
    hide Next, Purged, Holding;
    var records := Purged(states[|steps|].records, now);
    forall f
      ensures Holding(c, states, steps, now, k, f) <==> k in records && records[k].fingerprint == f
    {
      HoldingIsRecord(c, states, steps, now, k, f);
    }
    if k in records {
      assert Holding(c, states, steps, now, k, records[k].fingerprint);
    }
  }

  /** Every request is answered as its history calls for, and by nothing else. */
  lemma Answers(c: Config, states: seq<Store>, steps: seq<Step>, after: Table, k: Key, fp: Fingerprint,
                now: real, d: Decision)
    requires IsRun(c, states, steps) && states != []
    requires Decides(c, Purged(states[|steps|].records, now), after, k, fp, now, d)
    ensures Called(c, states, steps, now, k, fp, d)
  {
    hide Next, Inv, Purged, Live, Runs, NothingLive, Holding, HeldByAnother, EarliestLive, Decides, NoneCompleted;
    var s := states[|steps|];
    var records := Purged(s.records, now);
    RunInv(c, states, steps, |steps|);
    OnlyReservations(c, states, steps, now);
    DecidedByTable(c, records, after, k, fp, now, d);
    HoldersOf(c, states, steps, now, k, fp);
    RunningIsRecord(c, s, now, k, fp);
    forall result
      ensures d == Replay(result) <==> Live(c, states, steps, now, k, fp, result)
    {
      LiveIsRecord(c, states, steps, now, k, fp, result);
    }
    if d.Admit? && d.evicted.Some? {
      EvictsEarliest(c, states, steps, after, k, fp, now, d);
    }
  }

  lemma LiveIsAnswered(c: Config, states: seq<Store>, steps: seq<Step>, now: real, k: Key, fp: Fingerprint,
                       result: Payload, d: Decision)
    requires states != [] && Called(c, states, steps, now, k, fp, d) && Live(c, states, steps, now, k, fp, result)
    ensures d == Replay(result)
  {
    hide Live, HeldByAnother, Runs, Holding, NothingLive, EarliestLive;
  }

  /** A result that was just committed is live. */
  lemma LiveNow(c: Config, states: seq<Store>, steps: seq<Step>, i: nat, now: real, k: Key, fp: Fingerprint,
                result: Payload)
    requires LiveFrom(c, states, steps, i, now, k, fp, result)
    ensures Live(c, states, steps, now, k, fp, result)
  {}
}
