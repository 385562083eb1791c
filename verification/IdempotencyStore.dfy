/**
 The idempotency store with its dictionaries as objects: each locked section of `execute`
 is proved against the protocol, and no dictionary a caller holds is one the store keeps.
 */
module IdempotencyStore {
  import opened Wrappers
  import opened IdempotencyProtocol
  import opened IdempotencyHistory

  /** A result dictionary, updated in place by whoever holds it. */
  class Dictionary {
    var entries: Payload

    constructor (entries: Payload)
      ensures this.entries == entries
    {
      this.entries := entries;
    }

    /** `result[name] = value`. */
    method Assign(name: string, value: string)
      modifies this
      ensures entries == old(entries)[name := value]
    {
      entries := entries[name := value];
    }
  }

  datatype Entry = Entry(fingerprint: Fingerprint, result: Dictionary?, expiresAt: real)

  datatype Answer = Refusing(refusal: Refusal) | Replaying(result: Dictionary) | Admitting

  /** The answer `a` carries out the decision `d`. */
  ghost predicate Renders(a: Answer, d: Decision)
    reads if a.Replaying? then {a.result} else {}
  {
    match a
    case Refusing(refusal) => d == Refuse(refusal)
    case Replaying(result) => d == Replay(result.entries)
    case Admitting => d.Admit?
  }

  class InMemoryIdempotencyStore {
    const config: Config
    var entries: map<Key, Entry>

    /** The dictionaries the store keeps. */
    ghost function Kept(): set<Dictionary>
      reads this
    {
      set k | k in entries && entries[k].result != null :: entries[k].result
    }

    /** The table as the protocol sees it. */
    ghost function Table(): Table
      reads this, Kept()
    {
      map k | k in entries ::
        Record(entries[k].fingerprint,
               if entries[k].result == null then None else Some(entries[k].result.entries),
               entries[k].expiresAt)
    }

    constructor (config: Config)
      ensures this.config == config && Table() == map[] && Kept() == {}
    {
      this.config := config;
      entries := map[];
    }

    lemma TableKeys()
      ensures Table().Keys == entries.Keys && |Table()| == |entries|
    {
      assert Table().Keys == entries.Keys;
      assert |Table().Keys| == |entries.Keys|;
    }

    /** `_purge`. */
    method Purge(now: real)
      modifies this`entries
      ensures Table() == Purged(old(Table()), now)
      ensures Kept() <= old(Kept())
    {
      var expired := set k | k in entries && entries[k].result != null && entries[k].expiresAt <= now;
      assert expired == Expired(Table(), now);
      var left := expired;
      while left != {}
        invariant left <= expired
        invariant entries == old(entries) - (expired - left)
        decreases left
      {
        var key :| key in left;
        entries := entries - {key};
        left := left - {key};
        assert expired - left == (expired - (left + {key})) + {key};
      }
      assert expired - left == expired;
    }

    lemma EarliestExists(keys: set<Key>)
      requires keys != {} && forall k :: k in keys ==> k in entries
      ensures exists k :: Earliest(keys, k)
    {
      var k :| k in keys;
      if keys - {k} == {} {
        assert keys == {k};
        assert Earliest(keys, k);
      } else {
        EarliestExists(keys - {k});
        var m :| Earliest(keys - {k}, m);
        var first := if entries[k].expiresAt < entries[m].expiresAt then k else m;
        assert forall j :: j in keys ==> j == k || j in keys - {k};
        assert Earliest(keys, first);
      }
    }

    predicate Earliest(keys: set<Key>, k: Key)
      requires forall j :: j in keys ==> j in entries
      reads this
    {
      k in keys && forall j :: j in keys ==> entries[k].expiresAt <= entries[j].expiresAt
    }

    /** Removes an earliest-expiring completed record, if there is a completed one. */
    method Evict() returns (evicted: Option<Key>)
      modifies this`entries
      ensures evicted.None? ==> NoneCompleted(old(Table())) && entries == old(entries)
      ensures evicted.Some? ==> EarliestCompleted(old(Table()), evicted.value) && !NoneCompleted(old(Table()))
      ensures Table() == old(Table()) - Chosen(evicted)
      ensures Kept() <= old(Kept())
    {
      var completed := set k | k in entries && entries[k].result != null;
      assert forall k :: k in Table() && Table()[k].result.Some? <==> k in completed;
      if completed == {} {
        return None;
      }
      EarliestExists(completed);
      var oldest :| Earliest(completed, oldest);
      assert oldest in completed && EarliestCompleted(Table(), oldest);
      entries := entries - {oldest};
      return Some(oldest);
    }

    /** Answers from the record under `key`, with a copy of its result. */
    method Recall(key: Key, fingerprint: Fingerprint) returns (a: Answer)
      requires key in entries
      ensures Table() == old(Table())
      ensures Renders(a, OnRecord(Table()[key], fingerprint))
      ensures a.Replaying? ==> fresh(a.result)
    {
      var existing := entries[key];
      if existing.fingerprint != fingerprint {
        return Refusing(Conflict);
      }
      if existing.result == null {
        return Refusing(InProgress);
      }
      var copy := new Dictionary(existing.result.entries);
      return Replaying(copy);
    }

    /** The first locked section of `execute`. */
    method Begin(key: Key, fingerprint: Fingerprint, now: real) returns (a: Answer, ghost d: Decision)
      modifies this`entries
      ensures Decides(config, Purged(old(Table()), now), Table(), key, fingerprint, now, d)
      ensures Renders(a, d)
      ensures a.Replaying? ==> fresh(a.result)
      ensures Kept() <= old(Kept())
    {
      hide NoneCompleted, EarliestCompleted, OnRecord, Purged, Table, Kept;
      Purge(now);
      ghost var purged := Table();
      TableKeys();
      if key in entries {
        a := Recall(key, fingerprint);
        return a, OnRecord(purged[key], fingerprint);
      }
      var evicted := None;
      assert purged - {} == purged;
      if |entries| >= config.maxRecords {
        evicted := Evict();
        if evicted.None? {
          assert Table() == purged - {};
          return Refusing(AtCapacity), Refuse(AtCapacity);
        }
      }
      assert Table() == purged - Chosen(evicted);
      Reserve(key, fingerprint, now);
      return Admitting, Admit(evicted);
    }

    method Reserve(key: Key, fingerprint: Fingerprint, now: real)
      modifies this`entries
      ensures Table() == old(Table())[key := Record(fingerprint, None, now + config.ttl)]
      ensures Kept() <= old(Kept())
    {
      entries := entries[key := Entry(fingerprint, null, now + config.ttl)];
    }

    /** The locked section after the operation returned `outcome`; its copy is what the store keeps. */
    method Commit(key: Key, fingerprint: Fingerprint, outcome: Dictionary, now: real) returns (result: Dictionary)
      modifies this`entries
      ensures Table() == old(Table())[key := Record(fingerprint, Some(outcome.entries), now + config.ttl)]
      ensures fresh(result) && result.entries == outcome.entries
      ensures fresh(Kept() - old(Kept())) && result !in Kept()
    {
      var copy := new Dictionary(outcome.entries);
      result := new Dictionary(copy.entries);
      entries := entries[key := Entry(fingerprint, copy, now + config.ttl)];
    }

    /** The locked section after the operation raised. */
    method Release(key: Key, fingerprint: Fingerprint)
      modifies this`entries
      ensures var before := old(Table());
              Table() == if key in before && before[key].fingerprint == fingerprint then before - {key} else before
      ensures Kept() <= old(Kept())
    {
      if key in entries && entries[key].fingerprint == fingerprint {
        entries := entries - {key};
      }
    }
  }

  /** The route handler after an execution: what it writes into the dictionary it got never reaches the store. */
  method AnswerExecuted(store: InMemoryIdempotencyStore, key: Key, fingerprint: Fingerprint,
                        outcome: Dictionary, now: real)
    returns (result: Dictionary)
    modifies store`entries
    ensures store.Table()
         == old(store.Table())[key := Record(fingerprint, Some(outcome.entries), now + store.config.ttl)]
    ensures result.entries == outcome.entries["idempotency_replayed" := "false"]
    ensures outcome.entries == old(outcome.entries)
  {
    result := store.Commit(key, fingerprint, outcome, now);
    result.Assign("idempotency_replayed", "false");
  }

  /** The route handler on a replay: it marks its own copy, and the store's table is the decided one. */
  method AnswerReplayed(store: InMemoryIdempotencyStore, key: Key, fingerprint: Fingerprint, now: real)
    returns (a: Answer, ghost d: Decision)
    modifies store`entries
    ensures Decides(store.config, Purged(old(store.Table()), now), store.Table(), key, fingerprint, now, d)
    ensures a.Replaying? ==> d.Replay? && a.result.entries == d.result["idempotency_replayed" := "true"]
  {
    a, d := store.Begin(key, fingerprint, now);
    if a.Replaying? {
      ghost var before := store.Table();
      a.result.Assign("idempotency_replayed", "true");
      assert store.Table() == before;
    }
  }

  // ----- whole histories of the store object

  lemma RunExtends(c: Config, states: seq<Store>, steps: seq<Step>, t: Store, step: Step)
    requires IsRun(c, states, steps) && Next(c, states[|steps|], t, step)
    ensures IsRun(c, states + [t], steps + [step])
  {
    hide Next;
    var states', steps' := states + [t], steps + [step];
    forall i | 0 <= i < |steps'|
      ensures Next(c, states'[i], states'[i + 1], steps'[i])
    {
      if i < |steps| {
        assert states'[i] == states[i] && states'[i + 1] == states[i + 1] && steps'[i] == steps[i];
      }
    }
  }

  function BeginStep(s: Store, exec: nat, key: Key, fp: Fingerprint, now: real, d: Decision): Step {
    Step(match d
         case Refuse(refusal) => Refused(key, refusal)
         case Replay(result) => Replayed(key, fp, result)
         case Admit(_) => Reserved(exec, key),
         Expired(s.records, now), if d.Admit? then d.evicted else None)
  }

  lemma BeginExtends(c: Config, states: seq<Store>, steps: seq<Step>, exec: nat, key: Key, fp: Fingerprint,
                     now: real, d: Decision, after: Table)
    returns (t: Store)
    requires IsRun(c, states, steps)
    requires now >= states[|steps|].now && exec !in states[|steps|].running
    requires Decides(c, Purged(states[|steps|].records, now), after, key, fp, now, d)
    ensures IsRun(c, states + [t], steps + [BeginStep(states[|steps|], exec, key, fp, now, d)])
    ensures t.records == after && t.now == now
    ensures var running := states[|steps|].running;
            t.running == if d.Admit? then running[exec := Claim(key, fp)] else running
  {
    hide IsRun, Decides, Expired, Purged;
    RunLength(c, states, steps);
    var s := states[|steps|];
    t := Store(after, if d.Admit? then s.running[exec := Claim(key, fp)] else s.running, now, s.committed);
    var step := BeginStep(s, exec, key, fp, now, d);
    assert IdempotencyProtocol.Begin(c, s, t, exec, key, fp, now, d, step);
    RunExtends(c, states, steps, t, step);
  }

  lemma CommitExtends(c: Config, states: seq<Store>, steps: seq<Step>, exec: nat, result: Payload, now: real)
    returns (t: Store)
    requires IsRun(c, states, steps)
    requires now >= states[|steps|].now && exec in states[|steps|].running
    ensures var s := states[|steps|];
            var claim := s.running[exec];
            && IsRun(c, states + [t], steps + [Step(Committed(exec, claim.key, claim.fingerprint, result), {}, None)])
            && t.records == s.records[claim.key := Record(claim.fingerprint, Some(result), now + c.ttl)]
            && t.running == s.running - {exec} && t.now == now
  {
    hide IsRun;
    RunLength(c, states, steps);
    var s := states[|steps|];
    var claim := s.running[exec];
    t := Store(s.records[claim.key := Record(claim.fingerprint, Some(result), now + c.ttl)], s.running - {exec}, now,
               s.committed[claim.key := (claim.fingerprint, result)]);
    var step := Step(Committed(exec, claim.key, claim.fingerprint, result), {}, None);
    assert IdempotencyProtocol.Commit(c, s, t, exec, result, now, step);
    RunExtends(c, states, steps, t, step);
  }

  /** On a run the record that a failing execution removes is its own. */
  lemma ReleaseExtends(c: Config, states: seq<Store>, steps: seq<Step>, exec: nat)
    returns (t: Store)
    requires IsRun(c, states, steps) && exec in states[|steps|].running
    ensures var s := states[|steps|];
            var claim := s.running[exec];
            && IsRun(c, states + [t], steps + [Step(Released(exec, claim.key), {}, None)])
            && t.records == s.records - {claim.key} && t.running == s.running - {exec} && t.now == s.now
            && claim.key in s.records && s.records[claim.key].fingerprint == claim.fingerprint
  {
    hide IsRun, Inv;
    RunLength(c, states, steps);
    var s := states[|steps|];
    var claim := s.running[exec];
    t := s.(records := s.records - {claim.key}, running := s.running - {exec});
    var step := Step(Released(exec, claim.key), {}, None);
    RunInv(c, states, steps, |steps|);
    ClaimHeld(c, s, exec);
    assert IdempotencyProtocol.Release(s, t, exec, step);
    RunExtends(c, states, steps, t, step);
  }

  /**
   The store with the history of its locked sections, one step each, and the dictionaries
   that callers hold: the history is a run of the protocol, and no caller holds what is kept.
   */
  class RecordedStore {
    const store: InMemoryIdempotencyStore
    ghost var states: seq<Store>
    ghost var steps: seq<Step>
    /** Results given to callers, and the dictionaries that operations returned. */
    ghost var handed: set<Dictionary>

    ghost predicate Valid()
      reads this, store, store.Kept()
    {
      && |states| == |steps| + 1
      && IsRun(store.config, states, steps) && states[|steps|].records == store.Table()
      && handed !! store.Kept()
    }

    ghost function Present(): Store
      requires states != []
      reads this
    {
      states[|states| - 1]
    }

    constructor (config: Config)
      ensures Valid() && fresh(store) && store.config == config
      ensures states == [Init()] && steps == [] && handed == {} && store.Kept() == {}
    {
      store := new InMemoryIdempotencyStore(config);
      states, steps, handed := [Init()], [], {};
    }

    /** The history has one more step, which tells `event`. */
    twostate predicate Records(event: Event)
      reads this
    {
      |steps| == |old(steps)| + 1 && old(steps) <= steps && old(states) <= states && steps[|old(steps)|].event == event
    }

    /** The latest commit under the key before the last step was of this fingerprint and result. */
    ghost predicate LastCommitted(key: Key, fingerprint: Fingerprint, result: Payload)
      reads this
    {
      exists i: nat :: LastCommittedAt(i, key, fingerprint, result)
    }

    ghost predicate LastCommittedAt(i: nat, key: Key, fingerprint: Fingerprint, result: Payload)
      reads this
    {
      steps != [] && LastCommit(steps, |steps| - 1, i, key, fingerprint, result)
    }

    /**
     Execution `exec` takes the first locked section. It is answered as the history before
     calls for: `d` is that answer, and `a` renders it.
     */
    method Begin(ghost exec: nat, key: Key, fingerprint: Fingerprint, now: real) returns (a: Answer, ghost d: Decision)
      requires Valid() && now >= Present().now && exec !in Present().running
      modifies this, store`entries
      ensures Valid() && Present().now == now && store.Kept() <= old(store.Kept())
      ensures a.Refusing? ==> Records(Refused(key, a.refusal))
      ensures a.Replaying? ==> fresh(a.result) && Records(Replayed(key, fingerprint, a.result.entries))
      ensures a.Replaying? ==> LastCommitted(key, fingerprint, a.result.entries)
      ensures a.Admitting? ==> Records(Reserved(exec, key))
      ensures var running := old(Present().running);
              Present().running == if a.Admitting? then running[exec := Claim(key, fingerprint)] else running
      ensures handed == old(handed) + if a.Replaying? then {a.result} else {}
      ensures Renders(a, d) && Called(store.config, old(states), old(steps), now, key, fingerprint, d)
    {
      hide Decides, Expired, IsRun, Purged, LastCommit, Called;
      ghost var s := Present();
      a, d := store.Begin(key, fingerprint, now);
      Answers(store.config, states, steps, store.Table(), key, fingerprint, now, d);
      ghost var t := BeginExtends(store.config, states, steps, exec, key, fingerprint, now, d, store.Table());
      states, steps := states + [t], steps + [BeginStep(s, exec, key, fingerprint, now, d)];
      if a.Replaying? {
        handed := handed + {a.result};
        ghost var i := ReplayIsLastCommit(store.config, states, steps, |steps| - 1);
        assert LastCommittedAt(i, key, fingerprint, a.result.entries);
      }
    }

    /** Execution `exec`, which holds `key`, stores its result. */
    method Commit(ghost exec: nat, key: Key, fingerprint: Fingerprint, outcome: Dictionary, now: real)
      returns (result: Dictionary)
      requires Valid() && now >= Present().now
      requires exec in Present().running && Present().running[exec] == Claim(key, fingerprint)
      modifies this, store`entries
      ensures Valid() && Present().now == now && fresh(store.Kept() - old(store.Kept()))
      ensures Present().running == old(Present().running) - {exec}
      ensures fresh(result) && result.entries == outcome.entries
      ensures Records(Committed(exec, key, fingerprint, outcome.entries))
      ensures handed == old(handed) + {result} + if outcome in old(store.Kept()) then {} else {outcome}
    {
      hide IsRun, store.Table, store.Kept;
      ghost var own := if outcome in store.Kept() then {} else {outcome};
      ghost var t := CommitExtends(store.config, states, steps, exec, outcome.entries, now);
      result := store.Commit(key, fingerprint, outcome, now);
      ghost var step := Step(Committed(exec, key, fingerprint, outcome.entries), {}, None);
      states, steps, handed := states + [t], steps + [step], handed + {result} + own;
    }

    /** Execution `exec`, which holds `key`, failed. */
    method Release(ghost exec: nat, key: Key, fingerprint: Fingerprint)
      requires Valid()
      requires exec in Present().running && Present().running[exec] == Claim(key, fingerprint)
      modifies this, store`entries
      ensures Valid() && Present().now == old(Present().now) && store.Kept() <= old(store.Kept())
      ensures Present().running == old(Present().running) - {exec}
      ensures Records(Released(exec, key))
      ensures store.Table() == old(store.Table()) - {key}
      ensures handed == old(handed)
    {
      hide IsRun;
      ghost var t := ReleaseExtends(store.config, states, steps, exec);
      store.Release(key, fingerprint);
      states, steps := states + [t], steps + [Step(Released(exec, key), {}, None)];
    }

    /** A caller writes into a dictionary it holds: neither the table nor the history notices. */
    method Scribble(d: Dictionary, name: string, value: string)
      requires Valid() && d in handed
      modifies d
      ensures d.entries == old(d.entries)[name := value]
      ensures Valid() && store.Table() == old(store.Table())
    {
      d.Assign(name, value);
    }
  }

  /**
   Two requests under one key, the first of which is executed. Whatever its caller, and the
   operation, do to their dictionaries in between: the second is replayed as long as the first
   has not expired, and a replay answers with the result as it was.
   */
  method ExecuteThenReplay(r: RecordedStore, ghost first: nat, ghost second: nat, key: Key, fingerprint: Fingerprint,
                           outcome: Dictionary, begun: real, done: real, again: real, name: string, value: string)
    returns (a: Answer, b: Answer)
    requires r.Valid() && r.Present().now <= begun <= done <= again
    requires first !in r.Present().running && second !in r.Present().running && first != second
    requires outcome !in r.store.Kept()
    modifies r, r.store`entries, outcome
    ensures r.Valid()
    ensures a.Admitting? && again < done + r.store.config.ttl ==> b.Replaying?
    ensures a.Admitting? && b.Replaying? ==> b.result.entries == old(outcome.entries)
  {
    hide IsRun, Decides, Called, Live;
    ghost var d;
    a, d := r.Begin(first, key, fingerprint, begun);
    b := a;
    if a.Admitting? {
      ghost var n := |r.steps|;
      var result := r.Commit(first, key, fingerprint, outcome, done);
      assert CommitsKey(r.steps[n], key);
      r.Scribble(result, name, value);
      r.Scribble(outcome, name, value);
      ghost var result0 := old(outcome.entries);
      ghost var c, states, steps := r.store.config, r.states, r.steps;
      if again < done + c.ttl {
        LiveNow(c, states, steps, n, again, key, fingerprint, result0);
      }
      b, d := r.Begin(second, key, fingerprint, again);
      if again < done + c.ttl {
        LiveIsAnswered(c, states, steps, again, key, fingerprint, result0, d);
      }
      if b.Replaying? {
        ghost var i: nat :| r.LastCommittedAt(i, key, fingerprint, b.result.entries);
        assert i == n;
      }
    }
  }

  lemma RunLength(c: Config, states: seq<Store>, steps: seq<Step>)
    requires IsRun(c, states, steps)
    ensures |states| == |steps| + 1
  {}
}
