/**
 The idempotency store as a transition system: any number of executions interleave at the
 points where they hold the store's lock. An execution begins under the lock, runs its
 operation without it, and commits or releases under it again.
 */
module IdempotencyProtocol {
  import opened Wrappers

  type Key = string
  type Fingerprint = string
  type Payload = map<string, string>

  datatype Record = Record(fingerprint: Fingerprint, result: Option<Payload>, expiresAt: real)

  type Table = map<Key, Record>

  datatype Config = Config(ttl: real, maxRecords: int)

  /** What an execution that is running its operation holds on to. */
  datatype Claim = Claim(key: Key, fingerprint: Fingerprint)

  datatype Store = Store(
    records: Table,
    running: map<nat, Claim>,
    now: real,
    /** Ghost history: what was last committed under each key. */
    committed: map<Key, (Fingerprint, Payload)>)

  datatype Refusal = Conflict | InProgress | AtCapacity

  /** What happens under the lock, and what it removes on the way. */
  datatype Event =
    | Replayed(key: Key, fingerprint: Fingerprint, result: Payload)
    | Refused(key: Key, refusal: Refusal)
    | Reserved(exec: nat, key: Key)
    | Committed(exec: nat, key: Key, fingerprint: Fingerprint, result: Payload)
    | Released(exec: nat, key: Key)

  datatype Step = Step(event: Event, expired: set<Key>, evicted: Option<Key>)

  // ----- the steps

  predicate Stale(r: Record, now: real) {
    r.result.Some? && r.expiresAt <= now
  }

  function Expired(records: Table, now: real): set<Key> {
    set k | k in records && Stale(records[k], now)
  }

  /** `_purge`. */
  function Purged(records: Table, now: real): Table {
    records - Expired(records, now)
  }

  /** A completed record that expires no later than any other completed one. */
  ghost predicate EarliestCompleted(records: Table, k: Key) {
    && k in records && records[k].result.Some?
    && forall j :: j in records && records[j].result.Some? ==> records[k].expiresAt <= records[j].expiresAt
  }

  ghost predicate NoneCompleted(records: Table) {
    forall k :: k in records ==> records[k].result.None?
  }

  /** What the first locked section of `execute` decides. */
  datatype Decision = Refuse(refusal: Refusal) | Replay(result: Payload) | Admit(evicted: Option<Key>)

  /** The decision when there is a record under the key. */
  function OnRecord(r: Record, fp: Fingerprint): Decision {
    if r.fingerprint != fp then Refuse(Conflict)
    else if r.result.None? then Refuse(InProgress)
    else Replay(r.result.value)
  }

  /** The decision on the purged table `records`, and the table it leaves. */
  ghost predicate Decides(c: Config, records: Table, after: Table, key: Key, fp: Fingerprint, now: real, d: Decision) {
    if key in records then
      && after == records
      && d == OnRecord(records[key], fp)
    else if |records| >= c.maxRecords && NoneCompleted(records) then
      after == records && d == Refuse(AtCapacity)
    else
      && d.Admit?
      && (if |records| >= c.maxRecords then d.evicted.Some? && EarliestCompleted(records, d.evicted.value)
          else d.evicted.None?)
      && after == (records - Chosen(d.evicted))[key := Record(fp, None, now + c.ttl)]
  }

  function Chosen(k: Option<Key>): set<Key> {
    if k.Some? then {k.value} else {}
  }

  /** The first locked section of `execute`, at time `now`, for execution `exec`. */
  ghost predicate Begin(c: Config, s: Store, t: Store, exec: nat, key: Key, fp: Fingerprint, now: real,
                        d: Decision, step: Step)
  {
    && now >= s.now && exec !in s.running
    && Decides(c, Purged(s.records, now), t.records, key, fp, now, d)
    && t.now == now && t.committed == s.committed
    && t.running == (if d.Admit? then s.running[exec := Claim(key, fp)] else s.running)
    && step == Step(match d
                    case Refuse(refusal) => Refused(key, refusal)
                    case Replay(result) => Replayed(key, fp, result)
                    case Admit(_) => Reserved(exec, key),
                    Expired(s.records, now), if d.Admit? then d.evicted else None)
  }

  /** The locked section after the operation returned `result`. */
  ghost predicate Commit(c: Config, s: Store, t: Store, exec: nat, result: Payload, now: real, step: Step) {
    && now >= s.now && exec in s.running
    && var claim := s.running[exec];
    && t == Store(s.records[claim.key := Record(claim.fingerprint, Some(result), now + c.ttl)],
                  s.running - {exec}, now, s.committed[claim.key := (claim.fingerprint, result)])
    && step == Step(Committed(exec, claim.key, claim.fingerprint, result), {}, None)
  }

  /** The locked section after the operation raised. */
  ghost predicate Release(s: Store, t: Store, exec: nat, step: Step) {
    && exec in s.running
    && var claim := s.running[exec];
    && var mine := claim.key in s.records && s.records[claim.key].fingerprint == claim.fingerprint;
    && t == s.(records := if mine then s.records - {claim.key} else s.records, running := s.running - {exec})
    && step == Step(Released(exec, claim.key), {}, None)
  }

  ghost predicate Next(c: Config, s: Store, t: Store, step: Step) {
    || (exists exec, key, fp, now, d :: Begin(c, s, t, exec, key, fp, now, d, step))
    || (exists exec, result, now :: Commit(c, s, t, exec, result, now, step))
    || (exists exec :: Release(s, t, exec, step))
  }

  function Init(): Store {
    Store(map[], map[], 0.0, map[])
  }

  // ----- the invariant

  /** Reservations and running executions match one to one. */
  ghost predicate Matched(s: Store) {
    Held(s) && Distinct(s.running) && AllOwned(s)
  }

  ghost predicate Held(s: Store) {
    forall e :: e in s.running ==> Holds(s.records, s.running[e])
  }

  ghost predicate Distinct(running: map<nat, Claim>) {
    forall e, f :: e in running && f in running && e != f ==> running[e].key != running[f].key
  }

  ghost predicate AllOwned(s: Store) {
    forall k :: k in s.records && s.records[k].result.None? ==> Owned(s, k)
  }

  /** Completed records replay the last commit under their key. */
  ghost predicate Faithful(s: Store) {
    forall k :: k in s.records && s.records[k].result.Some? ==> Last(s, k)
  }

  predicate Bounded(c: Config, s: Store) {
    |s.records| <= c.maxRecords || s.records == map[]
  }

  ghost predicate Inv(c: Config, s: Store) {
    Matched(s) && Faithful(s) && Bounded(c, s)
  }

  predicate Holds(records: Table, claim: Claim) {
    && claim.key in records && records[claim.key].result.None?
    && records[claim.key].fingerprint == claim.fingerprint
  }

  ghost predicate Owned(s: Store, k: Key) {
    exists e :: e in s.running && s.running[e].key == k
  }

  predicate Last(s: Store, k: Key)
    requires k in s.records && s.records[k].result.Some?
  {
    k in s.committed && s.committed[k] == (s.records[k].fingerprint, s.records[k].result.value)
  }

  lemma InitInv(c: Config)
    ensures Inv(c, Init())
  {}

  lemma {:induction false} SubsetSize(a: set<Key>, b: set<Key>)
    requires a <= b
    ensures |a| <= |b|
  {
    assert a + (b - a) == b;
  }

  /** Removing completed records disturbs nobody. */
  lemma RemovalKeepsInv(c: Config, s: Store, gone: set<Key>, now: real)
    requires Inv(c, s)
    requires forall k :: k in gone && k in s.records ==> s.records[k].result.Some?
    ensures Inv(c, s.(records := s.records - gone, now := now))
  {
    var t := s.(records := s.records - gone, now := now);
    assert t.running == s.running;
    assert AllOwned(t) by {
      forall k | k in t.records && t.records[k].result.None?
        ensures Owned(t, k)
      {
        assert Owned(s, k);
      }
    }
    forall e | e in t.running
      ensures Holds(t.records, t.running[e])
    {
      RemovalKeepsHold(s.records, gone, s.running[e]);
    }
    assert Faithful(t) by {
      forall k | k in t.records && t.records[k].result.Some?
        ensures Last(t, k)
      {
        assert Last(s, k);
      }
    }
    assert t.records.Keys == s.records.Keys - gone;
    SubsetSize(t.records.Keys, s.records.Keys);
  }

  lemma RemovalKeepsHold(records: Table, gone: set<Key>, claim: Claim)
    requires Holds(records, claim)
    requires forall k :: k in gone && k in records ==> records[k].result.Some?
    ensures Holds(records - gone, claim)
  {}

  lemma ExpiredCompleted(records: Table, now: real)
    ensures forall k :: k in Expired(records, now) ==> k in records && records[k].result.Some?
  {}

  lemma InvBounded(c: Config, s: Store)
    requires Inv(c, s)
    ensures Bounded(c, s)
  {}

  lemma RefusedUnchanged(c: Config, records: Table, after: Table, key: Key, fp: Fingerprint, now: real, d: Decision)
    requires Decides(c, records, after, key, fp, now, d) && !d.Admit?
    ensures after == records
  {}

  lemma BeginKeepsInv(c: Config, s: Store, t: Store, exec: nat, key: Key, fp: Fingerprint, now: real,
                      d: Decision, step: Step)
    requires Inv(c, s) && Begin(c, s, t, exec, key, fp, now, d, step)
    ensures Inv(c, t)
  {
    hide Inv, Decides, Expired;
    ExpiredCompleted(s.records, now);
    RemovalKeepsInv(c, s, Expired(s.records, now), now);
    var p := s.(records := Purged(s.records, now), now := now);
    if d.Admit? {
      AdmittedWithRoom(c, p.records, t.records, key, fp, now, d);
      var q := p.(records := p.records - Chosen(d.evicted), now := now);
      RemovalKeepsInv(c, p, Chosen(d.evicted), now);
      RoomForOne(c, p, d.evicted) by { InvBounded(c, p); }
      ReserveKeepsInv(c, q, t, exec, key, fp, now);
    } else {
      RefusedUnchanged(c, p.records, t.records, key, fp, now, d);
      assert t == p;
    }
  }

  lemma AdmittedWithRoom(c: Config, records: Table, after: Table, key: Key, fp: Fingerprint, now: real, d: Decision)
    requires Decides(c, records, after, key, fp, now, d) && d.Admit?
    ensures key !in records
    ensures d.evicted.None? ==> |records| < c.maxRecords
    ensures d.evicted.Some? ==> d.evicted.value in records && records[d.evicted.value].result.Some?
    ensures after == (records - Chosen(d.evicted))[key := Record(fp, None, now + c.ttl)]
  {
    hide NoneCompleted;
  }

  lemma RoomForOne(c: Config, p: Store, evicted: Option<Key>)
    requires Bounded(c, p)
    requires if evicted.Some? then evicted.value in p.records else |p.records| < c.maxRecords
    ensures |p.records - Chosen(evicted)| < c.maxRecords
  {
    var rest := p.records - Chosen(evicted);
    assert rest.Keys == p.records.Keys - Chosen(evicted);
    if evicted.Some? {
      assert |p.records.Keys - {evicted.value}| == |p.records.Keys| - 1;
    } else {
      assert rest == p.records;
    }
  }

  lemma ReserveKeepsInv(c: Config, s: Store, t: Store, exec: nat, key: Key, fp: Fingerprint, now: real)
    requires Inv(c, s) && exec !in s.running && key !in s.records && |s.records| < c.maxRecords
    requires t == s.(records := s.records[key := Record(fp, None, now + c.ttl)],
                     running := s.running[exec := Claim(key, fp)])
    ensures Inv(c, t)
  {
    assert t.records.Keys == s.records.Keys + {key};
    assert Held(t) && Distinct(t.running) && AllOwned(t) by {
      ReserveKeepsHeld(s, t, exec, key);
      ReserveKeepsOwned(s, t, exec, key);
    }
    hide Matched;
    forall k | k in t.records && t.records[k].result.Some?
      ensures Last(t, k)
    {
      assert Last(s, k);
    }
  }

  lemma ReserveKeepsHeld(s: Store, t: Store, exec: nat, key: Key)
    requires Held(s) && Distinct(s.running) && exec !in s.running && key !in s.records
    requires exec in t.running && t.running == s.running[exec := t.running[exec]] && t.running[exec].key == key
    requires key in t.records && t.records == s.records[key := t.records[key]] && Holds(t.records, t.running[exec])
    ensures Held(t) && Distinct(t.running)
  {
    forall e | e in s.running
      ensures s.running[e].key != key
    {
      assert Holds(s.records, s.running[e]);
    }
  }

  lemma ReserveKeepsOwned(s: Store, t: Store, exec: nat, key: Key)
    requires AllOwned(s) && exec !in s.running
    requires exec in t.running && t.running == s.running[exec := t.running[exec]] && t.running[exec].key == key
    requires key in t.records && t.records == s.records[key := t.records[key]]
    ensures AllOwned(t)
  {
    forall k | k in t.records && t.records[k].result.None?
      ensures Owned(t, k)
    {
      if k == key {
        assert exec in t.running;
      } else {
        assert Owned(s, k);
        var e :| e in s.running && s.running[e].key == k;
        assert e in t.running && t.running[e].key == k;
      }
    }
  }

  /** Ending `exec` concerns the record under its own key only. */
  predicate Ends(s: Store, t: Store, exec: nat) {
    && exec in s.running && t.running == s.running - {exec}
    && s.records - {s.running[exec].key} == t.records - {s.running[exec].key}
    && s.committed - {s.running[exec].key} == t.committed - {s.running[exec].key}
  }

  lemma OtherKeys<V>(m: map<Key, V>, n: map<Key, V>, key: Key, k: Key)
    requires m - {key} == n - {key} && k != key
    ensures k in m <==> k in n
    ensures k in m ==> m[k] == n[k]
  {
    assert k in m <==> k in m - {key};
    assert k in n <==> k in n - {key};
    if k in m {
      assert (m - {key})[k] == (n - {key})[k];
    }
  }

  lemma EndKeepsHeld(s: Store, t: Store, exec: nat)
    requires Held(s) && Distinct(s.running) && Ends(s, t, exec)
    ensures Held(t) && Distinct(t.running)
  {
    var key := s.running[exec].key;
    forall e | e in t.running
      ensures Holds(t.records, t.running[e])
    {
      assert Holds(s.records, s.running[e]);
      OtherKeys(s.records, t.records, key, s.running[e].key);
    }
  }

  lemma EndKeepsOwned(s: Store, t: Store, exec: nat)
    requires AllOwned(s) && Ends(s, t, exec)
    requires var key := s.running[exec].key; key in t.records ==> t.records[key].result.Some?
    ensures AllOwned(t)
  {
    var key := s.running[exec].key;
    forall k | k in t.records && t.records[k].result.None?
      ensures Owned(t, k)
    {
      OtherKeys(s.records, t.records, key, k);
      assert Owned(s, k);
      var e :| e in s.running && s.running[e].key == k;
      assert e in t.running && t.running[e].key == k;
    }
  }

  lemma EndKeepsFaithful(s: Store, t: Store, exec: nat)
    requires Faithful(s) && Ends(s, t, exec)
    requires var key := s.running[exec].key; key in t.records && t.records[key].result.Some? ==> Last(t, key)
    ensures Faithful(t)
  {
    var key := s.running[exec].key;
    forall k | k in t.records && t.records[k].result.Some?
      ensures Last(t, k)
    {
      if k != key {
        OtherKeys(s.records, t.records, key, k);
        OtherKeys(s.committed, t.committed, key, k);
        assert Last(s, k);
      }
    }
  }

  lemma ClaimHeld(c: Config, s: Store, exec: nat)
    requires Inv(c, s) && exec in s.running
    ensures Holds(s.records, s.running[exec])
  {}

  lemma CommitKeepsInv(c: Config, s: Store, t: Store, exec: nat, result: Payload, now: real, step: Step)
    requires Inv(c, s) && Commit(c, s, t, exec, result, now, step)
    ensures Inv(c, t)
  {
    hide Held, AllOwned, Faithful, Distinct;
    ClaimHeld(c, s, exec);
    var key := s.running[exec].key;
    assert t.records.Keys == s.records.Keys;
    assert t.committed - {key} == s.committed - {key};
    assert t.records - {key} == s.records - {key};
    EndKeepsHeld(s, t, exec);
    EndKeepsOwned(s, t, exec);
    EndKeepsFaithful(s, t, exec);
  }

  /** A failing run frees its own key, and changes nothing else in the table. */
  lemma ReleaseKeepsInv(c: Config, s: Store, t: Store, exec: nat, step: Step)
    requires Inv(c, s) && Release(s, t, exec, step)
    ensures Inv(c, t)
    ensures s.running[exec].key in s.records
    ensures t.records == s.records - {s.running[exec].key}
  {
    hide Held, AllOwned, Faithful, Distinct, Last;
    ClaimHeld(c, s, exec);
    var key := s.running[exec].key;
    assert t.records == s.records - {key};
    assert t.records - {key} == s.records - {key};
    SubsetSize(t.records.Keys, s.records.Keys);
    EndKeepsHeld(s, t, exec);
    EndKeepsOwned(s, t, exec);
    EndKeepsFaithful(s, t, exec);
  }

  lemma NextKeepsInv(c: Config, s: Store, t: Store, step: Step)
    requires Inv(c, s) && Next(c, s, t, step)
    ensures Inv(c, t)
  {
    hide Inv, Begin, Commit, Release;
    if exec, key, fp, now, d :| Begin(c, s, t, exec, key, fp, now, d, step) {
      BeginKeepsInv(c, s, t, exec, key, fp, now, d, step);
    } else if exec, result, now :| Commit(c, s, t, exec, result, now, step) {
      CommitKeepsInv(c, s, t, exec, result, now, step);
    } else {
      var exec :| Release(s, t, exec, step);
      ReleaseKeepsInv(c, s, t, exec, step);
    }
  }

  // ----- what one step does to a record

  /** Nobody touches the reservation of an execution that goes on running. */
  lemma ReservationUntouched(c: Config, s: Store, t: Store, step: Step, e: nat)
    requires Inv(c, s) && Next(c, s, t, step)
    requires e in s.running && e in t.running
    ensures var key := s.running[e].key;
            && t.running[e] == s.running[e]
            && key in s.records && key in t.records && t.records[key] == s.records[key]
            && key !in step.expired && step.evicted != Some(key)
  {
    hide Begin, Commit, Release, AllOwned, Faithful, Bounded, Held;
    ClaimHeld(c, s, e);
    if exec, key, fp, now, d :| Begin(c, s, t, exec, key, fp, now, d, step) {
      BeginKeepsReserved(c, s, t, exec, key, fp, now, d, step, e);
    } else if exec, result, now :| Commit(c, s, t, exec, result, now, step) {
      EndKeepsOthers(c, s, t, exec, e) by { CommitEnds(c, s, t, exec, result, now, step); }
      CommitEnds(c, s, t, exec, result, now, step);
    } else {
      var exec :| Release(s, t, exec, step);
      ReleaseEnds(s, t, exec, step);
      EndKeepsOthers(c, s, t, exec, e);
    }
  }

  lemma CommitEnds(c: Config, s: Store, t: Store, exec: nat, result: Payload, now: real, step: Step)
    requires Commit(c, s, t, exec, result, now, step)
    ensures Ends(s, t, exec) && step.expired == {} && step.evicted == None
    ensures step.event.Committed? && step.event.key == s.running[exec].key
  {
    var key := s.running[exec].key;
    assert t.records - {key} == s.records - {key};
    assert t.committed - {key} == s.committed - {key};
  }

  lemma ReleaseEnds(s: Store, t: Store, exec: nat, step: Step)
    requires Release(s, t, exec, step)
    ensures Ends(s, t, exec) && step.expired == {} && step.evicted == None && step.event.Released?
    ensures t.committed == s.committed
  {
    var key := s.running[exec].key;
    assert t.records - {key} == s.records - {key};
  }

  lemma EndKeepsOthers(c: Config, s: Store, t: Store, exec: nat, e: nat)
    requires Inv(c, s) && Ends(s, t, exec) && e in s.running && e != exec
    ensures var key := s.running[e].key; key in s.records && key in t.records && t.records[key] == s.records[key]
  {
    hide AllOwned, Faithful, Bounded;
    assert Holds(s.records, s.running[e]);
    OtherKeys(s.records, t.records, s.running[exec].key, s.running[e].key);
  }

  lemma BeginKeepsReserved(c: Config, s: Store, t: Store, exec: nat, key: Key, fp: Fingerprint, now: real,
                           d: Decision, step: Step, e: nat)
    requires Begin(c, s, t, exec, key, fp, now, d, step)
    requires e in s.running && Holds(s.records, s.running[e])
    ensures var k := s.running[e].key;
            && e in t.running && t.running[e] == s.running[e] && k in t.records && t.records[k] == s.records[k]
            && k !in step.expired && step.evicted != Some(k)
  {
    hide NoneCompleted;
    var k := s.running[e].key;
    assert k in Purged(s.records, now);
  }

  /** A completed record survives a step unchanged, or expired, or was evicted as the earliest of a full table. */
  ghost predicate Lost(c: Config, s: Store, t: Store, step: Step, k: Key)
    requires k in s.records
  {
    || (k in step.expired && Stale(s.records[k], t.now))
    || (step.evicted == Some(k) && |Purged(s.records, t.now)| >= c.maxRecords
        && EarliestCompleted(Purged(s.records, t.now), k))
  }

  lemma CompletedStaysOrLost(c: Config, s: Store, t: Store, step: Step, k: Key)
    requires Inv(c, s) && Next(c, s, t, step)
    requires k in s.records && s.records[k].result.Some?
    ensures Lost(c, s, t, step, k) || (k in t.records && t.records[k] == s.records[k])
    ensures step.event.Committed? ==> step.event.key != k
  {
    hide Begin, Commit, Release, AllOwned, Faithful, Bounded, Lost;
    if exec, key, fp, now, d :| Begin(c, s, t, exec, key, fp, now, d, step) {
      BeginKeepsCompleted(c, s, t, exec, key, fp, now, d, step, k);
    } else if exec, result, now :| Commit(c, s, t, exec, result, now, step) {
      CommitEnds(c, s, t, exec, result, now, step);
      ClaimHeld(c, s, exec);
      OtherKeys(s.records, t.records, s.running[exec].key, k);
    } else {
      var exec :| Release(s, t, exec, step);
      ReleaseEnds(s, t, exec, step);
      ClaimHeld(c, s, exec);
      OtherKeys(s.records, t.records, s.running[exec].key, k);
    }
  }

  lemma BeginKeepsCompleted(c: Config, s: Store, t: Store, exec: nat, key: Key, fp: Fingerprint, now: real,
                            d: Decision, step: Step, k: Key)
    requires Begin(c, s, t, exec, key, fp, now, d, step) && k in s.records
    ensures Lost(c, s, t, step, k) || (k in t.records && t.records[k] == s.records[k])
    ensures !step.event.Committed?
  {
    hide NoneCompleted, EarliestCompleted;
    var records := Purged(s.records, now);
    if k in Expired(s.records, now) {
    } else {
      assert k in records && records[k] == s.records[k];
    }
  }

  // ----- whole runs

  ghost predicate IsRun(c: Config, states: seq<Store>, steps: seq<Step>) {
    && |states| == |steps| + 1 && states[0] == Init()
    && forall i :: 0 <= i < |steps| ==> Next(c, states[i], states[i + 1], steps[i])
  }

  lemma {:induction false} RunInv(c: Config, states: seq<Store>, steps: seq<Step>, n: nat)
    requires IsRun(c, states, steps) && n <= |steps|
    ensures Inv(c, states[n])
  {
    hide Next, Inv;
    if n == 0 {
      InitInv(c);
    } else {
      RunInv(c, states, steps, n - 1);
      NextKeepsInv(c, states[n - 1], states[n], steps[n - 1]);
    }
  }

  /** The table never outgrows its limit, at no point of any run. */
  lemma RunBounded(c: Config, states: seq<Store>, steps: seq<Step>, n: nat)
    requires IsRun(c, states, steps) && n <= |steps|
    ensures |states[n].records| <= c.maxRecords || states[n].records == map[]
    ensures Distinct(states[n].running)
  {
    hide IsRun, Held, AllOwned, Faithful;
    RunInv(c, states, steps, n);
  }

  predicate CommitsKey(step: Step, k: Key) {
    step.event.Committed? && step.event.key == k
  }

  lemma CommitStores(c: Config, s: Store, t: Store, step: Step)
    requires Inv(c, s) && Next(c, s, t, step) && step.event.Committed?
    ensures var k := step.event.key;
            && k in t.records && t.records[k].fingerprint == step.event.fingerprint
            && t.records[k].result == Some(step.event.result)
            && (k in s.records ==> s.records[k].result.None?)
            && t.committed == s.committed[k := (step.event.fingerprint, step.event.result)]
  {
    hide AllOwned, Faithful, Bounded, Begin, Release;
    if exec, key, fp, now, d :| Begin(c, s, t, exec, key, fp, now, d, step) {
      BeginIsNoCommit(c, s, t, exec, key, fp, now, d, step);
    } else if exec, result, now :| Commit(c, s, t, exec, result, now, step) {
      ClaimHeld(c, s, exec);
    } else {
      var exec :| Release(s, t, exec, step);
      ReleaseEnds(s, t, exec, step);
    }
  }

  lemma BeginIsNoCommit(c: Config, s: Store, t: Store, exec: nat, key: Key, fp: Fingerprint, now: real,
                        d: Decision, step: Step)
    requires Begin(c, s, t, exec, key, fp, now, d, step)
    ensures !step.event.Committed? && t.committed == s.committed
  {
    hide Decides;
  }

  /** As long as a completed record is not lost it stays as it was committed. */
  lemma {:induction false} FindLoss(c: Config, states: seq<Store>, steps: seq<Step>, i: nat, j: nat, k: Key, r: Record)
    returns (m: nat)
    requires IsRun(c, states, steps) && i <= j < |steps|
    requires k in states[i].records && states[i].records[k] == r && r.result.Some?
    requires CommitsKey(steps[j], k)
    ensures i <= m < j
    ensures k in states[m].records && states[m].records[k] == r && Lost(c, states[m], states[m + 1], steps[m], k)
    decreases j - i
  {
    hide Next, Inv, Lost;
    RunInv(c, states, steps, i);
    CompletedStaysOrLost(c, states[i], states[i + 1], steps[i], k);
    if Lost(c, states[i], states[i + 1], steps[i], k) {
      m := i;
      if i == j {
        assert false;
      }
    } else {
      m := FindLoss(c, states, steps, i + 1, j, k, r);
    }
  }

  /**
   Between two successful executions under one key, the first result was lost: it had
   expired, or was evicted as the earliest-expiring completed record of a full table.
   */
  lemma ExecutedTwice(c: Config, states: seq<Store>, steps: seq<Step>, i: nat, j: nat, k: Key) returns (m: nat)
    requires IsRun(c, states, steps) && i < j < |steps|
    requires CommitsKey(steps[i], k) && CommitsKey(steps[j], k)
    ensures i < m < j && k in states[m].records && Lost(c, states[m], states[m + 1], steps[m], k)
    ensures states[m].records[k].result == Some(steps[i].event.result)
  {
    hide Next, Inv, Lost;
    RunInv(c, states, steps, i);
    CommitStores(c, states[i], states[i + 1], steps[i]);
    m := FindLoss(c, states, steps, i + 1, j, k, states[i + 1].records[k]);
  }

  /** The last commit under a key before step `n`. */
  ghost predicate LastCommit(steps: seq<Step>, n: nat, i: nat, k: Key, fp: Fingerprint, result: Payload)
    requires n <= |steps|
  {
    && i < n && CommitsKey(steps[i], k) && steps[i].event.fingerprint == fp && steps[i].event.result == result
    && forall m :: i < m < n ==> !CommitsKey(steps[m], k)
  }

  lemma NoCommitKeeps(c: Config, s: Store, t: Store, step: Step)
    requires Next(c, s, t, step) && !step.event.Committed?
    ensures t.committed == s.committed
  {
    hide Decides;
  }

  lemma {:induction false} CommittedIsLast(c: Config, states: seq<Store>, steps: seq<Step>, n: nat, k: Key)
    returns (i: nat)
    requires IsRun(c, states, steps) && n <= |steps| && k in states[n].committed
    ensures LastCommit(steps, n, i, k, states[n].committed[k].0, states[n].committed[k].1)
  {
    hide Next, Inv;
    var s, t, step := states[n - 1], states[n], steps[n - 1];
    RunInv(c, states, steps, n - 1);
    if step.event.Committed? {
      CommitStores(c, s, t, step);
    } else {
      NoCommitKeeps(c, s, t, step);
    }
    if CommitsKey(step, k) {
      i := n - 1;
    } else {
      i := CommittedIsLast(c, states, steps, n - 1, k);
    }
  }

  lemma BeginReplays(c: Config, s: Store, t: Store, exec: nat, key: Key, fp: Fingerprint, now: real,
                     d: Decision, step: Step)
    requires Begin(c, s, t, exec, key, fp, now, d, step) && step.event.Replayed?
    ensures var k := step.event.key;
            && k in s.records && s.records[k].fingerprint == step.event.fingerprint
            && s.records[k].result == Some(step.event.result) && t.now < s.records[k].expiresAt
  {
    hide NoneCompleted;
    assert key in Purged(s.records, now);
  }

  /** A replay is answered from a completed record that has not expired. */
  lemma ReplayedFromTable(c: Config, s: Store, t: Store, step: Step)
    requires Inv(c, s) && Next(c, s, t, step) && step.event.Replayed?
    ensures var k := step.event.key;
            && k in s.committed && s.committed[k] == (step.event.fingerprint, step.event.result)
            && k in s.records && t.now < s.records[k].expiresAt
  {
    hide Held, AllOwned, Distinct, Bounded, Begin, Commit, Release;
    if exec, key, fp, now, d :| Begin(c, s, t, exec, key, fp, now, d, step) {
      BeginReplays(c, s, t, exec, key, fp, now, d, step);
      assert Last(s, step.event.key);
    } else if exec, result, now :| Commit(c, s, t, exec, result, now, step) {
      CommitEnds(c, s, t, exec, result, now, step);
    } else {
      var exec :| Release(s, t, exec, step);
      ReleaseEnds(s, t, exec, step);
    }
  }

  /** Every replay answers with the fingerprint and the result last committed under its key. */
  lemma ReplayIsLastCommit(c: Config, states: seq<Store>, steps: seq<Step>, n: nat) returns (i: nat)
    requires IsRun(c, states, steps) && n < |steps| && steps[n].event.Replayed?
    ensures LastCommit(steps, n, i, steps[n].event.key, steps[n].event.fingerprint, steps[n].event.result)
  {
    hide Next, Inv;
    RunInv(c, states, steps, n);
    ReplayedFromTable(c, states[n], states[n + 1], steps[n]);
    i := CommittedIsLast(c, states, steps, n, steps[n].event.key);
  }
}
