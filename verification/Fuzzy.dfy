/**
 Read-only request variants for ambiguous probes: how they are built from catalogue entries,
 restored from value-free evidence, and let through the probe's allowlist guard.
 */
module Fuzzy {
  import opened Wrappers

  datatype Authentication = Encrypted | Plain | Multipart | Download | Bootstrap | GroupKey | Token
  datatype ResponseKind = ObjectResponse | ListResponse | ValueResponse | BinaryResponse
  datatype Sensitivity = Normal | Private | Secret
  datatype ContractSource = NoContract | Documented | FirmwareAsset | Observed

  datatype Scalar = NullValue | BooleanValue(b: bool) | IntegerValue(n: int) | TextValue(s: string)

  type Params = map<string, Scalar>

  datatype Endpoint = Endpoint(
    path: string, form: string, operation: string,
    authentication: Authentication, responseKind: ResponseKind, safety: Safety, sensitivity: Sensitivity,
    defaultParams: Option<Params>, documentation: string, mediaType: string,
    requiredParams: seq<string>, optionalParams: seq<string>,
    contractSource: ContractSource, formSelector: bool)

  type Catalogue = seq<Endpoint>

  const ALIASES: seq<string> := ["read", "get", "getlist", "list"]

  const DEVICE_DEFAULT: Params := map["device_mac" := TextValue("default")]

  // ----- endpoints

  function Replace(s: string, from: char, to: char): string {
    if s == "" then "" else [if s[0] == from then to else s[0]] + Replace(s[1..], from, to)
  }

  function TrimSlashes(s: string): string {
    if s == "" then ""
    else if s[0] == '/' then TrimSlashes(s[1..])
    else if s[|s| - 1] == '/' then TrimSlashes(s[..|s| - 1])
    else s
  }

  /** `EndpointSpec.name`. */
  function Name(e: Endpoint): string {
    Replace(Replace(TrimSlashes(e.path), '/', '.'), '-', '_') + "." + Replace(e.form, '-', '_') + "."
    + Replace(e.operation, '-', '_')
  }

  predicate GenericCallSupported(e: Endpoint) {
    (e.authentication == Encrypted || e.authentication == Plain) && e.responseKind != BinaryResponse
  }

  predicate BootstrapCallSupported(e: Endpoint) {
    e.authentication == Bootstrap && e.path == "login" && e.operation == "read" && e.responseKind != BinaryResponse
  }

  predicate SafeSource(e: Endpoint) {
    e.safety == ReadOnly && e.sensitivity != Secret && GenericCallSupported(e)
  }

  predicate Discoverable(catalogue: Catalogue, e: Endpoint) {
    && e in catalogue && e.safety == ReadOnly && e.sensitivity != Secret
    && (GenericCallSupported(e) || BootstrapCallSupported(e))
  }

  type Key = (string, string, string)

  function KeyOf(e: Endpoint): Key {
    (e.path, e.form, e.operation)
  }

  /** Names and keys identify catalogue entries, and default parameters are absent or the device default. */
  ghost predicate Proper(catalogue: Catalogue) {
    && (forall i, j :: 0 <= i < j < |catalogue| ==> Name(catalogue[i]) != Name(catalogue[j]))
    && (forall i, j :: 0 <= i < j < |catalogue| ==> KeyOf(catalogue[i]) != KeyOf(catalogue[j]))
    && (forall i :: 0 <= i < |catalogue| ==>
          catalogue[i].defaultParams == None || catalogue[i].defaultParams == Some(DEVICE_DEFAULT))
  }

  /** `get_endpoint`: of several entries with one name the last. */
  function GetEndpoint(catalogue: Catalogue, name: string): Option<Endpoint> {
    if catalogue == [] then None
    else
      var last := catalogue[|catalogue| - 1];
      if Name(last) == name then Some(last) else GetEndpoint(catalogue[..|catalogue| - 1], name)
  }

  lemma {:induction false} GetByName(catalogue: Catalogue, e: Endpoint)
    requires Proper(catalogue) && e in catalogue
    ensures GetEndpoint(catalogue, Name(e)) == Some(e)
  {
    hide Name;
    var last, init := catalogue[|catalogue| - 1], catalogue[..|catalogue| - 1];
    var i :| 0 <= i < |catalogue| && catalogue[i] == e;
    if i < |catalogue| - 1 {
      assert init[i] == e;
      GetByName(init, e);
    }
  }

  // ----- candidates

  const ALIAS_PREFIX: string := "operation_alias:"
  const PARAMS_OMITTED: string := "params:omitted"
  const PARAMS_EMPTY: string := "params:empty"
  const PARAMS_DEVICE: string := "params:device_mac_default"

  datatype Candidate = Candidate(endpoint: Endpoint, sourceName: string, variant: string, params: Option<Params>)

  type Identity = (string, string, string, string)

  function IdentityOf(c: Candidate): Identity {
    (c.endpoint.path, c.endpoint.form, c.endpoint.operation, c.variant)
  }

  datatype Status = Supported | Rejected | NotFound | TransportError | InvalidResponse

  /** A probe's outcome; `hasResult` tells whether a response came and carried a result. */
  datatype Probe = Probe(endpoint: Endpoint, status: Status, hasResponse: bool, hasResult: bool)

  predicate Ambiguous(p: Probe) {
    || p.status == Rejected || p.status == TransportError || p.status == InvalidResponse
    || (p.status == Supported && p.hasResponse && !p.hasResult)
  }

  function AliasEndpoint(e: Endpoint, operation: string): Endpoint {
    e.(operation := operation, requiredParams := [], optionalParams := [], contractSource := NoContract)
  }

  function AliasCandidate(e: Endpoint, operation: string): Candidate {
    Candidate(AliasEndpoint(e, operation), Name(e), ALIAS_PREFIX + operation, e.defaultParams)
  }

  function ParamsCandidate(e: Endpoint, variant: string, params: Option<Params>): Candidate {
    Candidate(e.(defaultParams := None), Name(e), variant, params)
  }

  predicate InCatalogue(catalogue: Catalogue, k: Key) {
    exists i :: 0 <= i < |catalogue| && KeyOf(catalogue[i]) == k
  }

  predicate Eligible(catalogue: Catalogue, e: Endpoint, operation: string) {
    operation != e.operation && !InCatalogue(catalogue, (e.path, e.form, operation))
  }

  function AliasCandidates(catalogue: Catalogue, e: Endpoint, operations: seq<string>): (r: seq<Candidate>)
    ensures |r| <= |operations|
  {
    if operations == [] then []
    else
      var init := AliasCandidates(catalogue, e, operations[..|operations| - 1]);
      var last := operations[|operations| - 1];
      if Eligible(catalogue, e, last) then init + [AliasCandidate(e, last)] else init
  }

  function ParamsCandidates(scoped: set<(string, string)>, e: Endpoint): (r: seq<Candidate>)
    ensures |r| <= 3
  {
    (if e.defaultParams.Some? then [ParamsCandidate(e, PARAMS_OMITTED, None)] else [])
    + [ParamsCandidate(e, PARAMS_EMPTY, Some(map[]))]
    + if (e.path, e.form) in scoped && e.defaultParams != Some(DEVICE_DEFAULT)
      then [ParamsCandidate(e, PARAMS_DEVICE, Some(DEVICE_DEFAULT))] else []
  }

  /** Everything that one probe proposes: at most seven candidates. */
  function Proposed(catalogue: Catalogue, scoped: set<(string, string)>, p: Probe): (r: seq<Candidate>)
    ensures |r| <= 7
  {
    if Ambiguous(p) && SafeSource(p.endpoint)
    then AliasCandidates(catalogue, p.endpoint, ALIASES) + ParamsCandidates(scoped, p.endpoint)
    else []
  }

  /** `candidates` with `more` appended, skipping identities already seen. */
  function AppendNew(candidates: seq<Candidate>, more: seq<Candidate>): seq<Candidate>
    decreases |more|
  {
    if more == [] then candidates
    else
      AppendNew(if IdentityOf(more[0]) in Identities(candidates) then candidates else candidates + [more[0]], more[1..])
  }

  function Identities(candidates: seq<Candidate>): set<Identity> {
    set i | 0 <= i < |candidates| :: IdentityOf(candidates[i])
  }

  function Build(catalogue: Catalogue, scoped: set<(string, string)>, probes: seq<Probe>): seq<Candidate> {
    if probes == [] then []
    else AppendNew(Build(catalogue, scoped, probes[..|probes| - 1]), Proposed(catalogue, scoped, probes[|probes| - 1]))
  }

  lemma {:induction false} AppendNewInTurn(candidates: seq<Candidate>, a: seq<Candidate>, b: seq<Candidate>)
    ensures AppendNew(AppendNew(candidates, a), b) == AppendNew(candidates, a + b)
    decreases |a|
  {
    hide IdentityOf, Identities;
    if a == [] {
      assert a + b == b;
    } else {
      assert (a + b)[1..] == a[1..] + b;
      var next := if IdentityOf(a[0]) in Identities(candidates) then candidates else candidates + [a[0]];
      AppendNewInTurn(next, a[1..], b);
    }
  }

  /** `_append_candidate`. */
  method AppendCandidate(candidates: seq<Candidate>, seen: set<Identity>, c: Candidate)
    returns (candidates': seq<Candidate>, seen': set<Identity>)
    requires seen == Identities(candidates)
    ensures candidates' == AppendNew(candidates, [c])
    ensures seen' == Identities(candidates')
  {
    var identity := IdentityOf(c);
    assert [c][1..] == [];
    if identity in seen {
      return candidates, seen;
    }
    candidates', seen' := candidates + [c], seen + {identity};
    forall x
      ensures x in Identities(candidates') <==> x in seen'
    {
      if x in seen {
        var i :| 0 <= i < |candidates| && IdentityOf(candidates[i]) == x;
        assert candidates'[i] == candidates[i];
      }
      assert candidates'[|candidates|] == c;
    }
  }

  /** `build_fuzzy_read_candidates`. */
  method BuildFuzzyReadCandidates(catalogue: Catalogue, scoped: set<(string, string)>, probes: seq<Probe>)
    returns (candidates: seq<Candidate>)
    ensures candidates == Build(catalogue, scoped, probes)
  {
    hide IdentityOf, Identities, Name;
    candidates := [];
    var seen: set<Identity> := {};
    NothingSeen();
    for n := 0 to |probes|
      invariant candidates == Build(catalogue, scoped, probes[..n]) && seen == Identities(candidates)
    {
      ghost var before := candidates;
      var probe := probes[n];
      var e := probe.endpoint;
      assert probes[..n + 1][..n] == probes[..n];
      if !Ambiguous(probe) || !SafeSource(e) {
        assert AppendNew(before, []) == before;
        continue;
      }
      assert AppendNew(before, []) == before;
      for a := 0 to |ALIASES|
        invariant candidates == AppendNew(before, AliasCandidates(catalogue, e, ALIASES[..a]))
        invariant seen == Identities(candidates)
      {
        assert ALIASES[..a + 1][..a] == ALIASES[..a];
        if !Eligible(catalogue, e, ALIASES[a]) {
          continue;
        }
        AppendNewInTurn(before, AliasCandidates(catalogue, e, ALIASES[..a]), [AliasCandidate(e, ALIASES[a])]);
        candidates, seen := AppendCandidate(candidates, seen, AliasCandidate(e, ALIASES[a]));
      }
      assert ALIASES[..|ALIASES|] == ALIASES;
      candidates, seen := AppendParams(scoped, e, candidates, seen);
      AppendNewInTurn(before, AliasCandidates(catalogue, e, ALIASES), ParamsCandidates(scoped, e));
    }
    assert probes[..|probes|] == probes;
  }

  lemma NothingSeen()
    ensures Identities([]) == {}
  {}

  /** The parameter shapes of one endpoint. */
  method AppendParams(scoped: set<(string, string)>, e: Endpoint, candidates: seq<Candidate>, seen: set<Identity>)
    returns (candidates': seq<Candidate>, seen': set<Identity>)
    requires seen == Identities(candidates)
    ensures candidates' == AppendNew(candidates, ParamsCandidates(scoped, e))
    ensures seen' == Identities(candidates')
  {
    hide IdentityOf, Identities, AppendNew, Name;
    ghost var omitted := if e.defaultParams.Some? then [ParamsCandidate(e, PARAMS_OMITTED, None)] else [];
    ghost var empty := [ParamsCandidate(e, PARAMS_EMPTY, Some(map[]))];
    NoneAppended(candidates);
    candidates', seen' := candidates, seen;
    if e.defaultParams.Some? {
      candidates', seen' := AppendCandidate(candidates', seen', ParamsCandidate(e, PARAMS_OMITTED, None));
    }
    AppendNewInTurn(candidates, omitted, empty);
    candidates', seen' := AppendCandidate(candidates', seen', ParamsCandidate(e, PARAMS_EMPTY, Some(map[])));
    NoneAppended(candidates');
    if (e.path, e.form) in scoped && e.defaultParams != Some(DEVICE_DEFAULT) {
      ghost var device := [ParamsCandidate(e, PARAMS_DEVICE, Some(DEVICE_DEFAULT))];
      AppendNewInTurn(candidates, omitted + empty, device);
      var c := ParamsCandidate(e, PARAMS_DEVICE, Some(DEVICE_DEFAULT));
      candidates', seen' := AppendCandidate(candidates', seen', c);
    }
    assert omitted + empty + [] == omitted + empty;
  }

  lemma NoneAppended(candidates: seq<Candidate>)
    ensures AppendNew(candidates, []) == candidates
  {}

  // ----- bounds and identities

  lemma {:induction false} AppendNewBounds(candidates: seq<Candidate>, more: seq<Candidate>)
    requires DistinctIdentities(candidates)
    ensures var r := AppendNew(candidates, more);
            && |r| <= |candidates| + |more| && DistinctIdentities(r)
            && forall i :: 0 <= i < |r| ==> r[i] in candidates || r[i] in more
    decreases |more|
  {
    hide IdentityOf;
    if more != [] {
      var next := if IdentityOf(more[0]) in Identities(candidates) then candidates else candidates + [more[0]];
      AppendNewBounds(next, more[1..]);
    }
  }

  predicate DistinctIdentities(candidates: seq<Candidate>) {
    forall i, j :: 0 <= i < j < |candidates| ==> IdentityOf(candidates[i]) != IdentityOf(candidates[j])
  }

  /** However many probes, candidates have distinct identities, seven at most for each probe, each proposed by one. */
  lemma {:induction false} BuildBounds(catalogue: Catalogue, scoped: set<(string, string)>, probes: seq<Probe>)
    ensures var r := Build(catalogue, scoped, probes);
            && |r| <= 7 * |probes| && DistinctIdentities(r)
            && forall i :: 0 <= i < |r| ==> FromProbes(catalogue, scoped, probes, r[i])
  {
    hide DistinctIdentities, Proposed, FromProbes;
    if probes == [] {
      NoneDistinct();
    } else {
      var init, last := probes[..|probes| - 1], probes[|probes| - 1];
      var before, more := Build(catalogue, scoped, init), Proposed(catalogue, scoped, last);
      BuildBounds(catalogue, scoped, init);
      ProposedAtMostSeven(catalogue, scoped, last);
      AppendNewBounds(before, more);
      var r := AppendNew(before, more);
      forall i | 0 <= i < |r|
        ensures FromProbes(catalogue, scoped, probes, r[i])
      {
        ByOneProbe(catalogue, scoped, probes, before, r[i]);
      }
    }
  }

  lemma NoneDistinct()
    ensures DistinctIdentities([])
  {}

  lemma ProposedAtMostSeven(catalogue: Catalogue, scoped: set<(string, string)>, p: Probe)
    ensures |Proposed(catalogue, scoped, p)| <= 7
  {}

  ghost predicate FromProbes(catalogue: Catalogue, scoped: set<(string, string)>, probes: seq<Probe>, c: Candidate) {
    exists n :: 0 <= n < |probes| && c in Proposed(catalogue, scoped, probes[n])
  }

  lemma ByOneProbe(catalogue: Catalogue, scoped: set<(string, string)>, probes: seq<Probe>,
                   before: seq<Candidate>, c: Candidate)
    requires probes != []
    requires forall i :: 0 <= i < |before| ==> FromProbes(catalogue, scoped, probes[..|probes| - 1], before[i])
    requires c in before || c in Proposed(catalogue, scoped, probes[|probes| - 1])
    ensures FromProbes(catalogue, scoped, probes, c)
  {
    hide Proposed;
    if c in before {
      var i :| 0 <= i < |before| && before[i] == c;
      assert FromProbes(catalogue, scoped, probes[..|probes| - 1], before[i]);
      var n :| 0 <= n < |probes| - 1 && c in Proposed(catalogue, scoped, probes[..|probes| - 1][n]);
      assert probes[n] == probes[..|probes| - 1][n];
    }
  }

  // ----- evidence and restoration

  function ScalarType(v: Scalar): string {
    match v
    case NullValue => "null"
    case BooleanValue(_) => "boolean"
    case IntegerValue(_) => "integer"
    case TextValue(_) => "string"
  }

  /** `parameter_schema`, as a set: parameter names with types but without values. */
  function ParameterSchema(params: Option<Params>): set<string> {
    if params.None? then {} else set name | name in params.value :: name + ":" + ScalarType(params.value[name])
  }

  /** The provenance that `from_attempts` keeps of a candidate. */
  datatype Evidence = Evidence(name: string, sourceName: string, variant: string, parameterSchema: set<string>)

  function FromAttempts(c: Candidate): Evidence {
    Evidence(Name(c.endpoint), c.sourceName, c.variant, ParameterSchema(c.params))
  }

  /** The candidate that a variant of a source stands for. */
  function Restored(scoped: set<(string, string)>, source: Endpoint, variant: string): Option<Candidate> {
    if ALIAS_PREFIX <= variant then
      var operation := variant[|ALIAS_PREFIX|..];
      if operation in ALIASES
      then Some(Candidate(AliasEndpoint(source, operation), Name(source), variant, source.defaultParams)) else None
    else if variant == PARAMS_OMITTED then Some(ParamsCandidate(source, variant, None))
    else if variant == PARAMS_EMPTY then Some(ParamsCandidate(source, variant, Some(map[])))
    else if variant == PARAMS_DEVICE then
      if (source.path, source.form) in scoped then Some(ParamsCandidate(source, variant, Some(DEVICE_DEFAULT)))
      else None
    else None
  }

  /** `restore_fuzzy_read_candidate`; every error is `None`. */
  function Restore(catalogue: Catalogue, scoped: set<(string, string)>, evidence: Evidence): Option<Candidate> {
    var source := GetEndpoint(catalogue, evidence.sourceName);
    if source.None? || !SafeSource(source.value) then None
    else
      var c := Restored(scoped, source.value, evidence.variant);
      if c.None? || Name(c.value.endpoint) != evidence.name
         || ParameterSchema(c.value.params) != evidence.parameterSchema
      then None else c
  }

  /** The shapes a proposed candidate can have. */
  predicate IsAlias(catalogue: Catalogue, e: Endpoint, c: Candidate, operation: string) {
    operation in ALIASES && Eligible(catalogue, e, operation) && c == AliasCandidate(e, operation)
  }

  predicate IsParams(scoped: set<(string, string)>, e: Endpoint, c: Candidate) {
    || c == ParamsCandidate(e, PARAMS_OMITTED, None)
    || c == ParamsCandidate(e, PARAMS_EMPTY, Some(map[]))
    || ((e.path, e.form) in scoped && c == ParamsCandidate(e, PARAMS_DEVICE, Some(DEVICE_DEFAULT)))
  }

  lemma {:induction false} AliasShapes(catalogue: Catalogue, e: Endpoint, operations: seq<string>, c: Candidate)
    returns (operation: string)
    requires c in AliasCandidates(catalogue, e, operations)
    ensures operation in operations && Eligible(catalogue, e, operation) && c == AliasCandidate(e, operation)
  {
    hide AliasCandidate, Eligible;
    var init := operations[..|operations| - 1];
    if c in AliasCandidates(catalogue, e, init) {
      operation := AliasShapes(catalogue, e, init, c);
    } else {
      operation := operations[|operations| - 1];
    }
  }

  lemma ProposedShapes(catalogue: Catalogue, scoped: set<(string, string)>, p: Probe, c: Candidate)
    requires c in Proposed(catalogue, scoped, p)
    ensures SafeSource(p.endpoint)
    ensures (exists operation :: IsAlias(catalogue, p.endpoint, c, operation)) || IsParams(scoped, p.endpoint, c)
  {
    hide AliasCandidate, ParamsCandidate, Eligible;
    if c in AliasCandidates(catalogue, p.endpoint, ALIASES) {
      var operation := AliasShapes(catalogue, p.endpoint, ALIASES, c);
      assert IsAlias(catalogue, p.endpoint, c, operation);
    }
  }

  /** What the variant restores on its source is the candidate itself. */
  lemma RestoredIsProposed(catalogue: Catalogue, scoped: set<(string, string)>, p: Probe, c: Candidate)
    requires c in Proposed(catalogue, scoped, p)
    ensures Restored(scoped, p.endpoint, c.variant) == Some(c) && c.sourceName == Name(p.endpoint)
  {
    hide Name, Eligible, Proposed;
    ProposedShapes(catalogue, scoped, p, c);
    var e := p.endpoint;
    if operation :| IsAlias(catalogue, e, c, operation) {
      assert c.variant[|ALIAS_PREFIX|..] == operation;
    } else {
      assert PARAMS_OMITTED[0] == 'p' && PARAMS_EMPTY[0] == 'p' && PARAMS_DEVICE[0] == 'p' && ALIAS_PREFIX[0] == 'o';
    }
  }

  /** Candidates built from catalogue probes survive the trip through value-free evidence. */
  lemma EvidenceRoundTrip(catalogue: Catalogue, scoped: set<(string, string)>, p: Probe, c: Candidate)
    requires Proper(catalogue) && p.endpoint in catalogue && c in Proposed(catalogue, scoped, p)
    ensures Restore(catalogue, scoped, FromAttempts(c)) == Some(c)
  {
    hide Name, Proposed, Restored, Proper;
    RestoredIsProposed(catalogue, scoped, p, c);
    ProposedShapes(catalogue, scoped, p, c);
    GetByName(catalogue, p.endpoint);
  }

  // ----- the guard

  /** The parameters a request is sent with. */
  function Selected(c: Candidate): Option<Params> {
    if c.params.Some? then c.params else c.endpoint.defaultParams
  }

  /** `validate_params` finds nothing missing. */
  predicate ParamsComplete(c: Candidate) {
    forall i :: 0 <= i < |c.endpoint.requiredParams| ==>
      Selected(c).Some? && c.endpoint.requiredParams[i] in Selected(c).value
  }

  predicate CataloguedNonRead(catalogue: Catalogue, k: Key) {
    exists i :: 0 <= i < |catalogue| && KeyOf(catalogue[i]) == k && catalogue[i].safety != ReadOnly
  }

  /** The tests of `_allow_fuzzy_candidate`, in their order; the last is that its request can be formed. */
  predicate Allows(catalogue: Catalogue, c: Candidate) {
    var source := GetEndpoint(catalogue, c.sourceName);
    && source.Some? && Discoverable(catalogue, source.value)
    && (c.endpoint.path, c.endpoint.form) == (source.value.path, source.value.form)
    && c.endpoint.safety == ReadOnly && c.endpoint.sensitivity != Secret
    && c.endpoint.authentication == source.value.authentication
    && c.endpoint.formSelector == source.value.formSelector
    && c.endpoint.responseKind == source.value.responseKind
    && (c.endpoint.operation == source.value.operation || c.endpoint.operation in ALIASES)
    && !CataloguedNonRead(catalogue, KeyOf(c.endpoint))
    && (c.params == None || c.params == Some(map[]) || c.params == Some(DEVICE_DEFAULT))
    && ParamsComplete(c)
  }

  datatype Signature = Signature(path: string, form: string, operation: string, params: Option<Params>)

  function SignatureOf(c: Candidate): Signature {
    Signature(c.endpoint.path, c.endpoint.form, c.endpoint.operation, Selected(c))
  }

  /** The fuzzy part of the read-only client: which request signatures it lets through. */
  class ReadOnlyClient {
    const catalogue: Catalogue
    var allowed: set<Signature>

    constructor (catalogue: Catalogue)
      ensures this.catalogue == catalogue && allowed == {} && Valid()
    {
      this.catalogue, allowed := catalogue, {};
    }

    /** No allowed request is a catalogued non-read. */
    ghost predicate Valid()
      reads this
    {
      forall s :: s in allowed ==> !CataloguedNonRead(catalogue, (s.path, s.form, s.operation))
    }

    /** `_allow_fuzzy_candidate`. */
    method AllowFuzzyCandidate(c: Candidate) returns (ok: bool)
      requires Valid()
      modifies this
      ensures Valid()
      ensures ok == Allows(catalogue, c)
      ensures allowed == if ok then old(allowed) + {SignatureOf(c)} else old(allowed)
    {
      ok := Allows(catalogue, c);
      if ok {
        allowed := allowed + {SignatureOf(c)};
      }
    }
  }

  lemma UniqueKey(catalogue: Catalogue, e: Endpoint)
    requires Proper(catalogue) && e in catalogue && e.safety == ReadOnly
    ensures !CataloguedNonRead(catalogue, KeyOf(e))
  {
    hide Name;
    var i :| 0 <= i < |catalogue| && catalogue[i] == e;
    forall j | 0 <= j < |catalogue| && KeyOf(catalogue[j]) == KeyOf(e)
      ensures j == i
    {
    }
  }

  lemma AliasUncatalogued(catalogue: Catalogue, e: Endpoint, operation: string)
    requires Eligible(catalogue, e, operation)
    ensures !CataloguedNonRead(catalogue, KeyOf(AliasEndpoint(e, operation)))
  {}

  /**
   The guard allows a candidate built from a catalogue probe exactly when its parameters
   cover those its endpoint requires; for operation aliases, which require none, always.
   */
  lemma GuardAllows(catalogue: Catalogue, scoped: set<(string, string)>, p: Probe, c: Candidate)
    requires Proper(catalogue) && p.endpoint in catalogue && c in Proposed(catalogue, scoped, p)
    ensures Allows(catalogue, c) <==> ParamsComplete(c)
    ensures ALIAS_PREFIX <= c.variant || p.endpoint.requiredParams == [] ==> Allows(catalogue, c)
  {
    hide Name, Proposed;
    var e := p.endpoint;
    ProposedShapes(catalogue, scoped, p, c);
    GetByName(catalogue, e);
    UniqueKey(catalogue, e);
    var i :| 0 <= i < |catalogue| && catalogue[i] == e;
    if operation :| IsAlias(catalogue, e, c, operation) {
      AliasUncatalogued(catalogue, e, operation);
    } else {
      assert KeyOf(c.endpoint) == KeyOf(e);
      assert PARAMS_OMITTED[0] == 'p' && PARAMS_EMPTY[0] == 'p' && PARAMS_DEVICE[0] == 'p' && ALIAS_PREFIX[0] == 'o';
    }
  }

  /** No entry that read variants are built from requires a parameter, as in the catalogue the library ships. */
  ghost predicate NothingRequired(catalogue: Catalogue) {
    forall i :: 0 <= i < |catalogue| && SafeSource(catalogue[i]) ==> catalogue[i].requiredParams == []
  }

  lemma NothingRequiredOf(catalogue: Catalogue, scoped: set<(string, string)>, p: Probe, c: Candidate)
    requires NothingRequired(catalogue) && p.endpoint in catalogue && c in Proposed(catalogue, scoped, p)
    ensures ParamsComplete(c)
  {
    hide Name, Proposed;
    ProposedShapes(catalogue, scoped, p, c);
    var i :| 0 <= i < |catalogue| && catalogue[i] == p.endpoint;
    assert c.endpoint.requiredParams == [];
  }

  /**
   All of this holds of every candidate built from any catalogue probes; where no safe
   source requires a parameter the guard allows every one of them.
   */
  lemma BuiltCandidates(catalogue: Catalogue, scoped: set<(string, string)>, probes: seq<Probe>, c: Candidate)
    requires Proper(catalogue) && c in Build(catalogue, scoped, probes)
    requires forall n :: 0 <= n < |probes| ==> probes[n].endpoint in catalogue
    ensures Restore(catalogue, scoped, FromAttempts(c)) == Some(c)
    ensures Allows(catalogue, c) <==> ParamsComplete(c)
    ensures NothingRequired(catalogue) ==> Allows(catalogue, c)
  {
    hide Proper, Restore, FromAttempts, Allows, ParamsComplete, Proposed, Build, NothingRequired;
    BuildBounds(catalogue, scoped, probes);
    var i :| 0 <= i < |Build(catalogue, scoped, probes)| && Build(catalogue, scoped, probes)[i] == c;
    assert FromProbes(catalogue, scoped, probes, c);
    var n :| 0 <= n < |probes| && c in Proposed(catalogue, scoped, probes[n]);
    EvidenceRoundTrip(catalogue, scoped, probes[n], c);
    GuardAllows(catalogue, scoped, probes[n], c);
    if NothingRequired(catalogue) {
      NothingRequiredOf(catalogue, scoped, probes[n], c);
    }
  }

  /** An entry with a required parameter, such as the shipped catalogue has not, and a probe of it that was refused. */
  const NEEDY: Endpoint := Endpoint("admin/device", "list", "read", Encrypted, ObjectResponse, ReadOnly, Normal,
                                    None, "", "", ["device_mac"], [], Documented, true)
  const REFUSED: Probe := Probe(NEEDY, Rejected, false, false)

  /** In another catalogue a candidate can be refused: here one without parameters for an entry that requires one. */
  lemma GuardRefuses()
    ensures Proper([NEEDY]) && REFUSED.endpoint in [NEEDY]
    ensures var c := ParamsCandidate(NEEDY, PARAMS_EMPTY, Some(map[]));
            c in Proposed([NEEDY], {}, REFUSED) && !Allows([NEEDY], c)
  {
    hide Name, AliasCandidates;
    var c := ParamsCandidate(NEEDY, PARAMS_EMPTY, Some(map[]));
    assert ParamsCandidates({}, NEEDY) == [c];
    assert Proposed([NEEDY], {}, REFUSED)[|AliasCandidates([NEEDY], NEEDY, ALIASES)|] == c;
    assert c in Proposed([NEEDY], {}, REFUSED);
    assert c.endpoint.requiredParams[0] == "device_mac";
  }

  // ----- what is proposed, and what is let through

  /** A read that may be probed with variants: not secret, encrypted or plain, and not binary. */
  predicate Variable(e: Endpoint) {
    && e.safety == ReadOnly && (e.sensitivity == Normal || e.sensitivity == Private)
    && (e.authentication == Encrypted || e.authentication == Plain)
    && (e.responseKind == ObjectResponse || e.responseKind == ListResponse || e.responseKind == ValueResponse)
  }

  /** The probe settled the question: the operation is not there, or it answered without a response or with a result. */
  predicate Settled(p: Probe) {
    p.status == NotFound || (p.status == Supported && (!p.hasResponse || p.hasResult))
  }

  /** A candidate under another of the four read names that is not in the catalogue. */
  ghost predicate AliasOf(catalogue: Catalogue, e: Endpoint, c: Candidate, operation: string) {
    && (operation == "read" || operation == "get" || operation == "getlist" || operation == "list")
    && operation != e.operation
    && (forall i :: 0 <= i < |catalogue| ==> KeyOf(catalogue[i]) != (e.path, e.form, operation))
    && c.endpoint
       == e.(operation := operation, requiredParams := [], optionalParams := [], contractSource := NoContract)
    && c.sourceName == Name(e) && c.variant == "operation_alias:" + operation && c.params == e.defaultParams
  }

  /** A candidate for the same operation with no parameters, empty ones, or the default device where it applies. */
  predicate ParamsOf(scoped: set<(string, string)>, e: Endpoint, c: Candidate) {
    var bare := e.(defaultParams := None);
    || (e.defaultParams != None && c == Candidate(bare, Name(e), "params:omitted", None))
    || c == Candidate(bare, Name(e), "params:empty", Some(map[]))
    || ((e.path, e.form) in scoped && e.defaultParams != Some(map["device_mac" := TextValue("default")])
        && c == Candidate(bare, Name(e), "params:device_mac_default", Some(map["device_mac" := TextValue("default")])))
  }

  lemma {:induction false} AliasesHave(catalogue: Catalogue, e: Endpoint, operations: seq<string>, i: nat)
    requires i < |operations| && Eligible(catalogue, e, operations[i])
    ensures AliasCandidate(e, operations[i]) in AliasCandidates(catalogue, e, operations)
  {
    hide AliasCandidate, Eligible;
    var init := operations[..|operations| - 1];
    if i < |init| {
      assert init[i] == operations[i];
      AliasesHave(catalogue, e, init, i);
    }
  }

  /** What a probe proposes: these candidates and no others, unless it settled the question or its read may not vary. */
  lemma ProposedExactly(catalogue: Catalogue, scoped: set<(string, string)>, p: Probe, c: Candidate)
    ensures c in Proposed(catalogue, scoped, p)
       <==> && !Settled(p) && Variable(p.endpoint)
            && ((exists operation :: AliasOf(catalogue, p.endpoint, c, operation)) || ParamsOf(scoped, p.endpoint, c))
  {
    hide AliasOf, ParamsOf, Name, AliasCandidates, ParamsCandidates;
    var e := p.endpoint;
    AliasesExactly(catalogue, e, c);
    ParamsExactly(scoped, e, c);
    assert Ambiguous(p) <==> !Settled(p);
    assert SafeSource(e) <==> Variable(e);
  }

  lemma AliasesExactly(catalogue: Catalogue, e: Endpoint, c: Candidate)
    ensures c in AliasCandidates(catalogue, e, ALIASES) <==> exists operation :: AliasOf(catalogue, e, c, operation)
  {
    hide Name, AliasCandidates;
    if c in AliasCandidates(catalogue, e, ALIASES) {
      var operation := AliasShapes(catalogue, e, ALIASES, c);
      assert AliasOf(catalogue, e, c, operation);
    }
    if operation :| AliasOf(catalogue, e, c, operation) {
      assert Eligible(catalogue, e, operation);
      assert ALIASES[0] == "read" && ALIASES[1] == "get" && ALIASES[2] == "getlist" && ALIASES[3] == "list";
      var i :| 0 <= i < 4 && ALIASES[i] == operation;
      AliasesHave(catalogue, e, ALIASES, i);
    }
  }

  lemma ParamsExactly(scoped: set<(string, string)>, e: Endpoint, c: Candidate)
    ensures c in ParamsCandidates(scoped, e) <==> ParamsOf(scoped, e, c)
  {
    hide Name;
  }

  /** The candidate's source is a read that may be discovered, and it keeps to it. */
  ghost predicate LetThrough(catalogue: Catalogue, c: Candidate, e: Endpoint) {
    && e in catalogue && Name(e) == c.sourceName
    && e.safety == ReadOnly && e.sensitivity != Secret && (GenericCallSupported(e) || BootstrapCallSupported(e))
    && c.endpoint.path == e.path && c.endpoint.form == e.form
    && c.endpoint.safety == ReadOnly && c.endpoint.sensitivity != Secret
    && c.endpoint.authentication == e.authentication && c.endpoint.formSelector == e.formSelector
    && c.endpoint.responseKind == e.responseKind
    && (c.endpoint.operation == e.operation || c.endpoint.operation == "read" || c.endpoint.operation == "get"
        || c.endpoint.operation == "getlist" || c.endpoint.operation == "list")
    && (forall i :: 0 <= i < |catalogue| && KeyOf(catalogue[i]) == KeyOf(c.endpoint) ==>
          catalogue[i].safety == ReadOnly)
    && (c.params == None || c.params == Some(map[]) || c.params == Some(map["device_mac" := TextValue("default")]))
    && ParamsComplete(c)
  }

  /** The guard lets through exactly the candidates that keep to such a source. */
  lemma GuardExactly(catalogue: Catalogue, c: Candidate)
    requires Proper(catalogue)
    ensures Allows(catalogue, c) <==> exists e :: LetThrough(catalogue, c, e)
  {
    hide Name, GenericCallSupported, BootstrapCallSupported, ParamsComplete;
    if Allows(catalogue, c) {
      var e := GetEndpoint(catalogue, c.sourceName).value;
      GotByName(catalogue, c.sourceName);
      assert LetThrough(catalogue, c, e);
    }
    if e :| LetThrough(catalogue, c, e) {
      GetByName(catalogue, e);
    }
  }

  lemma {:induction false} GotByName(catalogue: Catalogue, name: string)
    requires GetEndpoint(catalogue, name).Some?
    ensures Name(GetEndpoint(catalogue, name).value) == name && GetEndpoint(catalogue, name).value in catalogue
  {
    hide Name;
    if Name(catalogue[|catalogue| - 1]) != name {
      GotByName(catalogue[..|catalogue| - 1], name);
    }
  }

  // ----- evidence

  /** Evidence names parameters and their types, whatever their values. */
  lemma SchemaExactly(params: Params, entry: string)
    ensures entry in ParameterSchema(Some(params))
       <==> exists name :: name in params && entry == name + (match params[name]
                                                              case NullValue => ":null"
                                                              case BooleanValue(_) => ":boolean"
                                                              case IntegerValue(_) => ":integer"
                                                              case TextValue(_) => ":string")
  {
    forall name | name in params
      ensures name + ":" + "null" == name + ":null" && name + ":" + "boolean" == name + ":boolean"
      ensures name + ":" + "integer" == name + ":integer" && name + ":" + "string" == name + ":string"
    {
    }
  }

  /** What is restored gives back the evidence, so evidence of anything else restores nothing. */
  lemma RestoredEvidence(catalogue: Catalogue, scoped: set<(string, string)>, evidence: Evidence)
    requires Restore(catalogue, scoped, evidence).Some?
    ensures FromAttempts(Restore(catalogue, scoped, evidence).value) == evidence
  {
    hide Name, ParameterSchema;
    GotByName(catalogue, evidence.sourceName);
  }

  lemma {:induction false} ReplacedAt(s: string, from: char, to: char)
    ensures var r := Replace(s, from, to);
            |r| == |s| && forall i :: 0 <= i < |s| ==> r[i] == if s[i] == from then to else s[i]
  {
    if s != "" {
      ReplacedAt(s[1..], from, to);
    }
  }

  /** Slashes around a path do not show in a name. */
  lemma TrimmedSlashes(s: string)
    ensures TrimSlashes("/" + s) == TrimSlashes(s) && TrimSlashes(s + "/") == TrimSlashes(s)
    ensures s != "" && s[0] != '/' && s[|s| - 1] != '/' ==> TrimSlashes(s) == s
  {
    assert ("/" + s)[1..] == s;
    TrimmedEnd(s);
  }

  lemma {:induction false} TrimmedEnd(s: string)
    ensures TrimSlashes(s + "/") == TrimSlashes(s)
    decreases |s|
  {
    if s == "" {
      assert "/"[1..] == "";
      assert s + "/" == "/";
    } else if s[0] == '/' {
      assert (s + "/")[1..] == s[1..] + "/";
      TrimmedEnd(s[1..]);
    } else {
      assert (s + "/")[..|s|] == s;
    }
  }

  /** Names join path, form and operation by dots, with underscores for dashes and dots for the inner slashes. */
  lemma NameText(e: Endpoint, i: nat)
    ensures var (path, name) := (TrimSlashes(e.path), Name(e));
            && |name| == |path| + 1 + |e.form| + 1 + |e.operation|
            && (i < |path| ==> name[i] == if path[i] == '/' then '.' else if path[i] == '-' then '_' else path[i])
            && name[|path|] == '.' && name[|path| + 1 + |e.form|] == '.'
            && (i < |e.form| ==> name[|path| + 1 + i] == if e.form[i] == '-' then '_' else e.form[i])
            && (i < |e.operation| ==>
                  name[|path| + 1 + |e.form| + 1 + i] == if e.operation[i] == '-' then '_' else e.operation[i])
  {
    hide Replace, TrimSlashes;
    var path := TrimSlashes(e.path);
    ReplacedAt(path, '/', '.');
    ReplacedAt(Replace(path, '/', '.'), '-', '_');
    ReplacedAt(e.form, '-', '_');
    ReplacedAt(e.operation, '-', '_');
  }
}
