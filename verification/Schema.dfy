/**
 Value-free schema paths of JSON documents: two printers that walk a document in different
 ways, and the planner's parser that reads the keys of the `result` object back from the paths.
 */
module Schema {
  import opened Wrappers
  import opened Documents

  // ----- the paths of a document

  function TypeName(v: Json): string {
    match v
    case Null => "null"
    case Boolean(_) => "boolean"
    case Integer(_) => "integer"
    case Number(_) => "number"
    case Text(_) => "string"
    case Array(_) => "array"
    case Object(_) => "object"
  }

  function Paths(v: Json, path: string): set<string>
    decreases v, 1
  {
    {path + ":" + TypeName(v)} +
    match v
    case Array(items) => ItemPaths(items, path)
    case Object(members) => MemberPaths(members, path)
    case _ => {}
  }

  function ItemPaths(items: seq<Json>, path: string): set<string>
    decreases items, 0
  {
    if items == [] then {} else Paths(items[0], path + "[]") + ItemPaths(items[1..], path)
  }

  function MemberPaths(members: seq<Member>, path: string): set<string>
    decreases members, 0
  {
    if members == [] then {}
    else Paths(members[0].value, path + "." + members[0].key) + MemberPaths(members[1..], path)
  }

  lemma {:induction false} ItemPathsSnoc(items: seq<Json>, last: Json, path: string)
    ensures ItemPaths(items + [last], path) == ItemPaths(items, path) + Paths(last, path + "[]")
    decreases |items|
  {
    hide Paths;
    if items == [] {
      assert items + [last] == [last] && [last][1..] == [];
    } else {
      assert (items + [last])[1..] == items[1..] + [last];
      ItemPathsSnoc(items[1..], last, path);
    }
  }

  lemma {:induction false} MemberPathsSnoc(members: seq<Member>, last: Member, path: string)
    ensures MemberPaths(members + [last], path) == MemberPaths(members, path) + Paths(last.value, path + "." + last.key)
    decreases |members|
  {
    hide Paths;
    if members == [] {
      assert members + [last] == [last] && [last][1..] == [];
    } else {
      assert (members + [last])[1..] == members[1..] + [last];
      MemberPathsSnoc(members[1..], last, path);
    }
  }

  lemma PathsUnfold(v: Json, path: string)
    ensures v.Object? ==> Paths(v, path) == {path + ":object"} + MemberPaths(v.members, path)
    ensures v.Array? ==> Paths(v, path) == {path + ":array"} + ItemPaths(v.items, path)
    ensures !v.Object? && !v.Array? ==> Paths(v, path) == {path + (":" + TypeName(v))}
  {
    hide MemberPaths, ItemPaths;
    assert path + ":" + TypeName(v) == path + (":" + TypeName(v));
    assert ":" + "object" == ":object" && ":" + "array" == ":array";
  }

  // ----- the printers

  lemma Labels()
    ensures ":" + "null" == ":null" && ":" + "boolean" == ":boolean" && ":" + "integer" == ":integer"
    ensures ":" + "number" == ":number" && ":" + "string" == ":string"
  {}

  lemma NoMembers(path: string)
    ensures MemberPaths([], path) == {} && ItemPaths([], path) == {}
  {}

  /** `_schema_entries`: scalars first, then mappings, then arrays. */
  method SchemaEntries(v: Json, path: string) returns (entries: set<string>)
    ensures entries == Paths(v, path)
    decreases v
  {
    hide Paths, MemberPaths, ItemPaths;
    PathsUnfold(v, path);
    NoMembers(path);
    Labels();
    if v.Null? { return {path + ":null"}; }
    if v.Boolean? { return {path + ":boolean"}; }
    if v.Integer? { return {path + ":integer"}; }
    if v.Number? { return {path + ":number"}; }
    if v.Text? { return {path + ":string"}; }
    if v.Object? {
      entries := {path + ":object"};
      for i := 0 to |v.members|
        invariant entries == {path + ":object"} + MemberPaths(v.members[..i], path)
      {
        var child := SchemaEntries(v.members[i].value, path + "." + v.members[i].key);
        entries := entries + child;
        MemberPathsSnoc(v.members[..i], v.members[i], path);
        assert v.members[..i + 1] == v.members[..i] + [v.members[i]];
      }
      assert v.members[..|v.members|] == v.members;
      return;
    }
    entries := {path + ":array"};
    for i := 0 to |v.items|
      invariant entries == {path + ":array"} + ItemPaths(v.items[..i], path)
    {
      var child := SchemaEntries(v.items[i], path + "[]");
      entries := entries + child;
      ItemPathsSnoc(v.items[..i], v.items[i], path);
      assert v.items[..i + 1] == v.items[..i] + [v.items[i]];
    }
    assert v.items[..|v.items|] == v.items;
  }

  /** `_schema_paths`: mappings first, then arrays, then scalars, all into one set. */
  method SchemaPaths(v: Json, path: string) returns (output: set<string>)
    ensures output == Paths(v, path)
    decreases v
  {
    hide Paths, MemberPaths, ItemPaths;
    PathsUnfold(v, path);
    NoMembers(path);
    Labels();
    output := {};
    if v.Object? {
      output := output + {path + ":object"};
      for i := 0 to |v.members|
        invariant output == {path + ":object"} + MemberPaths(v.members[..i], path)
      {
        var child := SchemaPaths(v.members[i].value, path + "." + v.members[i].key);
        output := output + child;
        MemberPathsSnoc(v.members[..i], v.members[i], path);
        assert v.members[..i + 1] == v.members[..i] + [v.members[i]];
      }
      assert v.members[..|v.members|] == v.members;
    } else if v.Array? {
      output := output + {path + ":array"};
      for i := 0 to |v.items|
        invariant output == {path + ":array"} + ItemPaths(v.items[..i], path)
      {
        var child := SchemaPaths(v.items[i], path + "[]");
        output := output + child;
        ItemPathsSnoc(v.items[..i], v.items[i], path);
        assert v.items[..i + 1] == v.items[..i] + [v.items[i]];
      }
      assert v.items[..|v.items|] == v.items;
    } else if v.Boolean? {
      output := output + {path + ":boolean"};
    } else if v.Integer? {
      output := output + {path + ":integer"};
    } else if v.Number? {
      output := output + {path + ":number"};
    } else if v.Text? {
      output := output + {path + ":string"};
    } else {
      output := output + {path + ":null"};
    }
  }

  // ----- paths depend on shape alone

  predicate SameShape(v: Json, w: Json) {
    match (v, w)
    case (Array(a), Array(b)) => |a| == |b| && forall i :: 0 <= i < |a| ==> SameShape(a[i], b[i])
    case (Object(a), Object(b)) =>
      |a| == |b| && forall i :: 0 <= i < |a| ==> a[i].key == b[i].key && SameShape(a[i].value, b[i].value)
    case (_, _) => TypeName(v) == TypeName(w)
  }

  lemma {:induction false} ShapeDecides(v: Json, w: Json, path: string)
    requires SameShape(v, w)
    ensures Paths(v, path) == Paths(w, path)
    decreases v, 1
  {
    match v
    case Array(items) => ItemShapes(items, w.items, path);
    case Object(members) => MemberShapes(members, w.members, path);
    case _ =>
  }

  lemma {:induction false} ItemShapes(a: seq<Json>, b: seq<Json>, path: string)
    requires |a| == |b| && forall i :: 0 <= i < |a| ==> SameShape(a[i], b[i])
    ensures ItemPaths(a, path) == ItemPaths(b, path)
    decreases a, 0
  {
    hide Paths, SameShape;
    if a != [] {
      ShapeDecides(a[0], b[0], path + "[]");
      ItemShapes(a[1..], b[1..], path);
    }
  }

  lemma {:induction false} MemberShapes(a: seq<Member>, b: seq<Member>, path: string)
    requires |a| == |b| && forall i :: 0 <= i < |a| ==> a[i].key == b[i].key && SameShape(a[i].value, b[i].value)
    ensures MemberPaths(a, path) == MemberPaths(b, path)
    decreases a, 0
  {
    hide Paths, SameShape;
    if a != [] {
      ShapeDecides(a[0].value, b[0].value, path + "." + a[0].key);
      MemberShapes(a[1..], b[1..], path);
    }
  }

  // ----- reading keys back

  /** `s.split(c, 1)[0]`. */
  function Before(s: string, c: char): (p: string)
    ensures p <= s
  {
    if s == "" || s[0] == c then "" else [s[0]] + Before(s[1..], c)
  }

  function Cut(s: string): string {
    Before(Before(Before(s, ':'), '.'), '[')
  }

  predicate Separator(c: char) {
    c == ':' || c == '.' || c == '['
  }

  /** What precedes the first separator. */
  function Prefix(s: string): string {
    if s == "" || Separator(s[0]) then "" else [s[0]] + Prefix(s[1..])
  }

  lemma {:induction false} CutIsPrefix(s: string)
    ensures Cut(s) == Prefix(s)
  {
    if s != "" && !Separator(s[0]) {
      CutIsPrefix(s[1..]);
      var b := Before(s, ':');
      assert b[1..] == Before(s[1..], ':');
      var c := Before(b, '.');
      assert c[1..] == Before(b[1..], '.');
    }
  }

  const RESULT: string := "$.result."

  /** The key that a path contributes, empty when it contributes none. */
  function Contributed(path: string): string {
    if RESULT <= path then Cut(path[|RESULT|..]) else ""
  }

  /** What the catalogue records of an operation's probe. */
  datatype Observed = Observed(observation: string, paths: seq<string>)

  /** The paths that count: none without an operation, or one whose probe returned no data. */
  function Observations(operation: Option<Observed>): seq<string> {
    if operation.None? || operation.value.observation != "returned_data" then [] else operation.value.paths
  }

  /** `_top_level_result_keys`. */
  method TopLevelResultKeys(operation: Option<Observed>) returns (keys: seq<string>)
    ensures operation.None? || operation.value.observation != "returned_data" ==> keys == []
    ensures var paths := Observations(operation);
            forall k :: k in keys <==> k != "" && exists i :: 0 <= i < |paths| && Contributed(paths[i]) == k
    ensures forall i, j :: 0 <= i < j < |keys| ==> keys[i] != keys[j]
  {
    hide Contributed;
    keys := [];
    if operation.None? || operation.value.observation != "returned_data" {
      return;
    }
    var paths := operation.value.paths;
    for n := 0 to |paths|
      invariant forall k :: k in keys <==> k != "" && exists i :: 0 <= i < n && Contributed(paths[i]) == k
      invariant forall i, j :: 0 <= i < j < |keys| ==> keys[i] != keys[j]
    {
      if !(RESULT <= paths[n]) {
        NotContributing(paths[n]);
        continue;
      }
      var key := Contributed(paths[n]);
      if key != "" && key !in keys {
        keys := keys + [key];
      }
    }
  }

  lemma NotContributing(path: string)
    requires !(RESULT <= path)
    ensures Contributed(path) == ""
  {}

  // ----- what the parser makes of a printed document

  /** Every path of a value extends its own by a separator. */
  ghost predicate Extends(x: string, path: string) {
    path <= x && |x| > |path| && Separator(x[|path|])
  }

  lemma {:induction false} PathsExtend(v: Json, path: string)
    ensures forall x :: x in Paths(v, path) ==> Extends(x, path)
    ensures path + ":" + TypeName(v) in Paths(v, path)
    decreases v, 1
  {
    match v
    case Array(items) => ItemsExtend(items, path);
    case Object(members) => MembersExtend(members, path);
    case _ =>
  }

  lemma {:induction false} ItemsExtend(items: seq<Json>, path: string)
    ensures forall x :: x in ItemPaths(items, path) ==> Extends(x, path) && x[|path|] == '['
    decreases items, 0
  {
    hide Paths;
    if items != [] {
      PathsExtend(items[0], path + "[]");
      ItemsExtend(items[1..], path);
      forall x | x in Paths(items[0], path + "[]")
        ensures Extends(x, path) && x[|path|] == '['
      {
        assert Extends(x, path + "[]");
        assert x[..|path| + 2] == path + "[]";
      }
    }
  }

  lemma {:induction false} MembersExtend(members: seq<Member>, path: string)
    ensures forall x :: x in MemberPaths(members, path) ==> Extends(x, path) && x[|path|] == '.'
    decreases members, 0
  {
    hide Paths;
    if members != [] {
      var p := path + "." + members[0].key;
      PathsExtend(members[0].value, p);
      MembersExtend(members[1..], path);
      forall x | x in Paths(members[0].value, p)
        ensures Extends(x, path) && x[|path|] == '.'
      {
        assert Extends(x, p);
        assert x[..|p|] == p;
      }
    }
  }

  lemma {:induction false} PrefixStops(u: string, rest: string)
    requires rest != "" && Separator(rest[0])
    ensures Prefix(u + rest) == Prefix(u)
  {
    if u == "" {
      assert u + rest == rest;
    } else {
      assert (u + rest)[1..] == u[1..] + rest;
      PrefixStops(u[1..], rest);
    }
  }

  /** The keys contributed by a set of paths. */
  ghost function Keys(paths: set<string>): (keys: set<string>) {
    set x | x in paths && Contributed(x) != "" :: Contributed(x)
  }

  lemma KeysUnion(a: set<string>, b: set<string>)
    ensures Keys(a + b) == Keys(a) + Keys(b)
  {
    hide Contributed;
  }

  function Unless(key: string): set<string> {
    if key == "" then {} else {key}
  }

  /** The paths of a value at `$.result.` and `u` contribute what precedes the first separator in `u`. */
  lemma KeysBelowResult(v: Json, u: string)
    ensures Keys(Paths(v, RESULT + u)) == Unless(Prefix(u))
  {
    hide Paths, Cut, Prefix;
    var path := RESULT + u;
    PathsExtend(v, path);
    forall x | x in Paths(v, path)
      ensures Contributed(x) == Prefix(u)
    {
      assert Extends(x, path);
      var rest := x[|path|..];
      assert x[|RESULT|..] == u + rest;
      CutIsPrefix(u + rest);
      PrefixStops(u, rest);
    }
    assert path + ":" + TypeName(v) in Paths(v, path);
  }

  function InnerPrefixes(members: seq<Member>): set<string> {
    if members == [] then {} else Unless(Prefix(members[0].key)) + InnerPrefixes(members[1..])
  }

  lemma {:induction false} KeysOfInner(members: seq<Member>)
    ensures Keys(MemberPaths(members, "$.result")) == InnerPrefixes(members)
  {
    hide Paths, Contributed, Prefix;
    if members != [] {
      KeysBelowResult(members[0].value, members[0].key);
      assert "$.result" + "." + members[0].key == RESULT + members[0].key;
      KeysUnion(Paths(members[0].value, RESULT + members[0].key), MemberPaths(members[1..], "$.result"));
      KeysOfInner(members[1..]);
    }
  }

  lemma NoKeys(paths: set<string>)
    requires forall x :: x in paths ==> !(RESULT <= x)
    ensures Keys(paths) == {}
  {}

  lemma KeysOfResult(v: Json)
    ensures Keys(Paths(v, "$.result")) == if v.Object? then InnerPrefixes(v.members) else {}
  {
    hide Paths, MemberPaths, ItemPaths, Contributed, InnerPrefixes, Keys;
    PathsUnfold(v, "$.result");
    var own := "$.result" + (":" + TypeName(v));
    assert own[8] == ':';
    NoKeys({own});
    if v.Object? {
      KeysUnion({own}, MemberPaths(v.members, "$.result"));
      KeysOfInner(v.members);
      assert own == "$.result" + ":object";
    } else if v.Array? {
      ItemsExtend(v.items, "$.result");
      NoKeys(ItemPaths(v.items, "$.result"));
      KeysUnion({own}, ItemPaths(v.items, "$.result"));
      assert own == "$.result" + ":array";
    }
  }

  const PREFIX: string := "result."

  /** What one top-level member contributes. */
  function Contribution(m: Member): set<string> {
    if m.key == "result" then if m.value.Object? then InnerPrefixes(m.value.members) else {}
    else if PREFIX <= m.key then Unless(Prefix(m.key[|PREFIX|..]))
    else {}
  }

  /** A path below `$.result.` goes through `result` or a member that starts with `result.`. */
  lemma BelowResult(key: string, x: string)
    requires Extends(x, "$." + key) && RESULT <= x
    ensures key == "result" || PREFIX <= key
  {
    var path := "$." + key;
    assert forall i :: 0 <= i < |RESULT| ==> x[i] == RESULT[i];
    assert x[2..8] == RESULT[2..8] == "result";
    assert x[2..9] == RESULT[2..9] == PREFIX;
    if |key| < |PREFIX| {
      assert x[|path|] == RESULT[|path|];
      assert |key| == 6;
      assert key == x[2..8];
    } else {
      assert key[..7] == x[2..9];
    }
  }

  lemma KeysOfMember(m: Member)
    ensures Keys(Paths(m.value, "$." + m.key)) == Contribution(m)
  {
    hide Paths, InnerPrefixes, Prefix, Contributed, Keys, Extends;
    if m.key == "result" {
      assert "$." + "result" == "$.result";
      KeysOfResult(m.value);
    } else if PREFIX <= m.key {
      var u := m.key[|PREFIX|..];
      assert "$." + m.key == RESULT + u;
      KeysBelowResult(m.value, u);
    } else {
      PathsExtend(m.value, "$." + m.key);
      forall x | x in Paths(m.value, "$." + m.key)
        ensures !(RESULT <= x)
      {
        if RESULT <= x {
          BelowResult(m.key, x);
        }
      }
      NoKeys(Paths(m.value, "$." + m.key));
    }
  }

  function Contributions(members: seq<Member>): set<string> {
    if members == [] then {} else Contribution(members[0]) + Contributions(members[1..])
  }

  lemma {:induction false} KeysOfMembers(members: seq<Member>)
    ensures Keys(MemberPaths(members, "$")) == Contributions(members)
  {
    hide Paths, Contributed, Contribution;
    if members != [] {
      KeysOfMember(members[0]);
      assert "$" + "." + members[0].key == "$." + members[0].key;
      KeysUnion(Paths(members[0].value, "$." + members[0].key), MemberPaths(members[1..], "$"));
      KeysOfMembers(members[1..]);
    }
  }

  function Parsed(v: Json): set<string> {
    if v.Object? then Contributions(v.members) else {}
  }

  /** For every document the parser finds, in its paths, exactly the keys `Parsed` describes. */
  lemma KeysOfDocument(v: Json)
    ensures Keys(Paths(v, "$")) == Parsed(v)
  {
    hide Paths, MemberPaths, ItemPaths, Contributed, Keys, Contributions;
    PathsUnfold(v, "$");
    var own := "$" + (":" + TypeName(v));
    assert own[1] == ':';
    NoKeys({own});
    if v.Object? {
      KeysUnion({own}, MemberPaths(v.members, "$"));
      KeysOfMembers(v.members);
      assert own == "$" + ":object";
    } else if v.Array? {
      ItemsExtend(v.items, "$");
      NoKeys(ItemPaths(v.items, "$"));
      KeysUnion({own}, ItemPaths(v.items, "$"));
      assert own == "$" + ":array";
    }
  }

  // ----- when the parser recovers the keys of the result object

  function KeySet(members: seq<Member>): set<string> {
    if members == [] then {} else {members[0].key} + KeySet(members[1..])
  }

  /** The keys of the objects under `result`. */
  function ResultKeys(members: seq<Member>): set<string> {
    if members == [] then {}
    else
      (if members[0].key == "result" && members[0].value.Object? then KeySet(members[0].value.members) else {})
      + ResultKeys(members[1..])
  }

  /** What other top-level members wrongly contribute. */
  function Spurious(members: seq<Member>): set<string> {
    if members == [] then {}
    else
      (if members[0].key != "result" then Contribution(members[0]) else {}) + Spurious(members[1..])
  }

  predicate CleanKey(k: string) {
    k != "" && ':' !in k && '.' !in k && '[' !in k
  }

  lemma {:induction false} PrefixClean(k: string)
    ensures CleanKey(k) <==> k != "" && Prefix(k) == k
    ensures Prefix(k) != "" ==> CleanKey(Prefix(k))
  {
    if k != "" && !Separator(k[0]) {
      PrefixClean(k[1..]);
      assert k == [k[0]] + k[1..];
      if k[1..] == "" {
        assert k == [k[0]];
      }
    }
  }

  /** Keys under `result` contribute their prefixes. */
  lemma {:induction false} ContributionsSplit(members: seq<Member>)
    ensures Contributions(members) == Prefixes(ResultKeys(members)) + Spurious(members)
  {
    hide Prefix, KeySet, InnerPrefixes;
    if members != [] {
      ContributionsSplit(members[1..]);
      if members[0].key == "result" && members[0].value.Object? {
        InnerIsPrefixes(members[0].value.members);
      }
    }
  }

  ghost function Prefixes(keys: set<string>): set<string> {
    set k | k in keys && Prefix(k) != "" :: Prefix(k)
  }

  lemma {:induction false} InnerIsPrefixes(members: seq<Member>)
    ensures InnerPrefixes(members) == Prefixes(KeySet(members))
  {
    hide Prefix;
    if members != [] {
      InnerIsPrefixes(members[1..]);
    }
  }

  /**
   Read from paths in any order, the keys found are exactly those of the result object if
   and only if all of these are clean and whatever other members contribute is among them.
   */
  lemma KeysRecovered(members: seq<Member>)
    ensures Keys(Paths(Object(members), "$")) == ResultKeys(members)
       <==> (forall k :: k in ResultKeys(members) ==> CleanKey(k)) && Spurious(members) <= ResultKeys(members)
  {
    hide Paths, Keys, Spurious, ResultKeys, Contributions, Prefix, CleanKey;
    KeysOfDocument(Object(members));
    ContributionsSplit(members);
    var keys := ResultKeys(members);
    forall k
      ensures CleanKey(k) <==> k != "" && Prefix(k) == k
      ensures Prefix(k) != "" ==> CleanKey(Prefix(k))
    {
      PrefixClean(k);
    }
    if forall k :: k in keys ==> CleanKey(k) {
      assert Prefixes(keys) == keys;
    }
    if Prefixes(keys) + Spurious(members) == keys {
      SpuriousClean(members);
      assert forall k :: k in keys ==> CleanKey(k);
    }
  }

  /**
   The planner on an operation whose probe returned an object, from its paths in any order:
   it finds exactly the keys of the result object under the condition of `KeysRecovered`.
   */
  method PlannerKeys(members: seq<Member>, paths: seq<string>) returns (keys: seq<string>)
    requires forall x :: x in paths <==> x in Paths(Object(members), "$")
    ensures forall i, j :: 0 <= i < j < |keys| ==> keys[i] != keys[j]
    ensures (forall k :: k in keys <==> k in ResultKeys(members))
       <==> (forall k :: k in ResultKeys(members) ==> CleanKey(k)) && Spurious(members) <= ResultKeys(members)
  {
    hide Paths, Contributed, Spurious, ResultKeys, CleanKey;
    keys := TopLevelResultKeys(Some(Observed("returned_data", paths)));
    KeysRecovered(members);
    ghost var all := Paths(Object(members), "$");
    forall k
      ensures k in keys <==> k in Keys(all)
    {
      if k in keys {
        var i :| 0 <= i < |paths| && Contributed(paths[i]) == k;
        assert paths[i] in all;
      }
      if k in Keys(all) {
        var x :| x in all && Contributed(x) != "" && Contributed(x) == k;
        assert x in paths;
      }
    }
    assert (forall k :: k in keys <==> k in ResultKeys(members)) <==> Keys(all) == ResultKeys(members);
  }

  lemma {:induction false} SpuriousClean(members: seq<Member>)
    ensures forall k :: k in Spurious(members) ==> CleanKey(k)
  {
    hide Prefix, CleanKey, InnerPrefixes;
    if members != [] {
      SpuriousClean(members[1..]);
      if PREFIX <= members[0].key {
        PrefixClean(members[0].key[|PREFIX|..]);
      }
    }
  }

  lemma DotInside(key: string)
    requires PREFIX <= key
    ensures '.' in key
  {
    assert key[6] == '.';
  }

  /** When no top-level key has a separator either, nothing spurious is contributed. */
  lemma {:induction false} CleanTopLevel(members: seq<Member>)
    requires forall i :: 0 <= i < |members| ==> CleanKey(members[i].key)
    ensures Spurious(members) == {}
  {
    if members != [] {
      assert CleanKey(members[0].key);
      if PREFIX <= members[0].key {
        DotInside(members[0].key);
      }
      CleanTopLevel(members[1..]);
    }
  }

  // ----- paths on paper

  /** Every kind of value has its own label, and members and items have their own way down. */
  lemma PathText(p: string, b: bool, n: int, r: real, s: string, key: string, v: Json)
    ensures Paths(Null, p) == {p + ":null"} && Paths(Boolean(b), p) == {p + ":boolean"}
    ensures Paths(Integer(n), p) == {p + ":integer"} && Paths(Number(r), p) == {p + ":number"}
    ensures Paths(Text(s), p) == {p + ":string"}
    ensures Paths(Object([]), p) == {p + ":object"} && Paths(Array([]), p) == {p + ":array"}
    ensures Paths(Object([Member(key, v)]), p) == {p + ":object"} + Paths(v, p + "." + key)
    ensures Paths(Array([v]), p) == {p + ":array"} + Paths(v, p + "[]")
  {
    Labels();
    PathsUnfold(Null, p);
    PathsUnfold(Boolean(b), p);
    PathsUnfold(Integer(n), p);
    PathsUnfold(Number(r), p);
    PathsUnfold(Text(s), p);
    PathsUnfold(Object([Member(key, v)]), p);
    PathsUnfold(Array([v]), p);
    PathsUnfold(Object([]), p);
    PathsUnfold(Array([]), p);
    NoMembers(p);
    MemberPathsSnoc([], Member(key, v), p);
    ItemPathsSnoc([], v, p);
    assert [] + [Member(key, v)] == [Member(key, v)] && [] + [v] == [v];
  }
}
