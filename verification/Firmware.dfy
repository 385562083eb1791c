/**
 Grouping firmware rows into releases, for the per-device rows of the HTTP interface and
 the per-release rows of the TMP interface.
 */
module Firmware {
  import opened Wrappers
  import opened Documents

  // ----- rows

  datatype ReleaseKey = ReleaseKey(
    deviceModel: string, hardwareId: string, oemId: string, latestVersion: string,
    needToDownload: bool, needToUpgrade: bool, forceUpgrade: bool,
    releaseDate: string, fileSizeBytes: int)

  datatype HttpRow = HttpRow(key: ReleaseKey, softwareVersion: string, deviceId: string)

  datatype TmpRow = TmpRow(key: ReleaseKey, note: string, devices: seq<string>)

  function Lookup(members: seq<Member>, key: string): Option<Json> {
    if members == [] then None
    else if members[0].key == key then Some(members[0].value)
    else Lookup(members[1..], key)
  }

  function Get(row: Json, key: string): Option<Json> {
    if row.Object? then Lookup(row.members, key) else None
  }

  function RequiredString(row: Json, key: string): Option<string> {
    var v := Get(row, key);
    if v.Some? && v.value.Text? then Some(v.value.s) else None
  }

  function RequiredBool(row: Json, key: string): Option<bool> {
    var v := Get(row, key);
    if v.Some? && v.value.Boolean? then Some(v.value.b) else None
  }

  function RequiredInt(row: Json, key: string): Option<int> {
    var v := Get(row, key);
    if v.Some? && v.value.Integer? then Some(v.value.n) else None
  }

  function Strings(items: seq<Json>): Option<seq<string>> {
    if items == [] then Some([])
    else
      var tail := Strings(items[1..]);
      if items[0].Text? && tail.Some? then Some([items[0].s] + tail.value) else None
  }

  function RequiredStrings(row: Json, key: string): Option<seq<string>> {
    var v := Get(row, key);
    if v.Some? && v.value.Array? then Strings(v.value.items) else None
  }

  /** The fields that identify a release; `version` is the name of its version field. */
  function ReadKey(row: Json, version: string): Option<ReleaseKey> {
    var model, hardware, oem, latest :=
      RequiredString(row, "device_model"), RequiredString(row, "hw_id"), RequiredString(row, "oem_id"),
      RequiredString(row, version);
    var download, upgrade := RequiredBool(row, "need_to_download"), RequiredBool(row, "need_to_upgrade");
    var force := RequiredBool(row, "need_force_upgrade");
    var date, size := RequiredString(row, "release_date"), RequiredInt(row, "file_size");
    if model.Some? && hardware.Some? && oem.Some? && latest.Some? && download.Some? && upgrade.Some? && force.Some?
       && date.Some? && size.Some?
    then Some(ReleaseKey(model.value, hardware.value, oem.value, latest.value, download.value, upgrade.value,
                         force.value, date.value, size.value))
    else None
  }

  function ReadHttpRow(row: Json): Option<HttpRow> {
    var key, software := ReadKey(row, "new_version"), RequiredString(row, "software_ver");
    var device := RequiredString(row, "device_id");
    if key.Some? && software.Some? && device.Some? then Some(HttpRow(key.value, software.value, device.value)) else None
  }

  function ReadTmpRow(row: Json): Option<TmpRow> {
    var key, note := ReadKey(row, "version"), RequiredString(row, "release_note");
    var devices := RequiredStrings(row, "device_id_list");
    if key.Some? && note.Some? && devices.Some? then Some(TmpRow(key.value, note.value, devices.value)) else None
  }

  /** `_required_rows`. */
  function Rows(data: Json): Option<seq<Json>> {
    var v := Get(data, "fw_list");
    if v.Some? && v.value.Array? && forall i :: 0 <= i < |v.value.items| ==> v.value.items[i].Object?
    then Some(v.value.items) else None
  }

  function ReadHttpRows(rows: seq<Json>): Option<seq<HttpRow>> {
    if rows == [] then Some([])
    else
      var init, last := ReadHttpRows(rows[..|rows| - 1]), ReadHttpRow(rows[|rows| - 1]);
      if init.Some? && last.Some? then Some(init.value + [last.value]) else None
  }

  function ReadTmpRows(rows: seq<Json>): Option<seq<TmpRow>> {
    if rows == [] then Some([])
    else
      var init, last := ReadTmpRows(rows[..|rows| - 1]), ReadTmpRow(rows[|rows| - 1]);
      if init.Some? && last.Some? then Some(init.value + [last.value]) else None
  }

  // ----- releases

  datatype Release = Release(note: Option<string>, currentVersions: set<string>, deviceIds: set<string>)

  type Releases = map<ReleaseKey, Release>

  function Found(m: Releases, key: ReleaseKey, blank: Release): Release {
    if key in m then m[key] else blank
  }

  function AddHttp(m: Releases, row: HttpRow): Releases {
    var r := Found(m, row.key, Release(None, {}, {}));
    m[row.key := r.(currentVersions := r.currentVersions + {row.softwareVersion},
                    deviceIds := r.deviceIds + {row.deviceId})]
  }

  function AddTmp(m: Releases, row: TmpRow): Releases {
    var r := Found(m, row.key, Release(Some(row.note), {}, {}));
    m[row.key := r.(deviceIds := r.deviceIds + Elements(row.devices))]
  }

  function Elements(s: seq<string>): (e: set<string>)
    ensures forall x :: x in e <==> x in s
  {
    if s == [] then {} else {s[0]} + Elements(s[1..])
  }

  function GroupHttp(rows: seq<HttpRow>): Releases {
    if rows == [] then map[] else AddHttp(GroupHttp(rows[..|rows| - 1]), rows[|rows| - 1])
  }

  function GroupTmp(rows: seq<TmpRow>): Releases {
    if rows == [] then map[] else AddTmp(GroupTmp(rows[..|rows| - 1]), rows[|rows| - 1])
  }

  // ----- sorting

  ghost predicate Total<T(!new)>(less: (T, T) -> bool) {
    && (forall a :: !less(a, a))
    && (forall a, b :: a != b ==> less(a, b) || less(b, a))
    && (forall a, b, c :: less(a, b) && less(b, c) ==> less(a, c))
  }

  predicate First<T(==)>(less: (T, T) -> bool, s: set<T>, x: T) {
    x in s && forall y :: y in s && y != x ==> less(x, y)
  }

  lemma {:induction false} FirstExists<T(!new)>(less: (T, T) -> bool, s: set<T>)
    requires Total(less) && s != {}
    ensures exists x :: First(less, s, x)
  {
    var x :| x in s;
    var rest := s - {x};
    if rest == {} {
      assert forall y :: y in s ==> y == x || y in rest;
      assert First(less, s, x);
    } else {
      FirstExists(less, rest);
      var m :| First(less, rest, m);
      var first := if less(x, m) then x else m;
      assert forall y :: y in s ==> y == x || y in rest;
      assert First(less, s, first);
    }
  }

  /** `sorted` on a set. */
  ghost function Sorted<T(!new)>(less: (T, T) -> bool, s: set<T>): seq<T> {
    if exists x :: First(less, s, x) then
      var x :| First(less, s, x);
      [x] + Sorted(less, s - {x})
    else []
  }

  lemma {:induction false} SortedSorts<T(!new)>(less: (T, T) -> bool, s: set<T>)
    requires Total(less)
    ensures var r := Sorted(less, s);
            && |r| == |s| && (forall x :: x in r <==> x in s)
            && forall i, j :: 0 <= i < j < |r| ==> less(r[i], r[j])
    decreases s
  {
    hide Total;
    if s == {} {
      assert !exists x :: First(less, s, x);
    } else {
      FirstExists(less, s);
      var x := Sorted(less, s)[0];
      assert First(less, s, x);
      SortedSorts(less, s - {x});
    }
  }

  /** Code-point order of strings. */
  predicate StringLess(a: string, b: string) {
    b != "" && (a == "" || a[0] < b[0] || (a[0] == b[0] && StringLess(a[1..], b[1..])))
  }

  datatype Part = P(s: string) | B(b: bool) | N(n: int)

  predicate PartLess(p: Part, q: Part) {
    match (p, q)
    case (P(s), P(t)) => StringLess(s, t)
    case (B(b), B(c)) => !b && c
    case (N(m), N(n)) => m < n
    case (P(_), _) => true
    case (B(_), N(_)) => true
    case (_, _) => false
  }

  predicate TupleLess(a: seq<Part>, b: seq<Part>) {
    b != [] && (a == [] || PartLess(a[0], b[0]) || (a[0] == b[0] && TupleLess(a[1..], b[1..])))
  }

  /** `_release_key`. */
  function Parts(k: ReleaseKey): seq<Part> {
    [P(k.deviceModel), P(k.hardwareId), P(k.oemId), P(k.latestVersion),
     B(k.needToDownload), B(k.needToUpgrade), B(k.forceUpgrade), P(k.releaseDate), N(k.fileSizeBytes)]
  }

  predicate KeyLess(a: ReleaseKey, b: ReleaseKey) {
    TupleLess(Parts(a), Parts(b))
  }

  lemma {:induction false} StringsOrdered(a: string, b: string, c: string)
    ensures !StringLess(a, a)
    ensures a != b ==> StringLess(a, b) || StringLess(b, a)
    ensures StringLess(a, b) && StringLess(b, c) ==> StringLess(a, c)
    decreases |a| + |b| + |c|
  {
    if a != "" && b != "" && c != "" {
      StringsOrdered(a[1..], b[1..], c[1..]);
      assert a == [a[0]] + a[1..] && b == [b[0]] + b[1..];
    } else if a != "" && b != "" {
      StringsOrdered(a[1..], b[1..], c);
      assert a == [a[0]] + a[1..] && b == [b[0]] + b[1..];
    } else if a != "" {
      StringsOrdered(a[1..], b, c);
    }
  }

  lemma PartsOrdered(a: Part, b: Part, c: Part)
    ensures !PartLess(a, a)
    ensures a != b ==> PartLess(a, b) || PartLess(b, a)
    ensures PartLess(a, b) && PartLess(b, c) ==> PartLess(a, c)
  {
    hide StringLess;
    StringsOrdered(if a.P? then a.s else "", if b.P? then b.s else "", if c.P? then c.s else "");
  }

  lemma {:induction false} TuplesOrdered(a: seq<Part>, b: seq<Part>, c: seq<Part>)
    ensures !TupleLess(a, a)
    ensures a != b ==> TupleLess(a, b) || TupleLess(b, a)
    ensures TupleLess(a, b) && TupleLess(b, c) ==> TupleLess(a, c)
    decreases |a| + |b| + |c|
  {
    hide PartLess;
    if a != [] && b != [] && c != [] {
      PartsOrdered(a[0], b[0], c[0]);
      TuplesOrdered(a[1..], b[1..], c[1..]);
      assert a == [a[0]] + a[1..] && b == [b[0]] + b[1..];
    } else if a != [] && b != [] {
      PartsOrdered(a[0], b[0], b[0]);
      TuplesOrdered(a[1..], b[1..], c);
      assert a == [a[0]] + a[1..] && b == [b[0]] + b[1..];
    } else if a != [] {
      PartsOrdered(a[0], a[0], a[0]);
      TuplesOrdered(a[1..], b, c);
    }
  }

  lemma PartsInjective(a: ReleaseKey, b: ReleaseKey)
    requires Parts(a) == Parts(b)
    ensures a == b
  {
    var p, q := Parts(a), Parts(b);
    assert p[0] == q[0] && p[1] == q[1] && p[2] == q[2] && p[3] == q[3] && p[4] == q[4];
    assert p[5] == q[5] && p[6] == q[6] && p[7] == q[7] && p[8] == q[8];
  }

  lemma KeysTotal()
    ensures Total(KeyLess)
  {
    hide TupleLess, Parts;
    forall a, b, c
      ensures !KeyLess(a, a)
      ensures a != b ==> KeyLess(a, b) || KeyLess(b, a)
      ensures KeyLess(a, b) && KeyLess(b, c) ==> KeyLess(a, c)
    {
      TuplesOrdered(Parts(a), Parts(b), Parts(c));
      if Parts(a) == Parts(b) {
        PartsInjective(a, b);
      }
    }
  }

  lemma StringsTotal()
    ensures Total(StringLess)
  {
    hide StringLess;
    forall a, b, c
      ensures !StringLess(a, a)
      ensures a != b ==> StringLess(a, b) || StringLess(b, a)
      ensures StringLess(a, b) && StringLess(b, c) ==> StringLess(a, c)
    {
      StringsOrdered(a, b, c);
    }
  }

  // ----- views

  datatype ReleaseView = ReleaseView(
    key: ReleaseKey, note: Option<string>, currentVersions: seq<string>, deviceIds: seq<string>)

  datatype View = View(updateAvailable: bool, releaseCount: nat, releases: seq<ReleaseView>, unavailable: seq<string>)

  ghost function ViewOf(k: ReleaseKey, r: Release): ReleaseView {
    ReleaseView(k, r.note, Sorted(StringLess, r.currentVersions), Sorted(StringLess, r.deviceIds))
  }

  /** Some release is to be downloaded or installed. */
  predicate Available(keys: set<ReleaseKey>) {
    exists k :: k in keys && (k.needToDownload || k.needToUpgrade)
  }

  /** `_firmware_view`. */
  ghost function FirmwareView(m: Releases, unavailable: seq<string>): (v: View)
    ensures v.releaseCount == |v.releases| == |m|
  {
    KeysTotal();
    SortedSorts(KeyLess, m.Keys);
    var keys := Sorted(KeyLess, m.Keys);
    View(Available(m.Keys), |keys|,
         seq(|keys|, i requires 0 <= i < |keys| => assert keys[i] in keys; ViewOf(keys[i], m[keys[i]])), unavailable)
  }

  const HTTP_GAPS: seq<string> := ["releases[].release_note"]
  const TMP_GAPS: seq<string> := ["releases[].current_versions"]

  ghost function HttpView(rows: seq<HttpRow>): View {
    FirmwareView(GroupHttp(rows), HTTP_GAPS)
  }

  ghost function TmpView(rows: seq<TmpRow>): View {
    FirmwareView(GroupTmp(rows), TMP_GAPS)
  }

  // ----- the normalizers

  /** `sorted`, by picking the first of what is left. */
  method Sort<T(!new, ==)>(less: (T, T) -> bool, s: set<T>) returns (r: seq<T>)
    requires Total(less)
    ensures r == Sorted(less, s)
  {
    hide Sorted, First, Total;
    SortedNothing(less);
    r := [];
    var left := s;
    assert [] + Sorted(less, s) == Sorted(less, s);
    while left != {}
      invariant r + Sorted(less, left) == Sorted(less, s)
      decreases left
    {
      var x := PickFirst(less, left);
      SortedStep(less, left, x);
      assert r + ([x] + Sorted(less, left - {x})) == (r + [x]) + Sorted(less, left - {x});
      r, left := r + [x], left - {x};
    }
  }

  lemma SortedNothing<T(!new)>(less: (T, T) -> bool)
    ensures Sorted(less, {}) == []
  {
    assert !exists x :: First(less, {}, x);
  }

  method PickFirst<T(!new, ==)>(less: (T, T) -> bool, s: set<T>) returns (x: T)
    requires Total(less) && s != {}
    ensures x in s && First(less, s, x)
  {
    hide Total;
    FirstExists(less, s);
    x :| x in s && First(less, s, x);
  }

  lemma FirstUnique<T(!new)>(less: (T, T) -> bool, s: set<T>, x: T, y: T)
    requires Total(less) && First(less, s, x) && First(less, s, y)
    ensures x == y
  {}

  lemma SortedStep<T(!new)>(less: (T, T) -> bool, s: set<T>, x: T)
    requires Total(less) && First(less, s, x) && x in s
    ensures Sorted(less, s) == [x] + Sorted(less, s - {x})
  {
    hide Total, First;
    var y := Sorted(less, s)[0];
    assert First(less, s, y);
    FirstUnique(less, s, x, y);
  }

  /** `_firmware_view` and `to_dict`. */
  method MakeView(m: Releases, unavailable: seq<string>) returns (v: View)
    ensures v == FirmwareView(m, unavailable)
  {
    hide Sorted, Total, KeyLess, StringLess;
    KeysTotal();
    StringsTotal();
    SortedSorts(KeyLess, m.Keys);
    var ordered := Sort(KeyLess, m.Keys);
    var releases: seq<ReleaseView> := [];
    for i := 0 to |ordered|
      invariant |releases| == i
      invariant forall j :: 0 <= j < i ==> ordered[j] in m && releases[j] == ViewOf(ordered[j], m[ordered[j]])
    {
      var k := ordered[i];
      assert k in ordered;
      var versions := Sort(StringLess, m[k].currentVersions);
      var devices := Sort(StringLess, m[k].deviceIds);
      releases := releases + [ReleaseView(k, m[k].note, versions, devices)];
    }
    v := View(Available(m.Keys), |ordered|, releases, unavailable);
    assert v.releases == FirmwareView(m, unavailable).releases;
  }

  /** The loop of `normalize_http_firmware_status`: `None` for any malformed row. */
  method GatherHttp(data: Json) returns (releases: Option<Releases>, ghost rows: seq<HttpRow>)
    ensures releases.None? <==> Rows(data).None? || ReadHttpRows(Rows(data).value).None?
    ensures releases.Some? ==> ReadHttpRows(Rows(data).value) == Some(rows) && releases.value == GroupHttp(rows)
  {
    hide ReadHttpRow, AddHttp;
    rows := [];
    var items := Rows(data);
    if items.None? {
      return None, rows;
    }
    var m: Releases := map[];
    for i := 0 to |items.value|
      invariant ReadHttpRows(items.value[..i]) == Some(rows) && m == GroupHttp(rows)
    {
      assert items.value[..i + 1][..i] == items.value[..i];
      var row := ReadHttpRow(items.value[i]);
      if row.None? {
        HttpPrefixFails(items.value, i + 1);
        return None, rows;
      }
      m := AddHttp(m, row.value);
      assert (rows + [row.value])[..|rows|] == rows;
      rows := rows + [row.value];
    }
    assert items.value[..|items.value|] == items.value;
    return Some(m), rows;
  }

  /** `normalize_http_firmware_status`. */
  method NormalizeHttp(data: Json) returns (view: Option<View>, ghost rows: seq<HttpRow>)
    ensures view.None? <==> Rows(data).None? || ReadHttpRows(Rows(data).value).None?
    ensures view.Some? ==> ReadHttpRows(Rows(data).value) == Some(rows) && view.value == HttpView(rows)
  {
    hide FirmwareView, Rows, ReadHttpRows, GroupHttp;
    var releases;
    releases, rows := GatherHttp(data);
    if releases.None? {
      return None, rows;
    }
    var made := MakeView(releases.value, HTTP_GAPS);
    return Some(made), rows;
  }

  lemma {:induction false} HttpPrefixFails(rows: seq<Json>, n: nat)
    requires n <= |rows| && ReadHttpRows(rows[..n]).None?
    ensures ReadHttpRows(rows).None?
    decreases |rows|
  {
    if n < |rows| {
      assert rows[..|rows| - 1][..n] == rows[..n];
      HttpPrefixFails(rows[..|rows| - 1], n);
    } else {
      assert rows[..n] == rows;
    }
  }

  /** The loop of `normalize_tmp_firmware_status`: `None` for any malformed row. */
  method GatherTmp(data: Json) returns (releases: Option<Releases>, ghost rows: seq<TmpRow>)
    ensures releases.None? <==> Rows(data).None? || ReadTmpRows(Rows(data).value).None?
    ensures releases.Some? ==> ReadTmpRows(Rows(data).value) == Some(rows) && releases.value == GroupTmp(rows)
  {
    hide ReadTmpRow, AddTmp;
    rows := [];
    var items := Rows(data);
    if items.None? {
      return None, rows;
    }
    var m: Releases := map[];
    for i := 0 to |items.value|
      invariant ReadTmpRows(items.value[..i]) == Some(rows) && m == GroupTmp(rows)
    {
      assert items.value[..i + 1][..i] == items.value[..i];
      var row := ReadTmpRow(items.value[i]);
      if row.None? {
        TmpPrefixFails(items.value, i + 1);
        return None, rows;
      }
      m := AddTmp(m, row.value);
      assert (rows + [row.value])[..|rows|] == rows;
      rows := rows + [row.value];
    }
    assert items.value[..|items.value|] == items.value;
    return Some(m), rows;
  }

  /** `normalize_tmp_firmware_status`. */
  method NormalizeTmp(data: Json) returns (view: Option<View>, ghost rows: seq<TmpRow>)
    ensures view.None? <==> Rows(data).None? || ReadTmpRows(Rows(data).value).None?
    ensures view.Some? ==> ReadTmpRows(Rows(data).value) == Some(rows) && view.value == TmpView(rows)
  {
    hide FirmwareView, Rows, ReadTmpRows, GroupTmp;
    var releases;
    releases, rows := GatherTmp(data);
    if releases.None? {
      return None, rows;
    }
    var made := MakeView(releases.value, TMP_GAPS);
    return Some(made), rows;
  }

  lemma {:induction false} TmpPrefixFails(rows: seq<Json>, n: nat)
    requires n <= |rows| && ReadTmpRows(rows[..n]).None?
    ensures ReadTmpRows(rows).None?
    decreases |rows|
  {
    if n < |rows| {
      assert rows[..|rows| - 1][..n] == rows[..n];
      TmpPrefixFails(rows[..|rows| - 1], n);
    } else {
      assert rows[..n] == rows;
    }
  }

  // ----- what the groups are

  ghost predicate HttpKey(rows: seq<HttpRow>, k: ReleaseKey) {
    exists i :: 0 <= i < |rows| && rows[i].key == k
  }

  ghost predicate TmpKey(rows: seq<TmpRow>, k: ReleaseKey) {
    exists i :: 0 <= i < |rows| && rows[i].key == k
  }

  ghost predicate HttpVersion(rows: seq<HttpRow>, k: ReleaseKey, v: string) {
    exists i :: 0 <= i < |rows| && rows[i].key == k && rows[i].softwareVersion == v
  }

  ghost predicate HttpDevice(rows: seq<HttpRow>, k: ReleaseKey, d: string) {
    exists i :: 0 <= i < |rows| && rows[i].key == k && rows[i].deviceId == d
  }

  ghost predicate TmpDevice(rows: seq<TmpRow>, k: ReleaseKey, d: string) {
    exists i :: 0 <= i < |rows| && rows[i].key == k && d in rows[i].devices
  }

  /** A release gathers exactly the devices and versions of the rows with its key. */
  lemma {:induction false} HttpGroup(rows: seq<HttpRow>, k: ReleaseKey)
    ensures var m := GroupHttp(rows);
            && (k in m <==> HttpKey(rows, k))
            && (k in m ==>
                  && m[k].note == None
                  && (forall v :: v in m[k].currentVersions <==> HttpVersion(rows, k, v))
                  && (forall d :: d in m[k].deviceIds <==> HttpDevice(rows, k, d)))
  {
    hide HttpKey, HttpVersion, HttpDevice;
    if rows == [] {
      NoHttpRows(k);
    } else {
      var init, last := rows[..|rows| - 1], rows[|rows| - 1];
      HttpGroup(init, k);
      assert rows == init + [last];
      OneMoreHttpRow(init, last, k);
    }
  }

  lemma NoHttpRows(k: ReleaseKey)
    ensures !HttpKey([], k)
  {}

  lemma OneMoreHttpRow(init: seq<HttpRow>, last: HttpRow, k: ReleaseKey)
    ensures var rows := init + [last];
            && (HttpKey(rows, k) <==> HttpKey(init, k) || last.key == k)
            && (forall v :: HttpVersion(rows, k, v)
                            <==> HttpVersion(init, k, v) || (last.key == k && last.softwareVersion == v))
            && (forall d :: HttpDevice(rows, k, d) <==> HttpDevice(init, k, d) || (last.key == k && last.deviceId == d))
    ensures !HttpKey(init, k) ==> forall v :: !HttpVersion(init, k, v)
    ensures !HttpKey(init, k) ==> forall d :: !HttpDevice(init, k, d)
  {
    var rows := init + [last];
    assert rows[|init|] == last;
    assert forall i :: 0 <= i < |init| ==> rows[i] == init[i];
  }

  lemma {:induction false} TmpGroup(rows: seq<TmpRow>, k: ReleaseKey)
    ensures var m := GroupTmp(rows);
            && (k in m <==> TmpKey(rows, k))
            && (k in m ==>
                  && m[k].currentVersions == {}
                  && (forall d :: d in m[k].deviceIds <==> TmpDevice(rows, k, d)))
  {
    hide TmpKey, TmpDevice;
    if rows == [] {
      NoTmpRows(k);
    } else {
      var init, last := rows[..|rows| - 1], rows[|rows| - 1];
      TmpGroup(init, k);
      assert rows == init + [last];
      OneMoreTmpRow(init, last, k);
    }
  }

  /** The note of a release is that of the first row with its key. */
  lemma {:induction false} TmpNoteIsFirst(rows: seq<TmpRow>, k: ReleaseKey) returns (i: nat)
    requires k in GroupTmp(rows)
    ensures i < |rows| && rows[i].key == k && (forall j :: 0 <= j < i ==> rows[j].key != k)
    ensures GroupTmp(rows)[k].note == Some(rows[i].note)
  {
    var init := rows[..|rows| - 1];
    if k in GroupTmp(init) {
      i := TmpNoteIsFirst(init, k);
    } else {
      i := |rows| - 1;
      TmpGroup(init, k);
      forall j | 0 <= j < i
        ensures rows[j].key != k
      {
        assert rows[j] == init[j];
      }
    }
  }

  lemma NoTmpRows(k: ReleaseKey)
    ensures !TmpKey([], k)
  {}

  lemma OneMoreTmpRow(init: seq<TmpRow>, last: TmpRow, k: ReleaseKey)
    ensures var rows := init + [last];
            && (TmpKey(rows, k) <==> TmpKey(init, k) || last.key == k)
            && (forall d :: TmpDevice(rows, k, d) <==> TmpDevice(init, k, d) || (last.key == k && d in last.devices))
    ensures !TmpKey(init, k) ==> forall d :: !TmpDevice(init, k, d)
  {
    var rows := init + [last];
    assert rows[|init|] == last;
    assert forall i :: 0 <= i < |init| ==> rows[i] == init[i];
  }

  /** The HTTP view depends only on which rows there are, so any permutation of them gives the same view. */
  lemma HttpOrderIrrelevant(a: seq<HttpRow>, b: seq<HttpRow>)
    requires forall r :: r in a <==> r in b
    ensures HttpView(a) == HttpView(b)
  {
    hide GroupHttp, FirmwareView, HttpKey, HttpVersion, HttpDevice;
    var m, n := GroupHttp(a), GroupHttp(b);
    SameRows(a, b);
    forall k
      ensures k in m <==> k in n
      ensures k in m ==> m[k] == n[k]
    {
      HttpGroup(a, k);
      HttpGroup(b, k);
      assert HttpKey(a, k) <==> HttpKey(b, k);
      if k in m {
        assert forall v :: HttpVersion(a, k, v) <==> HttpVersion(b, k, v);
        assert m[k].currentVersions == n[k].currentVersions;
        assert forall d :: HttpDevice(a, k, d) <==> HttpDevice(b, k, d);
        assert m[k].deviceIds == n[k].deviceIds;
      }
    }
    assert m == n;
  }

  lemma SameRows(a: seq<HttpRow>, b: seq<HttpRow>)
    requires forall r :: r in a <==> r in b
    ensures forall k :: HttpKey(a, k) <==> HttpKey(b, k)
    ensures forall k, v :: HttpVersion(a, k, v) <==> HttpVersion(b, k, v)
    ensures forall k, d :: HttpDevice(a, k, d) <==> HttpDevice(b, k, d)
  {
    RowsWithin(a, b);
    RowsWithin(b, a);
  }

  lemma RowsWithin(a: seq<HttpRow>, b: seq<HttpRow>)
    requires forall r :: r in a ==> r in b
    ensures forall k :: HttpKey(a, k) ==> HttpKey(b, k)
    ensures forall k, v :: HttpVersion(a, k, v) ==> HttpVersion(b, k, v)
    ensures forall k, d :: HttpDevice(a, k, d) ==> HttpDevice(b, k, d)
  {
    forall i | 0 <= i < |a|
      ensures exists j :: 0 <= j < |b| && b[j] == a[i]
    {
      assert a[i] in b;
    }
  }

  // ----- agreement of the two interfaces

  /** The HTTP rows are the TMP rows, one for each device. */
  ghost predicate PerDevice(http: seq<HttpRow>, tmp: seq<TmpRow>) {
    forall k, d :: HttpDevice(http, k, d) <==> TmpDevice(tmp, k, d)
  }

  /** Every release names a device in some row. */
  ghost predicate AllHaveDevices(tmp: seq<TmpRow>) {
    forall k :: TmpKey(tmp, k) ==> exists d :: TmpDevice(tmp, k, d)
  }

  ghost predicate SameRelease(a: ReleaseView, b: ReleaseView) {
    a.key == b.key && a.deviceIds == b.deviceIds
  }

  /** Equal but for current versions, release notes and the declared gaps. */
  ghost predicate Agree(a: View, b: View) {
    && a.updateAvailable == b.updateAvailable && a.releaseCount == b.releaseCount && |a.releases| == |b.releases|
    && forall i :: 0 <= i < |a.releases| ==> SameRelease(a.releases[i], b.releases[i])
  }

  lemma HttpKeyHasDevice(http: seq<HttpRow>, k: ReleaseKey)
    ensures HttpKey(http, k) <==> exists d :: HttpDevice(http, k, d)
  {
    if i :| 0 <= i < |http| && http[i].key == k {
      assert HttpDevice(http, k, http[i].deviceId);
    }
  }

  lemma SubsetOfSameSize(a: set<ReleaseKey>, b: set<ReleaseKey>)
    requires a <= b && |a| == |b|
    ensures a == b
  {
    assert a + (b - a) == b;
    assert |b - a| == 0;
  }

  /** The groups of the two interfaces have the same keys exactly when every release names a device. */
  lemma SameKeys(http: seq<HttpRow>, tmp: seq<TmpRow>)
    requires PerDevice(http, tmp)
    ensures var m, n := GroupHttp(http), GroupTmp(tmp);
            && m.Keys <= n.Keys
            && (m.Keys == n.Keys <==> AllHaveDevices(tmp))
            && forall k :: k in m ==> m[k].deviceIds == n[k].deviceIds
  {
    hide HttpKey, HttpVersion, HttpDevice, TmpKey, GroupHttp, GroupTmp;
    var m, n := GroupHttp(http), GroupTmp(tmp);
    forall k
      ensures k in n <==> TmpKey(tmp, k)
      ensures k in m <==> exists d :: TmpDevice(tmp, k, d)
      ensures (exists d :: TmpDevice(tmp, k, d)) ==> k in n
      ensures k in m ==> m[k].deviceIds == n[k].deviceIds
    {
      HttpGroup(http, k);
      TmpGroup(tmp, k);
      HttpKeyHasDevice(http, k);
      TmpDeviceHasKey(tmp, k);
      assert forall d :: HttpDevice(http, k, d) <==> TmpDevice(tmp, k, d);
      if k in m {
        assert k in n;
        assert m[k].deviceIds == n[k].deviceIds;
      }
    }
  }

  lemma TmpDeviceHasKey(tmp: seq<TmpRow>, k: ReleaseKey)
    ensures (exists d :: TmpDevice(tmp, k, d)) ==> TmpKey(tmp, k)
  {}

  lemma SameKeysAgree(m: Releases, n: Releases)
    requires m.Keys == n.Keys && forall k :: k in m ==> m[k].deviceIds == n[k].deviceIds
    ensures Agree(FirmwareView(m, HTTP_GAPS), FirmwareView(n, TMP_GAPS))
  {
    hide FirmwareView, Sorted, KeyLess, StringLess, ViewOf, SameRelease;
    ViewFields(m, HTTP_GAPS);
    ViewFields(n, TMP_GAPS);
    assert |m| == |m.Keys| && |n| == |n.Keys|;
    var keys := Sorted(KeyLess, m.Keys);
    forall i | 0 <= i < |m|
      ensures SameRelease(FirmwareView(m, HTTP_GAPS).releases[i], FirmwareView(n, TMP_GAPS).releases[i])
    {
      SameViews(keys[i], m[keys[i]], n[keys[i]]);
    }
  }

  lemma ViewFields(m: Releases, gaps: seq<string>)
    ensures var v, keys := FirmwareView(m, gaps), Sorted(KeyLess, m.Keys);
            && v.updateAvailable == Available(m.Keys) && |v.releases| == |keys| == |m|
            && forall i :: 0 <= i < |m| ==> keys[i] in m && v.releases[i] == ViewOf(keys[i], m[keys[i]])
  {
    hide Sorted, KeyLess, StringLess, ViewOf, Total;
    KeysTotal();
    SortedSorts(KeyLess, m.Keys);
  }

  lemma SameViews(k: ReleaseKey, a: Release, b: Release)
    requires a.deviceIds == b.deviceIds
    ensures SameRelease(ViewOf(k, a), ViewOf(k, b))
  {
    hide Sorted, StringLess;
  }

  /** Both interfaces give the same releases exactly when every release names a device. */
  lemma InterfacesAgree(http: seq<HttpRow>, tmp: seq<TmpRow>)
    requires PerDevice(http, tmp)
    ensures Agree(HttpView(http), TmpView(tmp)) <==> AllHaveDevices(tmp)
  {
    hide FirmwareView, AllHaveDevices, SameRelease, GroupHttp, GroupTmp, PerDevice;
    var m, n := GroupHttp(http), GroupTmp(tmp);
    SameKeys(http, tmp);
    if m.Keys == n.Keys {
      SameKeysAgree(m, n);
    } else if |m.Keys| == |n.Keys| {
      SubsetOfSameSize(m.Keys, n.Keys);
    }
    assert |m| == |m.Keys| && |n| == |n.Keys|;
  }

  // ----- rows on paper

  ghost predicate HasKey(row: Json, version: string, k: ReleaseKey) {
    && Get(row, "device_model") == Some(Text(k.deviceModel)) && Get(row, "hw_id") == Some(Text(k.hardwareId))
    && Get(row, "oem_id") == Some(Text(k.oemId)) && Get(row, version) == Some(Text(k.latestVersion))
    && Get(row, "need_to_download") == Some(Boolean(k.needToDownload))
    && Get(row, "need_to_upgrade") == Some(Boolean(k.needToUpgrade))
    && Get(row, "need_force_upgrade") == Some(Boolean(k.forceUpgrade))
    && Get(row, "release_date") == Some(Text(k.releaseDate)) && Get(row, "file_size") == Some(Integer(k.fileSizeBytes))
  }

  /** A row is read as this one exactly when its members say so. */
  lemma HttpRowExactly(row: Json, r: HttpRow)
    ensures ReadHttpRow(row) == Some(r)
       <==> && HasKey(row, "new_version", r.key) && Get(row, "software_ver") == Some(Text(r.softwareVersion))
            && Get(row, "device_id") == Some(Text(r.deviceId))
  {
    hide Lookup, ReadKey, Get, HasKey;
    KeyExactly(row, "new_version", r.key);
    if ReadKey(row, "new_version").Some? {
      KeyExactly(row, "new_version", ReadKey(row, "new_version").value);
    }
  }

  lemma TmpRowExactly(row: Json, r: TmpRow)
    ensures ReadTmpRow(row) == Some(r)
       <==> && HasKey(row, "version", r.key) && Get(row, "release_note") == Some(Text(r.note))
            && Get(row, "device_id_list").Some? && Get(row, "device_id_list").value == Array(Texts(r.devices))
  {
    hide Lookup, ReadKey, Get, HasKey;
    KeyExactly(row, "version", r.key);
    if Get(row, "device_id_list").Some? && Get(row, "device_id_list").value.Array? {
      StringsExactly(Get(row, "device_id_list").value.items, r.devices);
    }
  }

  lemma KeyExactly(row: Json, version: string, k: ReleaseKey)
    ensures ReadKey(row, version) == Some(k) <==> HasKey(row, version, k)
  {
    hide Get;
  }

  function Texts(s: seq<string>): seq<Json> {
    if s == [] then [] else [Text(s[0])] + Texts(s[1..])
  }

  lemma {:induction false} StringsExactly(items: seq<Json>, s: seq<string>)
    ensures Strings(items) == Some(s) <==> items == Texts(s)
    decreases |items|
  {
    if items != [] && s != [] {
      StringsExactly(items[1..], s[1..]);
      assert items == [items[0]] + items[1..] && s == [s[0]] + s[1..];
    }
    if items != [] && Strings(items[1..]).Some? {
      StringsExactly(items[1..], Strings(items[1..]).value);
    }
  }

  // ----- the view

  /** The strings agree up to `n`, where the first one ends or has the smaller character. */
  predicate BreaksAt(a: string, b: string, n: nat) {
    n < |b| && n <= |a| && a[..n] == b[..n] && (n == |a| || a[n] < b[n])
  }

  lemma {:induction false} StringOrder(a: string, b: string)
    ensures StringLess(a, b) <==> exists n: nat :: BreaksAt(a, b, n)
  {
    forall n: nat | 0 < n <= |a| && n <= |b| && a[..n] == b[..n]
      ensures a[0] == b[0]
    {
      assert a[..n][0] == a[0] && b[..n][0] == b[0];
    }
    if b != "" && (a == "" || a[0] < b[0]) {
      assert BreaksAt(a, b, 0);
    } else if b != "" && a[0] == b[0] {
      StringOrder(a[1..], b[1..]);
      if n: nat :| BreaksAt(a[1..], b[1..], n) {
        assert a[..n + 1] == [a[0]] + a[1..][..n] && b[..n + 1] == [b[0]] + b[1..][..n];
        assert BreaksAt(a, b, n + 1);
      }
      if n: nat :| BreaksAt(a, b, n) {
        assert a[1..][..n - 1] == a[..n][1..] && b[1..][..n - 1] == b[..n][1..];
        assert BreaksAt(a[1..], b[1..], n - 1);
      }
    }
  }

  /** Releases are ordered by their first field that differs. */
  lemma KeyOrder(a: ReleaseKey, b: ReleaseKey)
    ensures KeyLess(a, b)
       <==> if a.deviceModel != b.deviceModel then StringLess(a.deviceModel, b.deviceModel)
            else if a.hardwareId != b.hardwareId then StringLess(a.hardwareId, b.hardwareId)
            else if a.oemId != b.oemId then StringLess(a.oemId, b.oemId)
            else if a.latestVersion != b.latestVersion then StringLess(a.latestVersion, b.latestVersion)
            else if a.needToDownload != b.needToDownload then b.needToDownload
            else if a.needToUpgrade != b.needToUpgrade then b.needToUpgrade
            else if a.forceUpgrade != b.forceUpgrade then b.forceUpgrade
            else if a.releaseDate != b.releaseDate then StringLess(a.releaseDate, b.releaseDate)
            else a.fileSizeBytes < b.fileSizeBytes
  {
    hide TupleLess, StringLess;
    PartsInOrder(Parts(a), Parts(b), a, b);
  }

  lemma PartsInOrder(p: seq<Part>, q: seq<Part>, a: ReleaseKey, b: ReleaseKey)
    requires p == Parts(a) && q == Parts(b)
    ensures TupleLess(p, q)
       <==> if a.deviceModel != b.deviceModel then StringLess(a.deviceModel, b.deviceModel)
            else if a.hardwareId != b.hardwareId then StringLess(a.hardwareId, b.hardwareId)
            else if a.oemId != b.oemId then StringLess(a.oemId, b.oemId)
            else if a.latestVersion != b.latestVersion then StringLess(a.latestVersion, b.latestVersion)
            else TupleLess(p[4..], q[4..])
    ensures TupleLess(p[4..], q[4..])
       <==> if a.needToDownload != b.needToDownload then b.needToDownload
            else if a.needToUpgrade != b.needToUpgrade then b.needToUpgrade
            else if a.forceUpgrade != b.forceUpgrade then b.forceUpgrade
            else if a.releaseDate != b.releaseDate then StringLess(a.releaseDate, b.releaseDate)
            else a.fileSizeBytes < b.fileSizeBytes
  {
    hide TupleLess, StringLess, Parts;
    PartsAre(a);
    PartsAre(b);
    TextAt(p, q, 0, a.deviceModel, b.deviceModel);
    TextAt(p, q, 1, a.hardwareId, b.hardwareId);
    TextAt(p, q, 2, a.oemId, b.oemId);
    TextAt(p, q, 3, a.latestVersion, b.latestVersion);
    FlagAt(p, q, 4, a.needToDownload, b.needToDownload);
    FlagAt(p, q, 5, a.needToUpgrade, b.needToUpgrade);
    FlagAt(p, q, 6, a.forceUpgrade, b.forceUpgrade);
    TextAt(p, q, 7, a.releaseDate, b.releaseDate);
    NumberLast(p, q, a.fileSizeBytes, b.fileSizeBytes);
    assert p[0..] == p && q[0..] == q;
  }

  lemma PartsAre(k: ReleaseKey)
    ensures var p := Parts(k);
            && |p| == 9 && p[0] == P(k.deviceModel) && p[1] == P(k.hardwareId) && p[2] == P(k.oemId)
            && p[3] == P(k.latestVersion) && p[4] == B(k.needToDownload) && p[5] == B(k.needToUpgrade)
            && p[6] == B(k.forceUpgrade) && p[7] == P(k.releaseDate) && p[8] == N(k.fileSizeBytes)
  {}

  lemma TextAt(p: seq<Part>, q: seq<Part>, i: nat, s: string, t: string)
    requires |p| == |q| && i < |p| && p[i] == P(s) && q[i] == P(t)
    ensures TupleLess(p[i..], q[i..]) == if s != t then StringLess(s, t) else TupleLess(p[i + 1..], q[i + 1..])
  {
    hide StringLess, TupleLess;
    TupleAt(p, q, i);
    StringsOrdered(s, s, s);
  }

  lemma FlagAt(p: seq<Part>, q: seq<Part>, i: nat, b: bool, c: bool)
    requires |p| == |q| && i < |p| && p[i] == B(b) && q[i] == B(c)
    ensures TupleLess(p[i..], q[i..]) == if b != c then c else TupleLess(p[i + 1..], q[i + 1..])
  {
    hide TupleLess;
    TupleAt(p, q, i);
  }

  lemma NumberLast(p: seq<Part>, q: seq<Part>, m: int, n: int)
    requires |p| == |q| == 9 && p[8] == N(m) && q[8] == N(n)
    ensures TupleLess(p[8..], q[8..]) == (m < n)
  {
    hide TupleLess;
    TupleAt(p, q, 8);
    TupleAt(p, q, 9);
  }

  lemma TupleAt(p: seq<Part>, q: seq<Part>, i: nat)
    requires |p| == |q| && i <= |p|
    ensures i == |p| ==> !TupleLess(p[i..], q[i..])
    ensures i < |p| ==>
              TupleLess(p[i..], q[i..])
              == (PartLess(p[i], q[i]) || (p[i] == q[i] && TupleLess(p[i + 1..], q[i + 1..])))
  {
    if i < |p| {
      assert p[i..][1..] == p[i + 1..] && q[i..][1..] == q[i + 1..];
    }
  }

  ghost predicate Ascending<T(!new)>(less: (T, T) -> bool, r: seq<T>, s: set<T>) {
    && |r| == |s| && (forall x :: x in r <==> x in s)
    && forall i, j :: 0 <= i < j < |r| ==> less(r[i], r[j])
  }

  /** A view lists every release once, in order, each with its note and with its versions and devices in order. */
  lemma ViewSorted(m: Releases, gaps: seq<string>, i: nat, j: nat)
    requires i < j < |m|
    ensures var v := FirmwareView(m, gaps);
            && KeyLess(v.releases[i].key, v.releases[j].key)
            && v.releases[i].key in m && v.releases[j].key in m
  {
    hide FirmwareView, Sorted, KeyLess, ViewOf, Total;
    ViewFields(m, gaps);
    KeysTotal();
    SortedSorts(KeyLess, m.Keys);
    KeptKey(Sorted(KeyLess, m.Keys)[i], m[Sorted(KeyLess, m.Keys)[i]]);
    KeptKey(Sorted(KeyLess, m.Keys)[j], m[Sorted(KeyLess, m.Keys)[j]]);
  }

  lemma KeptKey(k: ReleaseKey, r: Release)
    ensures ViewOf(k, r).key == k && ViewOf(k, r).note == r.note
  {}

  lemma ReleaseShown(m: Releases, gaps: seq<string>, i: nat)
    requires i < |m|
    ensures var shown := FirmwareView(m, gaps).releases[i];
            && shown.key in m && shown.note == m[shown.key].note
            && Ascending(StringLess, shown.currentVersions, m[shown.key].currentVersions)
            && Ascending(StringLess, shown.deviceIds, m[shown.key].deviceIds)
  {
    hide FirmwareView, Sorted, KeyLess, StringLess, Total, ViewOf;
    ViewFields(m, gaps);
    var k := Sorted(KeyLess, m.Keys)[i];
    ShownOf(k, m[k]);
  }

  lemma ShownOf(k: ReleaseKey, r: Release)
    ensures var shown := ViewOf(k, r);
            && shown.key == k && shown.note == r.note
            && Ascending(StringLess, shown.currentVersions, r.currentVersions)
            && Ascending(StringLess, shown.deviceIds, r.deviceIds)
  {
    hide Sorted, StringLess, Total;
    StringsTotal();
    SortedSorts(StringLess, r.currentVersions);
    SortedSorts(StringLess, r.deviceIds);
  }

  /** An update is available exactly when some row says that a download or an upgrade is needed. */
  lemma HttpAvailable(rows: seq<HttpRow>)
    ensures HttpView(rows).updateAvailable
       <==> exists i :: 0 <= i < |rows| && (rows[i].key.needToDownload || rows[i].key.needToUpgrade)
  {
    hide FirmwareView, GroupHttp, HttpVersion, HttpDevice, ViewOf, Sorted, KeyLess;
    var m := GroupHttp(rows);
    ViewFields(m, HTTP_GAPS);
    if k :| k in m && (k.needToDownload || k.needToUpgrade) {
      HttpGroup(rows, k);
    }
    if i :| 0 <= i < |rows| && (rows[i].key.needToDownload || rows[i].key.needToUpgrade) {
      HttpGroup(rows, rows[i].key);
      assert HttpKey(rows, rows[i].key) && rows[i].key in m.Keys;
    }
  }

  lemma TmpAvailable(rows: seq<TmpRow>)
    ensures TmpView(rows).updateAvailable
       <==> exists i :: 0 <= i < |rows| && (rows[i].key.needToDownload || rows[i].key.needToUpgrade)
  {
    hide FirmwareView, GroupTmp, TmpDevice, ViewOf, Sorted, KeyLess;
    var m := GroupTmp(rows);
    ViewFields(m, TMP_GAPS);
    if k :| k in m && (k.needToDownload || k.needToUpgrade) {
      TmpGroup(rows, k);
    }
    if i :| 0 <= i < |rows| && (rows[i].key.needToDownload || rows[i].key.needToUpgrade) {
      TmpGroup(rows, rows[i].key);
      assert TmpKey(rows, rows[i].key) && rows[i].key in m.Keys;
    }
  }
}
