/**
 The current-value no-op verifiers against any router: preflight read, write of what was
 read, verifying read, and a rollback with its own read where that fails. A router is its
 list of replies; which requests it got is on its log.
 */
module NoopVerifier {
  import opened Wrappers
  import opened LabTarget

  // ----- the router

  type Fields = map<string, Value>

  /**
   A reply is a response, an error of a kind the verifiers catch, or another error.
   A response may lack an integer `error_code`, a `result` object or a device list.
   Of an error `sent` tells whether the request had left before it came up.
   */
  datatype Reply =
    | Answer(code: Option<int>, result: Option<Fields>, devices: Option<seq<Device>>)
    | Caught(kind: string, sent: bool)
    | Uncaught(kind: string, sent: bool)

  datatype Request = Identify | Read(operation: string) | Write(operation: string, state: Fields)

  /** Any router at all: nothing is known of its replies but that they are on record; `log` holds the calls made. */
  class Router {
    var log: seq<Request>
    var replies: seq<Reply>

    constructor ()
      ensures log == [] && replies == []
    {
      log, replies := [], [];
    }

    method Call(request: Request) returns (reply: Reply)
      modifies this
      ensures log == old(log) + [request] && replies == old(replies) + [reply]
    {
      reply := *;
      log, replies := log + [request], replies + [reply];
    }
  }

  // ----- what a reply to a read or a write tells

  type View = Reply -> Option<Fields>

  function RequiredFlag(f: Fields, key: string): Option<Fields> {
    if key in f && f[key].Flag? then Some(map[key := f[key]]) else None
  }

  predicate HasWord(f: Fields, key: string) {
    key in f && f[key].Word? && f[key].s != ""
  }

  /** `_read_state` of the HTTP verifier; a missing code counts as zero and a missing result as empty. */
  function HttpView(timeSetting: bool, r: Reply): Option<Fields> {
    if !r.Answer? || (r.code.Some? && r.code.value != 0) then None
    else
      var f := if r.result.Some? then r.result.value else map[];
      if !timeSetting then RequiredFlag(f, "enable")
      else if HasWord(f, "timezone") && HasWord(f, "continent") && HasWord(f, "tz_region") then
        Some(map["timezone" := f["timezone"], "continent" := f["continent"], "tz_region" := f["tz_region"]])
      else None
  }

  /** `_read_enable` of the TMP verifier. */
  function TmpView(r: Reply): Option<Fields> {
    if !r.Answer? || r.code != Some(0) || r.result.None? then None else RequiredFlag(r.result.value, "enable")
  }

  /** The firmware code and the error type recorded for a write. */
  function HttpWriteCode(r: Reply): (Option<int>, string) {
    match r
    case Answer(code, _, _) => (Some(if code.Some? then code.value else 0), "")
    case Caught(kind, _) => (None, kind)
    case Uncaught(kind, _) => (None, kind)
  }

  function TmpWriteCode(r: Reply): (Option<int>, string) {
    match r
    case Answer(code, _, _) => if code.Some? then (code, "") else (None, "InvalidFirmwareResponse")
    case Caught(kind, _) => (None, kind)
    case Uncaught(kind, _) => (None, kind)
  }

  // ----- what a run is to look like

  datatype Status = VerifiedNoop | RejectedOrUncertain | RollbackConfirmed | RollbackUnconfirmed

  datatype Report = Report(
    status: Status,
    writeCode: Option<int>, writeError: string,
    postReadSucceeded: bool, stateUnchanged: Option<bool>,
    rollbackAttempted: bool, rollbackCode: Option<int>, rollbackError: string, rollbackVerified: Option<bool>,
    mutationRequestCount: nat)

  datatype Outcome = Reported(report: Report) | PermissionError | ValueError | Raised

  /** How the verifier of one setting talks to its router. */
  datatype Setting = Setting(read: string, write: string, view: View, writeCode: Reply -> (Option<int>, string))

  function Writes(requests: seq<Request>): nat {
    if requests == [] then 0 else (if requests[0].Write? then 1 else 0) + Writes(requests[1..])
  }

  /** The requests of a run that preserves `before`: as many of these as it gets to. */
  function Plan(c: Setting, before: Fields): seq<Request> {
    [Read(c.read), Write(c.write, before), Read(c.read), Write(c.write, before), Read(c.read)]
  }

  /** What the read reports: the preflight value again, another one, or nothing. */
  function Compared(c: Setting, r: Reply, before: Fields): Option<bool> {
    if c.view(r).None? then None else Some(c.view(r).value == before)
  }

  /** The run sent `requests`, got `replies` and reported `r`. */
  ghost predicate Reports(c: Setting, requests: seq<Request>, replies: seq<Reply>, r: Report) {
    && |requests| == |replies| && (|requests| == 3 || |requests| == 5)
    && c.view(replies[0]).Some?
    && var before := c.view(replies[0]).value;
    && requests == Plan(c, before)[..|requests|]
    && (forall i :: 1 <= i < |replies| ==> !replies[i].Uncaught?)
    && (r.writeCode, r.writeError) == c.writeCode(replies[1])
    && r.postReadSucceeded == c.view(replies[2]).Some?
    && r.stateUnchanged == Compared(c, replies[2], before)
    && r.mutationRequestCount == Writes(requests)
    && if c.view(replies[2]) == Some(before) then
         && |requests| == 3 && !r.rollbackAttempted
         && r.status == (if r.writeCode == Some(0) && r.writeError == "" then VerifiedNoop else RejectedOrUncertain)
       else
         && |requests| == 5 && r.rollbackAttempted
         && (r.rollbackCode, r.rollbackError) == c.writeCode(replies[3])
         && r.rollbackVerified == Compared(c, replies[4], before)
         && r.status == (if c.view(replies[4]) == Some(before) then RollbackConfirmed else RollbackUnconfirmed)
  }

  /** The run was cut short: its preflight failed, or an error it does not catch came up later. */
  ghost predicate CutShort(c: Setting, requests: seq<Request>, replies: seq<Reply>) {
    && 1 <= |requests| == |replies| <= 5
    && (c.view(replies[0]).None? ==> requests == [Read(c.read)])
    && (c.view(replies[0]).Some? ==>
          && |requests| > 1
          && var before := c.view(replies[0]).value;
          && requests == Plan(c, before)[..|requests|]
          && replies[|replies| - 1].Uncaught?
          && (forall i :: 1 <= i < |replies| - 1 ==> !replies[i].Uncaught?)
          && (|requests| > 3 ==> c.view(replies[2]) != Some(before)))
  }

  ghost predicate Conforms(c: Setting, requests: seq<Request>, replies: seq<Reply>, o: Outcome) {
    match o
    case Reported(r) => Reports(c, requests, replies, r)
    case Raised => CutShort(c, requests, replies)
    case _ => requests == []
  }

  // ----- the verifiers

  /** `_write_state` and `_write_enable`. */
  method WriteState(router: Router, c: Setting, state: Fields) returns (reply: Reply)
    modifies router
    ensures router.log == old(router.log) + [Write(c.write, state)]
    ensures router.replies == old(router.replies) + [reply]
  {
    reply := router.Call(Write(c.write, state));
  }

  /** `_compare_state`: what a read reports, unless it raises an error that is not caught. */
  method CompareState(router: Router, c: Setting, before: Fields) returns (reply: Reply, same: Option<bool>)
    modifies router
    ensures router.log == old(router.log) + [Read(c.read)]
    ensures router.replies == old(router.replies) + [reply]
    ensures same == Compared(c, reply, before)
  {
    reply := router.Call(Read(c.read));
    var seen := c.view(reply);
    if seen.None? {
      return reply, None;
    }
    return reply, Some(seen.value == before);
  }

  /** What a caller can tell of a run from the log. */
  ghost predicate Logged(c: Setting, log: seq<Request>, log': seq<Request>, replies: seq<Reply>,
                         replies': seq<Reply>, o: Outcome)
  {
    && log <= log' && replies <= replies'
    && Conforms(c, log'[|log|..], replies'[|replies|..], o)
  }

  lemma LoggedBy(c: Setting, log: seq<Request>, more: seq<Request>, replies: seq<Reply>, answers: seq<Reply>,
                 o: Outcome)
    requires Conforms(c, more, answers, o)
    ensures Logged(c, log, log + more, replies, replies + answers, o)
  {
    assert (log + more)[|log|..] == more && (replies + answers)[|replies|..] == answers;
  }

  /** A write and the read that follows it; the first error that is not caught ends it. */
  method WriteThenCompare(router: Router, c: Setting, before: Fields)
    returns (replies: seq<Reply>, raised: bool, code: (Option<int>, string), same: Option<bool>)
    modifies router
    ensures 1 <= |replies| <= 2 && router.replies == old(router.replies) + replies
    ensures router.log == old(router.log) + [Write(c.write, before), Read(c.read)][..|replies|]
    ensures raised <==> replies[|replies| - 1].Uncaught?
    ensures |replies| == 1 ==> raised
    ensures |replies| == 2 ==>
              && !replies[0].Uncaught? && code == c.writeCode(replies[0])
              && same == Compared(c, replies[1], before)
  {
    same := None;
    var written := WriteState(router, c, before);
    code := c.writeCode(written);
    if written.Uncaught? {
      return [written], true, code, same;
    }
    var read, seen := CompareState(router, c, before);
    return [written, read], read.Uncaught?, code, seen;
  }

  /** Both verifiers from the preflight read on. */
  method Verify(router: Router, c: Setting) returns (o: Outcome)
    modifies router
    ensures o.Reported? || o.Raised?
    ensures Logged(c, old(router.log), router.log, old(router.replies), router.replies, o)
  {
    hide Conforms, Logged, Reports, CutShort;
    ghost var log, replies := router.log, router.replies;
    var first := router.Call(Read(c.read));
    var seen := c.view(first);
    if seen.None? {
      FailedPreflight(c, first);
      LoggedBy(c, log, [Read(c.read)], replies, [first], Raised);
      return Raised;
    }
    var before := seen.value;
    ghost var plan := Plan(c, before);
    var tried, raised, code, same := WriteThenCompare(router, c, before);
    assert router.log == log + plan[..1 + |tried|] && router.replies == replies + ([first] + tried);
    if raised {
      RaisedEarly(c, before, first, tried);
      LoggedBy(c, log, plan[..1 + |tried|], replies, [first] + tried, Raised);
      return Raised;
    }
    if same == Some(true) {
      var status := if code.0 == Some(0) && code.1 == "" then VerifiedNoop else RejectedOrUncertain;
      var report := Report(status, code.0, code.1, true, Some(true), false, None, "", None, 1);
      ReportedNoop(c, before, first, tried, report);
      LoggedBy(c, log, plan[..3], replies, [first] + tried, Reported(report));
      return Reported(report);
    }
    var undone, raised', code', back := WriteThenCompare(router, c, before);
    assert router.log == log + plan[..3 + |undone|] && router.replies == replies + ([first] + tried + undone);
    if raised' {
      RaisedLate(c, before, first, tried, undone);
      LoggedBy(c, log, plan[..3 + |undone|], replies, [first] + tried + undone, Raised);
      return Raised;
    }
    var status := if back == Some(true) then RollbackConfirmed else RollbackUnconfirmed;
    var report := Report(status, code.0, code.1, same.Some?, same, true, code'.0, code'.1, back, 2);
    ReportedRollback(c, before, first, tried, undone, report);
    LoggedBy(c, log, plan[..5], replies, [first] + tried + undone, Reported(report));
    return Reported(report);
  }

  lemma FailedPreflight(c: Setting, first: Reply)
    requires c.view(first).None?
    ensures Conforms(c, [Read(c.read)], [first], Raised)
  {}

  lemma RaisedEarly(c: Setting, before: Fields, first: Reply, tried: seq<Reply>)
    requires c.view(first) == Some(before)
    requires 1 <= |tried| <= 2 && tried[|tried| - 1].Uncaught? && (|tried| == 2 ==> !tried[0].Uncaught?)
    ensures Conforms(c, Plan(c, before)[..1 + |tried|], [first] + tried, Raised)
  {}

  lemma RaisedLate(c: Setting, before: Fields, first: Reply, tried: seq<Reply>, undone: seq<Reply>)
    requires c.view(first) == Some(before) && |tried| == 2 && !tried[0].Uncaught? && !tried[1].Uncaught?
    requires c.view(tried[1]) != Some(before)
    requires 1 <= |undone| <= 2 && undone[|undone| - 1].Uncaught? && (|undone| == 2 ==> !undone[0].Uncaught?)
    ensures Conforms(c, Plan(c, before)[..3 + |undone|], [first] + tried + undone, Raised)
  {}

  lemma ReportedNoop(c: Setting, before: Fields, first: Reply, tried: seq<Reply>, r: Report)
    requires c.view(first) == Some(before) && |tried| == 2 && !tried[0].Uncaught? && !tried[1].Uncaught?
    requires c.view(tried[1]) == Some(before)
    requires r == Report(if c.writeCode(tried[0]) == (Some(0), "") then VerifiedNoop else RejectedOrUncertain,
                         c.writeCode(tried[0]).0, c.writeCode(tried[0]).1, true, Some(true), false, None, "", None, 1)
    ensures Conforms(c, Plan(c, before)[..3], [first] + tried, Reported(r))
  {
    CountWrites(c, before);
  }

  lemma ReportedRollback(c: Setting, before: Fields, first: Reply, tried: seq<Reply>, undone: seq<Reply>, r: Report)
    requires c.view(first) == Some(before) && |tried| == |undone| == 2
    requires !tried[0].Uncaught? && !tried[1].Uncaught? && !undone[0].Uncaught? && !undone[1].Uncaught?
    requires c.view(tried[1]) != Some(before)
    requires var same, back := Compared(c, tried[1], before), Compared(c, undone[1], before);
             r == Report(if back == Some(true) then RollbackConfirmed else RollbackUnconfirmed,
                         c.writeCode(tried[0]).0, c.writeCode(tried[0]).1, same.Some?, same,
                         true, c.writeCode(undone[0]).0, c.writeCode(undone[0]).1, back, 2)
    ensures Conforms(c, Plan(c, before)[..5], [first] + tried + undone, Reported(r))
  {
    CountWrites(c, before);
  }

  lemma CountWrites(c: Setting, before: Fields)
    ensures Writes(Plan(c, before)[..3]) == 1 && Writes(Plan(c, before)[..5]) == 2
  {
    var r, w := Read(c.read), Write(c.write, before);
    assert Plan(c, before)[..3] == [r, w, r] && Plan(c, before)[..5] == [r, w, r, w, r];
    assert [r, w, r][1..] == [w, r] && [w, r][1..] == [r] && [r][1..] == [];
    assert [r, w, r, w, r][1..] == [w, r, w, r] && [w, r, w, r][1..] == [r, w, r];
    assert Writes([r]) == 0 && Writes([w, r]) == 1 && Writes([r, w, r]) == 1 && Writes([w, r, w, r]) == 2;
  }

  // ----- the HTTP verifier

  const HTTP_SETTINGS: map<string, string> := map[
    "admin.wireless.beamforming.write" := "admin.wireless.beamforming.read",
    "admin.wireless.ieee80211r.write" := "admin.wireless.ieee80211r.read",
    "admin.device.timesetting.write" := "admin.device.timesetting.read"]

  function HttpConfirmation(operation: string): string {
    "I authorize a P9 HTTP current-value no-op verification for " + operation
    + ", with immediate post-read verification and rollback on mismatch."
  }

  function HttpSetting(operation: string): Setting
    requires operation in HTTP_SETTINGS
  {
    Setting(HTTP_SETTINGS[operation], operation,
            (r: Reply) => HttpView(operation == "admin.device.timesetting.write", r), (r: Reply) => HttpWriteCode(r))
  }

  /** `verify_http_setting_noop`. */
  method VerifyHttpSettingNoop(router: Router, operation: string, confirmation: string) returns (o: Outcome)
    modifies router
    ensures operation !in HTTP_SETTINGS ==> o == ValueError
    ensures operation in HTTP_SETTINGS && confirmation != HttpConfirmation(operation) ==> o == PermissionError
    ensures o == ValueError || o == PermissionError ==> unchanged(router)
    ensures operation in HTTP_SETTINGS && confirmation == HttpConfirmation(operation) ==>
              && (o.Reported? || o.Raised?)
              && Logged(HttpSetting(operation), old(router.log), router.log, old(router.replies), router.replies, o)
  {
    hide Logged;
    if operation !in HTTP_SETTINGS {
      return ValueError;
    }
    if confirmation != HttpConfirmation(operation) {
      return PermissionError;
    }
    o := Verify(router, HttpSetting(operation));
  }

  // ----- the TMP verifier

  /** The checks of `verify_tmp_lab_target` on the reply to the identity read. */
  predicate Authorizes(target: Target, r: Reply) {
    && r.Answer? && r.code == Some(0) && r.result.Some? && r.devices.Some?
    && Matches(target, r.devices.value)
  }

  /** The reply is a success that lists devices, of which the first controller is the target. */
  ghost predicate Permits(target: Target, r: Reply) {
    && r.Answer? && r.code == Some(0) && r.result.Some? && r.devices.Some?
    && Designated(target, r.devices.value)
  }

  lemma AuthorizesExactly(target: Target, r: Reply)
    ensures Authorizes(target, r) <==> Permits(target, r)
  {
    hide Matches, Designated;
    if r.Answer? && r.devices.Some? {
      MatchesExactly(target, r.devices.value);
    }
  }

  function TmpSetting(read: string, write: string): Setting {
    Setting(read, write, (r: Reply) => TmpView(r), (r: Reply) => TmpWriteCode(r))
  }

  /**
   `_verify_tmp_boolean_noop`; `enabled` is the environment gate for lab writes, and
   `environment` the target that the environment names when the caller gives none.
   */
  method VerifyTmpBooleanNoop(router: Router, confirmation: string, expected: string, enabled: bool,
                              given: Option<Target>, environment: Target, read: string, write: string)
    returns (o: Outcome)
    modifies router
    ensures confirmation != expected || !enabled ==> o == PermissionError && unchanged(router)
    ensures confirmation == expected && enabled && given.None? && !WellFormed(environment) ==>
              o == ValueError && unchanged(router)
    ensures confirmation == expected && enabled && (given.None? ==> WellFormed(environment)) ==>
              && |router.log| > |old(router.log)| && |router.replies| > |old(router.replies)|
              && router.log[..|old(router.log)| + 1] == old(router.log) + [Identify]
              && var identity := router.replies[|old(router.replies)|];
              && router.replies[..|old(router.replies)| + 1] == old(router.replies) + [identity]
              && (|router.log| > |old(router.log)| + 1 <==> Permits(Chosen(given, environment), identity))
              && if Permits(Chosen(given, environment), identity) then
                   && (o.Reported? || o.Raised?)
                   && Logged(TmpSetting(read, write), old(router.log) + [Identify], router.log,
                             old(router.replies) + [identity], router.replies, o)
                 else
                   && router.log == old(router.log) + [Identify]
                   && o == (if identity.Answer? then PermissionError else Raised)
  {
    hide Conforms, Authorizes, WellFormed, Permits;
    if confirmation != expected {
      return PermissionError;
    }
    if !enabled {
      return PermissionError;
    }
    if given.None? && !WellFormed(environment) {
      return ValueError;
    }
    ghost var log, replies := router.log, router.replies;
    var identity := router.Call(Identify);
    AuthorizesExactly(Chosen(given, environment), identity);
    PermitsAnswer(Chosen(given, environment), identity);
    if !identity.Answer? {
      return Raised;
    }
    if !Authorizes(Chosen(given, environment), identity) {
      return PermissionError;
    }
    ghost var asked := |router.log|;
    o := Verify(router, TmpSetting(read, write));
    RunsSomething(TmpSetting(read, write), router.log[asked..], router.replies[|replies| + 1..], o);
    assert router.log[..|log| + 1] == log + [Identify];
    assert router.replies[..|replies| + 1] == replies + [identity];
  }

  lemma PermitsAnswer(target: Target, r: Reply)
    ensures Permits(target, r) ==> r.Answer?
  {}

  lemma RunsSomething(c: Setting, requests: seq<Request>, replies: seq<Reply>, o: Outcome)
    requires Conforms(c, requests, replies, o) && (o.Reported? || o.Raised?)
    ensures requests != []
  {}

  function Chosen(given: Option<Target>, environment: Target): Target {
    if given.Some? then given.value else environment
  }

  // ----- what the views and the statuses mean

  const TIME_KEYS: set<string> := {"timezone", "continent", "tz_region"}

  /** A successful reply shows a flag, or the three texts of a time setting, none of them empty. */
  lemma HttpShows(timeSetting: bool, r: Reply, f: Fields)
    ensures HttpView(timeSetting, r) == Some(f)
       <==> && r.Answer? && (r.code == None || r.code == Some(0)) && r.result.Some?
            && var m := r.result.value;
            && if timeSetting then
                 && f.Keys == TIME_KEYS
                 && forall k :: k in TIME_KEYS ==> k in m && m[k].Word? && m[k].s != "" && f[k] == m[k]
               else "enable" in m && m["enable"].Flag? && f == map["enable" := m["enable"]]
  {
    if timeSetting && HttpView(timeSetting, r).Some? {
      var shown := HttpView(timeSetting, r).value;
      assert shown.Keys == TIME_KEYS;
      if f.Keys == TIME_KEYS && forall k :: k in TIME_KEYS ==> f[k] == shown[k] {
        assert f == shown;
      }
    }
  }

  lemma TmpShows(r: Reply, f: Fields)
    ensures TmpView(r) == Some(f)
       <==> && r.Answer? && r.code == Some(0) && r.result.Some? && "enable" in r.result.value
            && r.result.value["enable"].Flag? && f == map["enable" := r.result.value["enable"]]
  {}

  /** The HTTP verifier reports success exactly for a write acknowledged with code zero, or none, and verified. */
  lemma HttpVerified(operation: string, requests: seq<Request>, replies: seq<Reply>, r: Report)
    requires operation in HTTP_SETTINGS && Reports(HttpSetting(operation), requests, replies, r)
    ensures var c := HttpSetting(operation);
            r.status == VerifiedNoop
            <==> && replies[1].Answer? && (replies[1].code == None || replies[1].code == Some(0))
                 && c.view(replies[2]) == c.view(replies[0])
  {
    hide HttpView;
  }

  /** The TMP verifier demands the code. */
  lemma TmpVerified(read: string, write: string, requests: seq<Request>, replies: seq<Reply>, r: Report)
    requires Reports(TmpSetting(read, write), requests, replies, r)
    ensures r.status == VerifiedNoop
       <==> replies[1].Answer? && replies[1].code == Some(0) && TmpView(replies[2]) == TmpView(replies[0])
  {
    hide TmpView;
  }

  // ----- what follows for callers

  /** Every write carries the value that the preflight read reported, and there are at most two of them. */
  lemma WritesCarryPreflight(c: Setting, requests: seq<Request>, replies: seq<Reply>, o: Outcome, i: nat)
    requires Conforms(c, requests, replies, o) && i < |requests| && requests[i].Write?
    ensures i == 1 || i == 3
    ensures replies != [] && c.view(replies[0]).Some? && requests[i] == Write(c.write, c.view(replies[0]).value)
  {
    var plan := Plan(c, if replies != [] && c.view(replies[0]).Some? then c.view(replies[0]).value else map[]);
    if i < |plan| {
      assert plan[..|requests|][i] == plan[i];
    }
  }

  /** Unless the rollback is unconfirmed, the last read of a reported run saw the preflight value. */
  lemma LastReadAgrees(c: Setting, requests: seq<Request>, replies: seq<Reply>, r: Report)
    requires Reports(c, requests, replies, r)
    ensures r.status != RollbackUnconfirmed <==> c.view(replies[|replies| - 1]) == c.view(replies[0])
    ensures requests[|requests| - 1] == Read(c.read)
  {}

  /** The run got past its preflight read. */
  ghost predicate PastPreflight(c: Setting, requests: seq<Request>, replies: seq<Reply>, o: Outcome) {
    && Conforms(c, requests, replies, o) && (o.Reported? || o.Raised?)
    && replies != [] && c.view(replies[0]).Some?
  }

  /**
   A rollback is called for exactly when write and verifying read both came back, without
   an error that is not caught, and the read failed or differed.
   */
  lemma RollbackExactly(c: Setting, requests: seq<Request>, replies: seq<Reply>, o: Outcome)
    requires PastPreflight(c, requests, replies, o)
    ensures 1 < |requests| == |replies|
    ensures |replies| > 2 <==> !replies[1].Uncaught?
    ensures |requests| > 3 <==> |replies| > 2 && !replies[1].Uncaught? && !replies[2].Uncaught?
                                && c.view(replies[2]) != c.view(replies[0])
  {
    assert o.Raised? ==> replies[|replies| - 1].Uncaught?;
  }

  predicate Left(r: Reply) {
    r.Answer? || r.sent
  }

  /** The rollback write left for the router. */
  predicate RollbackSent(replies: seq<Reply>) {
    |replies| > 3 && Left(replies[3])
  }

  /** After its write the run either read the preflight value again or sent that value back. */
  ghost predicate Protected(c: Setting, replies: seq<Reply>) {
    (|replies| > 2 && c.view(replies[2]) == c.view(replies[0])) || RollbackSent(replies)
  }

  /** Errors show no value. */
  ghost predicate BlindToErrors(c: Setting) {
    forall r: Reply :: !r.Answer? ==> c.view(r).None?
  }

  lemma HttpIsBlind(operation: string)
    requires operation in HTTP_SETTINGS
    ensures BlindToErrors(HttpSetting(operation))
  {}

  lemma TmpIsBlind(read: string, write: string)
    ensures BlindToErrors(TmpSetting(read, write))
  {}

  /** The write left, and the run neither read the preflight value again nor sent it back. */
  ghost predicate Unprotected(c: Setting, replies: seq<Reply>) {
    |replies| > 1 && Left(replies[1]) && !Protected(c, replies)
  }

  /**
   The replies under which that happens: the write raised an error that is not caught after
   it had left; or it left, and the verifying read raised such an error, or showed another
   value or none and the rollback raised an error before it was sent.
   */
  predicate LosesRollback(c: Setting, replies: seq<Reply>) {
    && |replies| > 1 && Left(replies[1])
    && (replies[1].Uncaught?
        || (|replies| > 2 && replies[2].Uncaught?)
        || (|replies| > 3 && c.view(replies[2]) != c.view(replies[0]) && !Left(replies[3])))
  }

  /** A write that left is unprotected exactly then; and an error that is not caught ends the run where it comes up. */
  lemma RollbackLost(c: Setting, requests: seq<Request>, replies: seq<Reply>, o: Outcome)
    requires PastPreflight(c, requests, replies, o) && BlindToErrors(c)
    ensures Unprotected(c, replies) <==> LosesRollback(c, replies)
    ensures |replies| > 1 && replies[1].Uncaught? ==> o.Raised? && |requests| == 2
    ensures |replies| > 2 && replies[2].Uncaught? ==> o.Raised? && |requests| == 3
    ensures |replies| > 3 && replies[3].Uncaught? ==> o.Raised? && |requests| == 4
  {
    RollbackExactly(c, requests, replies, o);
  }

  /** The same of every HTTP setting the verifier knows. */
  lemma HttpRollbackLost(operation: string, requests: seq<Request>, replies: seq<Reply>, o: Outcome)
    requires operation in HTTP_SETTINGS && PastPreflight(HttpSetting(operation), requests, replies, o)
    ensures Unprotected(HttpSetting(operation), replies) <==> LosesRollback(HttpSetting(operation), replies)
  {
    hide Conforms, Unprotected, LosesRollback, HttpSetting;
    HttpIsBlind(operation);
    RollbackLost(HttpSetting(operation), requests, replies, o);
  }

  /** And of every TMP boolean. */
  lemma TmpRollbackLost(read: string, write: string, requests: seq<Request>, replies: seq<Reply>, o: Outcome)
    requires PastPreflight(TmpSetting(read, write), requests, replies, o)
    ensures Unprotected(TmpSetting(read, write), replies) <==> LosesRollback(TmpSetting(read, write), replies)
  {
    hide Conforms, Unprotected, LosesRollback, TmpSetting;
    TmpIsBlind(read, write);
    RollbackLost(TmpSetting(read, write), requests, replies, o);
  }

  /**
   The run that loses its rollback on a TMP client that is disconnected: the verifying read
   fails with an error that is caught, and the rollback with one that is not, before it is sent.
   */
  lemma RollbackNeverSent(read: string, write: string, before: Fields, first: Reply, written: Reply)
    requires TmpView(first) == Some(before) && !written.Uncaught? && Left(written)
    ensures var c := TmpSetting(read, write);
            var replies := [first, written, Caught("TransportError", true), Uncaught("RuntimeError", false)];
            PastPreflight(c, Plan(c, before)[..4], replies, Raised) && Unprotected(c, replies)
  {
    var replies := [first, written, Caught("TransportError", true), Uncaught("RuntimeError", false)];
    assert TmpView(replies[2]).None?;
  }

  // ----- a router that keeps a state

  /** `states[i]` before the `i`-th request: reads leave it alone, a write is carried out or not. */
  ghost predicate KeepsState(c: Setting, requests: seq<Request>, replies: seq<Reply>, states: seq<Fields>) {
    && |states| == |requests| + 1 && |replies| == |requests|
    && (forall i :: 0 <= i < |requests| ==>
          states[i + 1] == states[i] || (requests[i].Write? && states[i + 1] == requests[i].state))
    && (replies != [] && c.view(replies[0]).Some? ==> c.view(replies[0]).value == states[0])
  }

  /** On a router whose preflight read is truthful no run changes the state, at no point, however it ends. */
  lemma {:induction false} StateNeverChanges(c: Setting, requests: seq<Request>, replies: seq<Reply>,
                                             states: seq<Fields>, o: Outcome, n: nat)
    requires Conforms(c, requests, replies, o) && KeepsState(c, requests, replies, states) && n <= |requests|
    ensures states[n] == states[0]
  {
    hide Conforms;
    if n > 0 {
      StateNeverChanges(c, requests, replies, states, o, n - 1);
      if requests[n - 1].Write? {
        WritesCarryPreflight(c, requests, replies, o, n - 1);
      }
    }
  }
}
