/**
 Which controller a lab write may go to: the identity check on the reply to the identity
 read, and what it amounts to for whoever names the target.
 */
module LabTarget {
  import opened Wrappers

  /** A member of a reply, as far as the checks tell values apart. */
  datatype Value = Flag(b: bool) | Word(s: string) | Other

  datatype Device = Device(role: Value, model: Value, firmware: Value, mac: Value)

  datatype Target = Target(model: string, firmware: string, mac: string)

  // ----- the check

  function Upper(c: char): char {
    if 'a' <= c <= 'z' then (c as int - 32) as char else c
  }

  /** White space. */
  predicate Blank(c: char) {
    var n := c as int;
    || 9 <= n <= 13 || 28 <= n <= 32 || n == 0x85 || n == 0xA0 || n == 0x1680 || 0x2000 <= n <= 0x200A
    || n == 0x2028 || n == 0x2029 || n == 0x202F || n == 0x205F || n == 0x3000
  }

  predicate Mark(c: char) {
    c == ':' || c == '-'
  }

  function TrimLeft(s: string): string {
    if s != "" && Blank(s[0]) then TrimLeft(s[1..]) else s
  }

  function TrimRight(s: string): string {
    if s != "" && Blank(s[|s| - 1]) then TrimRight(s[..|s| - 1]) else s
  }

  /** `str.strip`. */
  function Strip(s: string): string {
    TrimRight(TrimLeft(s))
  }

  function WithoutMarks(s: string): string {
    if s == "" then "" else (if Mark(s[0]) then "" else [s[0]]) + WithoutMarks(s[1..])
  }

  function UpperCase(s: string): (u: string)
    ensures |u| == |s| && forall i :: 0 <= i < |s| ==> u[i] == Upper(s[i])
  {
    if s == "" then "" else [Upper(s[0])] + UpperCase(s[1..])
  }

  /** `_normalized_mac`. */
  function NormalizedMac(v: Value): string {
    if v.Word? then UpperCase(Strip(WithoutMarks(v.s))) else ""
  }

  /** What the program demands of a target when it is made. */
  predicate WellFormed(t: Target) {
    var mac := NormalizedMac(Word(t.mac));
    && Strip(t.model) != "" && Strip(t.firmware) != ""
    && |mac| == 12 && forall i :: 0 <= i < |mac| ==> '0' <= mac[i] <= '9' || 'A' <= mac[i] <= 'F'
  }

  /** The first device whose role is `master`. */
  function Controller(devices: seq<Device>): Option<Device> {
    if devices == [] then None
    else if devices[0].role == Word("master") then Some(devices[0])
    else Controller(devices[1..])
  }

  /** The comparison in `verify_tmp_lab_target`. */
  predicate Matches(target: Target, devices: seq<Device>) {
    var c := Controller(devices);
    && c.Some?
    && c.value.model == Word(Strip(target.model))
    && c.value.firmware == Word(Strip(target.firmware))
    && NormalizedMac(c.value.mac) == NormalizedMac(Word(target.mac))
  }

  // ----- what it amounts to

  predicate AllBlank(s: string) {
    forall i :: 0 <= i < |s| ==> Blank(s[i])
  }

  /** `s` is `t` without the blanks around it. */
  ghost predicate TrimmedTo(t: string, s: string) {
    && (s != "" ==> !Blank(s[0]) && !Blank(s[|s| - 1]))
    && exists l, r :: AllBlank(l) && AllBlank(r) && t == l + s + r
  }

  predicate SameLetter(c: char, d: char) {
    || c == d
    || ('a' <= c <= 'z' && d as int == c as int - 32)
    || ('a' <= d <= 'z' && c as int == d as int - 32)
  }

  predicate SameLetters(x: string, y: string) {
    |x| == |y| && forall i :: 0 <= i < |x| ==> SameLetter(x[i], y[i])
  }

  /** The two addresses are the same letters, but for separators, blanks around them and case. */
  ghost predicate SameMac(a: string, b: string) {
    exists x, y :: TrimmedTo(WithoutMarks(a), x) && TrimmedTo(WithoutMarks(b), y) && SameLetters(x, y)
  }

  /** An address that is no text counts as empty. */
  ghost predicate MacAgrees(mac: string, v: Value) {
    if v.Word? then SameMac(mac, v.s) else TrimmedTo(WithoutMarks(mac), "")
  }

  ghost predicate IsText(v: Value, t: string) {
    v.Word? && TrimmedTo(t, v.s)
  }

  /** Device `i` is the first with the role of controller, and is the target. */
  ghost predicate DesignatedAt(target: Target, devices: seq<Device>, i: nat) {
    && i < |devices| && devices[i].role == Word("master")
    && (forall j :: 0 <= j < i ==> devices[j].role != Word("master"))
    && IsText(devices[i].model, target.model) && IsText(devices[i].firmware, target.firmware)
    && MacAgrees(target.mac, devices[i].mac)
  }

  ghost predicate Designated(target: Target, devices: seq<Device>) {
    exists i: nat :: DesignatedAt(target, devices, i)
  }

  // ----- blanks

  lemma {:induction false} TrimLeftPast(l: string, s: string)
    requires AllBlank(l) && (s != "" ==> !Blank(s[0]))
    ensures TrimLeft(l + s) == s
  {
    hide Blank;
    if l == "" {
      assert l + s == s;
    } else {
      assert (l + s)[1..] == l[1..] + s;
      TrimLeftPast(l[1..], s);
    }
  }

  lemma {:induction false} TrimRightPast(s: string, r: string)
    requires AllBlank(r) && (s != "" ==> !Blank(s[|s| - 1]))
    ensures TrimRight(s + r) == s
    decreases |r|
  {
    hide Blank;
    if r == "" {
      assert s + r == s;
    } else {
      assert (s + r)[..|s + r| - 1] == s + r[..|r| - 1];
      TrimRightPast(s, r[..|r| - 1]);
    }
  }

  lemma {:induction false} TrimLeftSplits(t: string) returns (l: string)
    ensures AllBlank(l) && t == l + TrimLeft(t) && (TrimLeft(t) != "" ==> !Blank(TrimLeft(t)[0]))
  {
    hide Blank;
    l := "";
    if t != "" && Blank(t[0]) {
      var m := TrimLeftSplits(t[1..]);
      l := [t[0]] + m;
    }
  }

  lemma {:induction false} TrimRightSplits(t: string) returns (r: string)
    ensures AllBlank(r) && t == TrimRight(t) + r && (TrimRight(t) != "" ==> !Blank(TrimRight(t)[|TrimRight(t)| - 1]))
    decreases |t|
  {
    hide Blank;
    r := "";
    if t != "" && Blank(t[|t| - 1]) {
      var m := TrimRightSplits(t[..|t| - 1]);
      r := m + [t[|t| - 1]];
    }
  }

  lemma StripExactly(t: string, s: string)
    ensures TrimmedTo(t, s) <==> s == Strip(t)
  {
    hide Blank, TrimLeft, TrimRight;
    var l := TrimLeftSplits(t);
    var r := TrimRightSplits(TrimLeft(t));
    if s == Strip(t) {
      assert t == l + s + r;
      assert s != "" ==> s[0] == TrimLeft(t)[0];
    }
    if TrimmedTo(t, s) {
      var l', r' :| AllBlank(l') && AllBlank(r') && t == l' + s + r';
      if s == "" {
        TrimLeftPast(l' + r', "");
        assert t == l' + r' + "";
        TrimRightPast("", "");
      } else {
        assert t == l' + (s + r');
        TrimLeftPast(l', s + r');
        TrimRightPast(s, r');
      }
    }
  }

  lemma UpperSame(c: char, d: char)
    ensures SameLetter(c, d) <==> Upper(c) == Upper(d)
  {}

  lemma SameLettersExactly(x: string, y: string)
    ensures SameLetters(x, y) <==> UpperCase(x) == UpperCase(y)
  {
    hide SameLetter, Upper;
    forall i | 0 <= i < |x| && i < |y|
      ensures SameLetter(x[i], y[i]) <==> UpperCase(x)[i] == UpperCase(y)[i]
    {
      UpperSame(x[i], y[i]);
    }
  }

  lemma SameMacExactly(a: string, b: string)
    ensures SameMac(a, b) <==> NormalizedMac(Word(a)) == NormalizedMac(Word(b))
  {
    hide TrimmedTo, SameLetters, UpperCase, Strip, WithoutMarks;
    var x, y := Strip(WithoutMarks(a)), Strip(WithoutMarks(b));
    StripExactly(WithoutMarks(a), x);
    StripExactly(WithoutMarks(b), y);
    SameLettersExactly(x, y);
    if SameMac(a, b) {
      var x', y' :| TrimmedTo(WithoutMarks(a), x') && TrimmedTo(WithoutMarks(b), y') && SameLetters(x', y');
      StripExactly(WithoutMarks(a), x');
      StripExactly(WithoutMarks(b), y');
    }
  }

  lemma {:induction false} ControllerExactly(devices: seq<Device>, i: nat)
    requires i < |devices| && devices[i].role == Word("master")
    requires forall j :: 0 <= j < i ==> devices[j].role != Word("master")
    ensures Controller(devices) == Some(devices[i])
    decreases i
  {
    if i > 0 {
      ControllerExactly(devices[1..], i - 1);
    }
  }

  lemma {:induction false} ControllerFound(devices: seq<Device>) returns (i: nat)
    requires Controller(devices).Some?
    ensures i < |devices| && devices[i].role == Word("master") && Controller(devices) == Some(devices[i])
    ensures forall j :: 0 <= j < i ==> devices[j].role != Word("master")
  {
    if devices[0].role == Word("master") {
      i := 0;
    } else {
      i := ControllerFound(devices[1..]);
      i := i + 1;
    }
  }

  /** The check passes exactly for the target. */
  lemma MatchesExactly(target: Target, devices: seq<Device>)
    ensures Matches(target, devices) <==> Designated(target, devices)
  {
    hide Controller, Strip, NormalizedMac, TrimmedTo, SameMac;
    if Controller(devices).Some? {
      var i := ControllerFound(devices);
      DeviceExactly(target, devices[i]);
      if Matches(target, devices) {
        assert DesignatedAt(target, devices, i);
      }
    }
    if Designated(target, devices) {
      var i: nat :| DesignatedAt(target, devices, i);
      ControllerExactly(devices, i);
      DeviceExactly(target, devices[i]);
    }
  }

  lemma DeviceExactly(target: Target, d: Device)
    ensures IsText(d.model, target.model) <==> d.model == Word(Strip(target.model))
    ensures IsText(d.firmware, target.firmware) <==> d.firmware == Word(Strip(target.firmware))
    ensures MacAgrees(target.mac, d.mac) <==> NormalizedMac(d.mac) == NormalizedMac(Word(target.mac))
  {
    hide TrimmedTo, SameMac, Strip, WithoutMarks;
    if d.model.Word? { StripExactly(target.model, d.model.s); }
    if d.firmware.Word? { StripExactly(target.firmware, d.firmware.s); }
    if d.mac.Word? {
      SameMacExactly(target.mac, d.mac.s);
    } else {
      StripExactly(WithoutMarks(target.mac), "");
    }
  }

  // ----- what a caller sees of addresses

  lemma {:induction false} WithoutMarksConcat(a: string, b: string)
    ensures WithoutMarks(a + b) == WithoutMarks(a) + WithoutMarks(b)
  {
    if a == "" {
      assert a + b == b;
    } else {
      assert (a + b)[1..] == a[1..] + b;
      WithoutMarksConcat(a[1..], b);
    }
  }

  lemma WithoutMarksOne(c: char)
    ensures WithoutMarks([c]) == if Mark(c) then "" else [c]
  {
    assert [c][1..] == "";
  }

  lemma {:induction false} TrimLeftAround(a: string, c: char, b: string)
    requires !Blank(c)
    ensures TrimLeft(a + [c] + b) == TrimLeft(a) + [c] + b
  {
    hide Blank;
    var s := a + [c] + b;
    if a == "" {
      assert s[0] == c;
    } else {
      assert s[0] == a[0] && s[1..] == a[1..] + [c] + b;
      if Blank(a[0]) {
        TrimLeftAround(a[1..], c, b);
      }
    }
  }

  lemma {:induction false} TrimRightAround(a: string, c: char, b: string)
    requires !Blank(c)
    ensures TrimRight(a + [c] + b) == a + [c] + TrimRight(b)
    decreases |b|
  {
    hide Blank;
    var s := a + [c] + b;
    if b == "" {
      assert s[|s| - 1] == c && s == a + [c];
    } else {
      assert s[|s| - 1] == b[|b| - 1] && s[..|s| - 1] == a + [c] + b[..|b| - 1];
      if Blank(b[|b| - 1]) {
        TrimRightAround(a, c, b[..|b| - 1]);
      }
    }
  }

  /** A character that is neither separator nor blank comes through between what the rest comes to. */
  lemma NormalizedAround(a: string, c: char, b: string)
    requires !Blank(c) && !Mark(c)
    ensures NormalizedMac(Word(a + [c] + b))
         == UpperCase(TrimLeft(WithoutMarks(a)) + [c] + TrimRight(WithoutMarks(b)))
  {
    hide WithoutMarks, TrimLeft, TrimRight, Blank, Mark, UpperCase;
    WithoutMarksConcat(a + [c], b);
    WithoutMarksConcat(a, [c]);
    WithoutMarksOne(c);
    TrimLeftAround(WithoutMarks(a), c, WithoutMarks(b));
    TrimRightAround(TrimLeft(WithoutMarks(a)), c, WithoutMarks(b));
  }

  /** Addresses that differ in one letter or digit, other than by its case, do not agree. */
  lemma OneDigitRefused(a: string, c: char, d: char, b: string)
    requires !Blank(c) && !Mark(c) && !Blank(d) && !Mark(d) && !SameLetter(c, d)
    ensures !SameMac(a + [c] + b, a + [d] + b)
  {
    hide WithoutMarks, TrimLeft, TrimRight, Blank, Mark, NormalizedMac, SameMac, Upper;
    var l, r := TrimLeft(WithoutMarks(a)), TrimRight(WithoutMarks(b));
    NormalizedAround(a, c, b);
    NormalizedAround(a, d, b);
    SameMacExactly(a + [c] + b, a + [d] + b);
    UpperSame(c, d);
    assert (l + [c] + r)[|l|] == c && (l + [d] + r)[|l|] == d;
  }

  /** The case of a letter does not matter. */
  lemma CaseIgnored(mac: string, a: string, c: char, d: char, b: string)
    requires !Blank(c) && !Mark(c) && !Blank(d) && !Mark(d) && SameLetter(c, d)
    ensures SameMac(mac, a + [c] + b) <==> SameMac(mac, a + [d] + b)
  {
    hide WithoutMarks, TrimLeft, TrimRight, Blank, Mark, NormalizedMac, SameMac, Upper, UpperCase;
    var l, r := TrimLeft(WithoutMarks(a)), TrimRight(WithoutMarks(b));
    NormalizedAround(a, c, b);
    NormalizedAround(a, d, b);
    SameMacExactly(mac, a + [c] + b);
    SameMacExactly(mac, a + [d] + b);
    SameCase(l, c, d, r);
  }

  lemma SameCase(l: string, c: char, d: char, r: string)
    requires SameLetter(c, d)
    ensures UpperCase(l + [c] + r) == UpperCase(l + [d] + r)
  {
    hide Upper;
    UpperSame(c, d);
    var x, y := l + [c] + r, l + [d] + r;
    forall i | 0 <= i < |x|
      ensures UpperCase(x)[i] == UpperCase(y)[i]
    {
      assert i != |l| ==> x[i] == y[i];
    }
  }

  /** Separators do not matter, wherever they stand. */
  lemma SeparatorIgnored(mac: string, a: string, m: char, b: string)
    requires Mark(m)
    ensures SameMac(mac, a + [m] + b) <==> SameMac(mac, a + b)
  {
    hide SameMac, NormalizedMac;
    WithoutMarksConcat(a + [m], b);
    WithoutMarksConcat(a, [m]);
    WithoutMarksConcat(a, b);
    WithoutMarksOne(m);
    assert WithoutMarks(a) + "" == WithoutMarks(a);
    SameMacExactly(mac, a + [m] + b);
    SameMacExactly(mac, a + b);
    SameWithoutMarks(a + [m] + b, a + b);
  }

  lemma SameWithoutMarks(a: string, b: string)
    requires WithoutMarks(a) == WithoutMarks(b)
    ensures NormalizedMac(Word(a)) == NormalizedMac(Word(b))
  {}

  /** Blanks around an address do not matter. */
  lemma BlanksIgnored(mac: string, l: string, s: string, r: string)
    requires AllBlank(l) && AllBlank(r)
    ensures SameMac(mac, l + s + r) <==> SameMac(mac, s)
  {
    hide SameMac, NormalizedMac, Blank, Strip, TrimmedTo;
    WithoutMarksConcat(l + s, r);
    WithoutMarksConcat(l, s);
    BlanksUnmarked(l);
    BlanksUnmarked(r);
    SameMacExactly(mac, l + s + r);
    SameMacExactly(mac, s);
    MoreBlanks(WithoutMarks(s), l, r);
    SameStripped(l + s + r, s);
  }

  lemma SameStripped(a: string, b: string)
    requires Strip(WithoutMarks(a)) == Strip(WithoutMarks(b))
    ensures NormalizedMac(Word(a)) == NormalizedMac(Word(b))
  {}

  lemma {:induction false} BlanksUnmarked(s: string)
    requires AllBlank(s)
    ensures WithoutMarks(s) == s
  {
    if s != "" {
      assert Blank(s[0]) && !Mark(s[0]);
      BlanksUnmarked(s[1..]);
    }
  }

  lemma MoreBlanks(t: string, l: string, r: string)
    requires AllBlank(l) && AllBlank(r)
    ensures Strip(l + t + r) == Strip(t)
  {
    hide Blank, Strip;
    var s := Strip(t);
    StripExactly(t, s);
    var l', r' :| AllBlank(l') && AllBlank(r') && t == l' + s + r';
    assert l + t + r == (l + l') + s + (r' + r);
    assert AllBlank(l + l') && AllBlank(r' + r);
    StripExactly(l + t + r, s);
  }

  /** An address agrees with itself. */
  lemma OwnMac(mac: string)
    ensures SameMac(mac, mac)
  {
    SameMacExactly(mac, mac);
  }
}
