/**
 The multipart/form-data printer, and a parser for what it prints: delimiter lines and body
 parts as in section 5.1.1 of RFC 2046, field names from the Content-Disposition header as
 in section 4.2 of RFC 7578. Text stands for its encoding: the characters that matter are
 single octets which no other character's encoding contains.
 */
module Multipart {
  import opened Wrappers

  datatype Result = Body(text: string) | ValueError

  datatype Field = Field(name: string, value: string)

  const CRLF: string := "\r\n"
  const DISPOSITION: string := "Content-Disposition: form-data; name=\""

  // ----- the printer

  predicate ValidName(name: string) {
    name != "" && '"' !in name && '\r' !in name && '\n' !in name
  }

  predicate ValidValue(value: string) {
    '\r' !in value && '\n' !in value
  }

  predicate Valid(f: Field) {
    ValidName(f.name) && ValidValue(f.value)
  }

  predicate AllValid(fields: seq<Field>) {
    forall i :: 0 <= i < |fields| ==> Valid(fields[i])
  }

  function Header(f: Field): string {
    DISPOSITION + f.name + "\""
  }

  /** The rest of the delimiter line, the header and the empty line. */
  function Head(f: Field): (h: string)
    ensures |h| == |Header(f)| + 6
  {
    CRLF + Header(f) + CRLF + CRLF
  }

  function Part(boundary: string, f: Field): string {
    "--" + boundary + Head(f) + f.value + CRLF
  }

  function Close(boundary: string): string {
    "--" + boundary + "--" + CRLF
  }

  function Print(boundary: string, fields: seq<Field>): string {
    if fields == [] then Close(boundary) else Part(boundary, fields[0]) + Print(boundary, fields[1..])
  }

  /** The parts alone, as the printer's loop collects them. */
  function Parts(boundary: string, fields: seq<Field>): string {
    if fields == [] then "" else Parts(boundary, fields[..|fields| - 1]) + Part(boundary, fields[|fields| - 1])
  }

  lemma {:induction false} PrintIsParts(boundary: string, done: seq<Field>, left: seq<Field>)
    ensures Parts(boundary, done) + Print(boundary, left) == Print(boundary, done + left)
    decreases |done|
  {
    hide Part, Close;
    if done == [] {
      assert done + left == left;
    } else {
      var last := done[|done| - 1];
      var init := done[..|done| - 1];
      assert Print(boundary, [last] + left) == Part(boundary, last) + Print(boundary, left) by {
        assert ([last] + left)[1..] == left;
      }
      PrintIsParts(boundary, init, [last] + left);
      assert init + ([last] + left) == done + left;
    }
  }

  /** `_multipart_body`: refuses an empty form and any field that is not valid, else prints it. */
  method MultipartBody(boundary: string, fields: seq<Field>) returns (r: Result)
    ensures r == if fields != [] && AllValid(fields) then Body(Print(boundary, fields)) else ValueError
  {
    hide Part, Close;
    if fields == [] {
      return ValueError;
    }
    var parts := "";
    for i := 0 to |fields|
      invariant AllValid(fields[..i])
      invariant parts == Parts(boundary, fields[..i])
    {
      if !ValidName(fields[i].name) || !ValidValue(fields[i].value) {
        assert !Valid(fields[i]);
        return ValueError;
      }
      parts := parts + Part(boundary, fields[i]);
      assert fields[..i + 1][..i] == fields[..i];
      assert forall j :: 0 <= j < i ==> fields[..i + 1][j] == fields[..i][j];
    }
    assert fields[..|fields|] == fields;
    PrintIsParts(boundary, fields, []);
    assert fields + [] == fields;
    return Body(parts + Close(boundary));
  }

  // ----- the parser

  /** The first position from `i` on where `mark` occurs. */
  function Find(s: string, mark: string, i: nat): (r: Option<nat>)
    requires i <= |s|
    ensures r.Some? ==> i <= r.value && r.value + |mark| <= |s|
    decreases |s| - i
  {
    if mark <= s[i..] then Some(i) else if i == |s| then None else Find(s, mark, i + 1)
  }

  function Delimiter(boundary: string): (d: string) {
    CRLF + ("--" + boundary)
  }

  /** The field name of a header line. */
  function ParseName(header: string): Option<string> {
    if !(DISPOSITION <= header) then None
    else
      var rest := header[|DISPOSITION|..];
      match Find(rest, "\"", 0)
      case None => None
      case Some(q) => if rest[q..] == "\"" then Some(rest[..q]) else None
  }

  /** A body part: the end of its delimiter line, its header, an empty line, its content. */
  function ParsePart(s: string): Option<Field> {
    match Find(s, CRLF + CRLF, 0)
    case None => None
    case Some(h) =>
      if h < 2 || !(CRLF <= s) then None
      else
        match ParseName(s[2..h])
        case None => None
        case Some(name) => Some(Field(name, s[h + 4..]))
  }

  /** The body parts that follow a delimiter, up to the closing one; any line that starts like a delimiter is one. */
  function ParseAfterDelimiter(boundary: string, s: string): Option<seq<Field>>
    decreases |s|
  {
    if s == "--" + CRLF then Some([])
    else
      match Find(s, Delimiter(boundary), 0)
      case None => None
      case Some(v) =>
        match ParsePart(s[..v])
        case None => None
        case Some(f) =>
          match ParseAfterDelimiter(boundary, s[v + |Delimiter(boundary)|..])
          case None => None
          case Some(fs) => Some([f] + fs)
  }

  function Parse(boundary: string, s: string): Option<seq<Field>> {
    var dash := "--" + boundary;
    if dash <= s then ParseAfterDelimiter(boundary, s[|dash|..]) else None
  }

  // ----- finding a mark

  lemma {:induction false} FindFirst(s: string, mark: string, i: nat, p: nat)
    requires i <= p <= |s| && mark <= s[p..]
    requires forall j :: i <= j < p ==> !(mark <= s[j..])
    ensures Find(s, mark, i) == Some(p)
    decreases p - i
  {
    if i < p {
      FindFirst(s, mark, i + 1, p);
    }
  }

  lemma {:induction false} FindNone(s: string, mark: string, i: nat)
    requires i <= |s|
    requires forall j :: i <= j <= |s| ==> !(mark <= s[j..])
    ensures Find(s, mark, i) == None
    decreases |s| - i
  {
    if i < |s| {
      FindNone(s, mark, i + 1);
    }
  }

  /** A mark does not occur where its first, or third, character differs. */
  lemma NotHere(s: string, mark: string, j: nat)
    requires j < |s| && |mark| > 2
    requires s[j] != mark[0] || (j + 2 < |s| && s[j + 2] != mark[2])
    ensures !(mark <= s[j..])
  {}

  // ----- printing and parsing

  predicate PlainBoundary(boundary: string) {
    '\r' !in boundary && '\n' !in boundary
  }

  /** What follows a delimiter in the printed text. */
  function After(boundary: string, fields: seq<Field>): string {
    if fields == [] then "--" + CRLF
    else Head(fields[0]) + fields[0].value + Delimiter(boundary) + After(boundary, fields[1..])
  }

  lemma Reassociate(dash: string, head: string, value: string, end: string, after: string)
    ensures (dash + head + value + end) + (dash + after) == dash + (head + value + (end + dash) + after)
  {}

  lemma {:induction false} PrintStartsWithDelimiter(boundary: string, fields: seq<Field>)
    ensures Print(boundary, fields) == "--" + boundary + After(boundary, fields)
  {
    hide Head;
    if fields != [] {
      var dash := "--" + boundary;
      PrintStartsWithDelimiter(boundary, fields[1..]);
      Reassociate(dash, Head(fields[0]), fields[0].value, CRLF, After(boundary, fields[1..]));
    } else {
      assert Close(boundary) == "--" + boundary + ("--" + CRLF);
    }
  }

  /** Where the carriage returns of a printed header are. */
  lemma HeadReturns(f: Field)
    requires ValidName(f.name)
    ensures var head, n := Head(f), |Header(f)|;
            && |head| == n + 6 && n > 2
            && head[0] == '\r' && head[1] == '\n' && head[2] == 'C'
            && head[n + 2] == '\r' && head[n + 3] == '\n' && head[n + 4] == '\r' && head[n + 5] == '\n'
            && head[2..n + 2] == Header(f)
            && forall j :: 2 <= j < n + 2 ==> head[j] != '\r'
  {
    HeaderPlain(f);
    hide Header;
    var head, header := Head(f), Header(f);
    assert head[2] == header[0];
    forall j | 2 <= j < |header| + 2
      ensures head[j] != '\r'
    {
      assert head[j] == header[j - 2];
    }
  }

  lemma HeaderPlain(f: Field)
    requires ValidName(f.name)
    ensures |Header(f)| > 2 && Header(f)[0] == 'C'
    ensures forall j :: 0 <= j < |Header(f)| ==> Header(f)[j] != '\r'
  {
    assert '\r' !in DISPOSITION;
    forall j | 0 <= j < |Header(f)|
      ensures Header(f)[j] != '\r'
    {
      if |DISPOSITION| <= j < |DISPOSITION| + |f.name| {
        assert Header(f)[j] == f.name[j - |DISPOSITION|];
      }
    }
  }

  lemma NameBack(f: Field)
    requires ValidName(f.name)
    ensures ParseName(Header(f)) == Some(f.name)
  {
    var rest := Header(f)[|DISPOSITION|..];
    assert rest == f.name + "\"";
    forall j | 0 <= j < |f.name|
      ensures !("\"" <= rest[j..])
    {
      assert rest[j] == f.name[j];
    }
    FindFirst(rest, "\"", 0, |f.name|);
    assert rest[|f.name|..] == "\"" && rest[..|f.name|] == f.name;
  }

  /** A printed part without its delimiter parses to its field. */
  lemma PartBack(f: Field)
    requires Valid(f)
    ensures ParsePart(Head(f) + f.value) == Some(f)
  {
    hide Head, Header, ParseName;
    var s, n := Head(f) + f.value, |Header(f)|;
    HeadReturns(f);
    assert s[n + 2..][..4] == CRLF + CRLF;
    forall j | 0 <= j < n + 2
      ensures !(CRLF + CRLF <= s[j..])
    {
      NotHere(s, CRLF + CRLF, j);
    }
    FindFirst(s, CRLF + CRLF, 0, n + 2);
    assert s[2..n + 2] == Header(f) && s[n + 6..] == f.value;
    NameBack(f);
  }

  /** Cut at its empty line, a printed part is malformed. */
  lemma PartCut(f: Field)
    requires ValidName(f.name)
    ensures ParsePart(Head(f)[..|Header(f)| + 4]) == None
  {
    hide Head, Header;
    var n := |Header(f)|;
    var s := Head(f)[..n + 4];
    HeadReturns(f);
    forall j | 0 <= j <= |s|
      ensures !(CRLF + CRLF <= s[j..])
    {
      if j <= n {
        NotHere(s, CRLF + CRLF, j);
      }
    }
    FindNone(s, CRLF + CRLF, 0);
  }

  predicate StartsLikeDelimiter(boundary: string, f: Field) {
    "--" + boundary <= f.value
  }

  /** The delimiter is found after the value, unless the value starts like one. */
  lemma DelimiterFound(boundary: string, f: Field, after: string)
    requires Valid(f) && PlainBoundary(boundary)
    ensures Find(Head(f) + f.value + Delimiter(boundary) + after, Delimiter(boundary), 0)
         == Some(if StartsLikeDelimiter(boundary, f) then |Header(f)| + 4 else |Head(f)| + |f.value|)
  {
    hide Head, Header;
    var head, n, mark := Head(f), |Header(f)|, Delimiter(boundary);
    var s := head + f.value + mark + after;
    HeadReturns(f);
    forall j | 0 <= j < n + 4
      ensures !(mark <= s[j..])
    {
      assert s[j] == head[j] && s[j + 2] == head[j + 2];
      NotHere(s, mark, j);
    }
    if StartsLikeDelimiter(boundary, f) {
      assert s[n + 4..] == CRLF + (f.value + mark + after);
      FindFirst(s, mark, 0, n + 4);
    } else {
      NoDelimiterInValue(boundary, f, after);
      assert s[|head| + |f.value|..] == mark + after;
      FindFirst(s, mark, 0, |head| + |f.value|);
    }
  }

  /** Text without a carriage return that starts `value` and what follows it starts `value`. */
  lemma DashesInside(dash: string, value: string, rest: string)
    requires '\r' !in dash && rest != "" && rest[0] == '\r'
    requires dash <= value + rest
    ensures dash <= value
  {
    assert (value + rest)[|value|] == '\r';
    assert forall i :: 0 <= i < |dash| ==> dash[i] == (value + rest)[i];
    assert |dash| <= |value|;
  }

  lemma NoDelimiterInValue(boundary: string, f: Field, after: string)
    requires Valid(f) && PlainBoundary(boundary) && !StartsLikeDelimiter(boundary, f)
    ensures forall j :: |Header(f)| + 4 <= j < |Head(f)| + |f.value| ==>
                          !(Delimiter(boundary) <= (Head(f) + f.value + Delimiter(boundary) + after)[j..])
  {
    hide Head, Header;
    var head, n, mark := Head(f), |Header(f)|, Delimiter(boundary);
    var s := head + f.value + mark + after;
    HeadReturns(f);
    forall j | n + 4 <= j < |head| + |f.value|
      ensures !(mark <= s[j..])
    {
      if j == n + 4 {
        assert s[j..] == CRLF + (f.value + (mark + after));
        if mark <= s[j..] {
          assert mark[2..] == "--" + boundary && s[j..][2..] == f.value + (mark + after);
          DashesInside("--" + boundary, f.value, mark + after);
        }
      } else if j == n + 5 {
        assert s[j] == head[j];
      } else {
        assert s[j] == f.value[j - |head|];
      }
    }
  }

  /** What the parser recovers from the printed text after a delimiter. */
  lemma {:induction false} ParsePrinted(boundary: string, fields: seq<Field>)
    requires AllValid(fields) && PlainBoundary(boundary)
    ensures var r := ParseAfterDelimiter(boundary, After(boundary, fields));
            if forall i :: 0 <= i < |fields| ==> !StartsLikeDelimiter(boundary, fields[i])
            then r == Some(fields) else r == None
  {
    hide Head, Header, Find, ParsePart, StartsLikeDelimiter, Delimiter;
    if fields != [] {
      var f, tail := fields[0], After(boundary, fields[1..]);
      var s, mark := After(boundary, fields), Delimiter(boundary);
      assert Valid(f);
      HeadReturns(f);
      DelimiterFound(boundary, f, tail);
      if StartsLikeDelimiter(boundary, f) {
        PartCut(f);
        assert s[..|Header(f)| + 4] == Head(f)[..|Header(f)| + 4];
      } else {
        ParsePrinted(boundary, fields[1..]);
        PartBack(f);
        var v := |Head(f)| + |f.value|;
        assert s[..v] == Head(f) + f.value && s[v + |mark|..] == tail;
        assert fields == [f] + fields[1..];
        assert forall i :: 1 <= i < |fields| ==> fields[i] == fields[1..][i - 1];
      }
    }
  }

  /**
   The printed form parses back to the same names and values in order exactly when no value
   starts like a delimiter line; otherwise it does not parse at all.
   */
  lemma PrintedParses(boundary: string, fields: seq<Field>)
    requires AllValid(fields) && PlainBoundary(boundary)
    ensures var r := Parse(boundary, Print(boundary, fields));
            if forall i :: 0 <= i < |fields| ==> !StartsLikeDelimiter(boundary, fields[i])
            then r == Some(fields) else r == None
  {
    hide StartsLikeDelimiter, ParseAfterDelimiter, After;
    var s, dash := Print(boundary, fields), "--" + boundary;
    PrintStartsWithDelimiter(boundary, fields);
    assert s[|dash|..] == After(boundary, fields);
    ParsePrinted(boundary, fields);
  }

  /** A form the printer accepts and `Parse` does not read back: its one value looks like a delimiter line. */
  lemma ValueCutsItsPart(boundary: string, name: string)
    requires PlainBoundary(boundary) && ValidName(name)
    ensures var fields := [Field(name, "--" + boundary)];
            AllValid(fields) && Parse(boundary, Print(boundary, fields)) == None
  {
    hide Parse, Print;
    var fields := [Field(name, "--" + boundary)];
    assert StartsLikeDelimiter(boundary, fields[0]);
    PrintedParses(boundary, fields);
  }

  /** A part on paper, and the end of the form. */
  lemma PartText(boundary: string, f: Field)
    ensures Part(boundary, f)
         == "--" + boundary + "\r\n" + "Content-Disposition: form-data; name=\"" + f.name + "\"" + "\r\n" + "\r\n"
            + f.value + "\r\n"
    ensures Print(boundary, []) == "--" + boundary + "--" + "\r\n"
  {
    assert CRLF + Header(f) + CRLF + CRLF
        == "\r\n" + "Content-Disposition: form-data; name=\"" + f.name + "\"" + "\r\n" + "\r\n";
  }
}
