/**
 The scanner that replaces the firmware's `Number.NaN` by `null` outside JSON strings,
 proved against a lexer. A string literal runs from a quotation mark to the next one that
 is not escaped (section 7 of RFC 8259), or to the end of the text.
 */
module NumericLiterals {
  const NAN: string := "Number.NaN"

  // ----- the lexer

  datatype Token = StringLiteral(text: string) | NotANumber | Other(c: char)

  /** Where the string literal with contents from `i` on ends, just past its closing quotation mark. */
  function StringEnd(s: string, i: nat, escaped: bool): (end: nat)
    requires i <= |s|
    ensures i <= end <= |s|
    decreases |s| - i
  {
    if i == |s| then i
    else if escaped then StringEnd(s, i + 1, false)
    else if s[i] == '\\' then StringEnd(s, i + 1, true)
    else if s[i] == '"' then i + 1
    else StringEnd(s, i + 1, false)
  }

  function Lex(s: string): seq<Token>
    decreases |s|
  {
    if s == "" then []
    else if s[0] == '"' then
      var end := StringEnd(s, 1, false);
      [StringLiteral(s[..end])] + Lex(s[end..])
    else if NAN <= s then [NotANumber] + Lex(s[|NAN|..])
    else [Other(s[0])] + Lex(s[1..])
  }

  function Text(t: Token): string {
    match t
    case StringLiteral(text) => text
    case NotANumber => NAN
    case Other(c) => [c]
  }

  function Render(ts: seq<Token>): string {
    if ts == [] then "" else Text(ts[0]) + Render(ts[1..])
  }

  function Null(): seq<Token> {
    [Other('n'), Other('u'), Other('l'), Other('l')]
  }

  function Clean(ts: seq<Token>): seq<Token> {
    if ts == [] then []
    else (if ts[0].NotANumber? then Null() else [ts[0]]) + Clean(ts[1..])
  }

  function Strings(ts: seq<Token>): seq<string> {
    if ts == [] then []
    else (if ts[0].StringLiteral? then [ts[0].text] else []) + Strings(ts[1..])
  }

  predicate Finite(ts: seq<Token>) {
    forall i :: 0 <= i < |ts| ==> !ts[i].NotANumber?
  }

  /** What the scanner is to compute. */
  function Normalized(s: string): string {
    Render(Clean(Lex(s)))
  }

  // ----- one step of the lexer at a time

  lemma {:induction false} RenderConcat(s: seq<Token>, t: seq<Token>)
    ensures Render(s + t) == Render(s) + Render(t)
  {
    if s == [] {
      assert s + t == t;
    } else {
      assert (s + t)[1..] == s[1..] + t;
      RenderConcat(s[1..], t);
    }
  }

  lemma RenderNull()
    ensures Render(Null()) == "null"
  {
    assert Null()[1..] == [Other('u'), Other('l'), Other('l')];
    assert Null()[1..][1..] == [Other('l'), Other('l')];
    assert Null()[1..][1..][1..] == [Other('l')];
  }

  lemma CleanHead(t: Token, ts: seq<Token>)
    ensures Render(Clean([t] + ts)) == (if t.NotANumber? then "null" else Text(t)) + Render(Clean(ts))
  {
    hide Text, Null;
    assert ([t] + ts)[1..] == ts;
    var head := if t.NotANumber? then Null() else [t];
    RenderConcat(head, Clean(ts));
    RenderNull();
    assert Render([t]) == Text(t);
  }

  lemma NormalizedSteps(s: string)
    ensures s == "" ==> Normalized(s) == ""
    ensures s != "" && s[0] == '"' ==>
              var end := StringEnd(s, 1, false); Normalized(s) == s[..end] + Normalized(s[end..])
    ensures s != "" && s[0] != '"' && NAN <= s ==> Normalized(s) == "null" + Normalized(s[|NAN|..])
    ensures s != "" && s[0] != '"' && !(NAN <= s) ==> Normalized(s) == [s[0]] + Normalized(s[1..])
  {
    hide Clean, Render, StringEnd;
    if s == "" {
      NothingNormalized();
    } else if s[0] == '"' {
      var end := StringEnd(s, 1, false);
      CleanHead(StringLiteral(s[..end]), Lex(s[end..]));
    } else if NAN <= s {
      CleanHead(NotANumber, Lex(s[|NAN|..]));
    } else {
      CleanHead(Other(s[0]), Lex(s[1..]));
    }
  }

  lemma NothingNormalized()
    ensures Normalized("") == ""
  {}

  // ----- the scanner

  /** What is still to be output from position `i` on. */
  function Ahead(s: string, i: nat, inString: bool, escaped: bool): string
    requires i <= |s|
  {
    if inString then
      var end := StringEnd(s, i, escaped);
      s[i..end] + Normalized(s[end..])
    else Normalized(s[i..])
  }

  /** `_normalize_numeric_literals`. */
  method NormalizeNumericLiterals(payload: string) returns (normalized: string)
    ensures normalized == Normalized(payload)
  {
    hide Normalized, Ahead;
    normalized := "";
    StartAhead(payload);
    var index, inString, escaped := 0, false, false;
    while index < |payload|
      invariant index <= |payload|
      invariant !inString ==> !escaped
      invariant normalized + Ahead(payload, index, inString, escaped) == Normalized(payload)
    {
      var character := payload[index];
      if inString {
        InsideStep(payload, index, escaped);
        normalized := normalized + [character];
        if escaped {
          escaped := false;
        } else if character == '\\' {
          escaped := true;
        } else if character == '"' {
          inString := false;
        }
        index := index + 1;
        continue;
      }
      OutsideStep(payload, index);
      if character == '"' {
        inString := true;
        normalized := normalized + [character];
        index := index + 1;
        continue;
      }
      if NAN <= payload[index..] {
        normalized := normalized + "null";
        index := index + |NAN|;
        continue;
      }
      normalized := normalized + [character];
      index := index + 1;
    }
    NothingAhead(payload, inString, escaped);
  }

  lemma StartAhead(s: string)
    ensures Ahead(s, 0, false, false) == Normalized(s)
  {
    assert s[0..] == s;
  }

  lemma NothingAhead(s: string, inString: bool, escaped: bool)
    ensures Ahead(s, |s|, inString, escaped) == ""
  {}

  lemma OutsideStep(s: string, i: nat)
    requires i < |s|
    ensures var out := Ahead(s, i, false, false);
            if s[i] == '"' then out == [s[i]] + Ahead(s, i + 1, true, false)
            else if NAN <= s[i..] then i + |NAN| <= |s| && out == "null" + Ahead(s, i + |NAN|, false, false)
            else out == [s[i]] + Ahead(s, i + 1, false, false)
  {
    hide Normalized, StringEnd;
    NormalizedSteps(s[i..]);
    if s[i] == '"' {
      OpenStep(s, i);
    } else if NAN <= s[i..] {
      assert s[i..][|NAN|..] == s[i + |NAN|..];
    } else {
      assert s[i..][1..] == s[i + 1..];
    }
  }

  lemma InsideStep(s: string, i: nat, escaped: bool)
    requires i < |s|
    ensures var escaped' := !escaped && s[i] == '\\';
            var inString' := escaped || s[i] != '"';
            Ahead(s, i, true, escaped) == [s[i]] + Ahead(s, i + 1, inString', escaped')
  {
    hide Normalized;
    var end := StringEnd(s, i, escaped);
    assert s[i..end] == [s[i]] + s[i + 1..end];
  }

  lemma OpenStep(s: string, i: nat)
    requires i < |s| && s[i] == '"'
    ensures Ahead(s, i, false, false) == [s[i]] + Ahead(s, i + 1, true, false)
  {
    hide Normalized;
    NormalizedSteps(s[i..]);
    var end := StringEnd(s, i + 1, false);
    StringEndInSuffix(s, i, 1, false);
    assert s[i..][..end - i] == [s[i]] + s[i + 1..end];
    assert s[i..][end - i..] == s[end..];
  }

  lemma {:induction false} StringEndInSuffix(s: string, k: nat, i: nat, escaped: bool)
    requires k + i <= |s|
    ensures StringEnd(s[k..], i, escaped) + k == StringEnd(s, k + i, escaped)
    decreases |s| - i
  {
    if k + i < |s| {
      assert s[k..][i] == s[k + i];
      StringEndInSuffix(s, k, i + 1, !escaped && s[k + i] == '\\');
    }
  }

  // ----- properties of the result

  /** The lexer loses nothing. */
  lemma {:induction false} RenderLex(s: string)
    ensures Render(Lex(s)) == s
    decreases |s|
  {
    if s != "" {
      var t := Lex(s)[0];
      assert Lex(s) == [t] + Lex(s)[1..];
      if s[0] == '"' {
        RenderLex(s[StringEnd(s, 1, false)..]);
      } else if NAN <= s {
        RenderLex(s[|NAN|..]);
      } else {
        RenderLex(s[1..]);
      }
    }
  }

  lemma {:induction false} CleanIsFinite(ts: seq<Token>)
    ensures Finite(Clean(ts))
    ensures Strings(Clean(ts)) == Strings(ts)
  {
    if ts != [] {
      CleanIsFinite(ts[1..]);
      if ts[0].NotANumber? {
        StringsOfNull(Clean(ts[1..]));
      } else {
        assert Clean(ts)[1..] == Clean(ts[1..]);
      }
    }
  }

  lemma StringsOfNull(ts: seq<Token>)
    ensures Strings(Null() + ts) == Strings(ts)
  {
    var all := Null() + ts;
    assert all[1..][1..][1..][1..] == ts;
    assert Strings(all) == Strings(all[1..]) == Strings(all[1..][1..]) == Strings(all[1..][1..][1..]);
  }

  lemma {:induction false} CleanFinite(ts: seq<Token>)
    requires Finite(ts)
    ensures Clean(ts) == ts
  {
    if ts != [] {
      CleanFinite(ts[1..]);
    }
  }

  /** Replacing never creates a new `Number.NaN`: no tail of it can start the output unless it starts the input. */
  lemma {:induction false} NothingNew(s: string, i: nat)
    requires i <= |NAN| && NAN[i..] <= Normalized(s)
    ensures NAN[i..] <= s
    decreases |NAN| - i
  {
    hide Normalized;
    if i < |NAN| {
      NormalizedSteps(s);
      var out := Normalized(s);
      assert out[0] == NAN[i] && NAN[i] != '"' && NAN[i] != 'n';
      assert out[1..] == Normalized(s[1..]);
      assert NAN[i..][1..] == NAN[i + 1..];
      assert NAN[i + 1..] <= out[1..];
      NothingNew(s[1..], i + 1);
    }
  }

  /** A string literal ends where it did, whatever follows it. */
  lemma {:induction false} StringEndLocal(s: string, i: nat, escaped: bool, end: nat, tail: string)
    requires i <= |s| && end == StringEnd(s, i, escaped)
    requires end == |s| ==> tail == ""
    ensures StringEnd(s[..end] + tail, i, escaped) == end
    decreases |s| - i
  {
    var t := s[..end] + tail;
    if i < |s| && (escaped || s[i] != '"') {
      StringEndLocal(s, i + 1, !escaped && s[i] == '\\', end, tail);
      assert t[i] == s[i];
    }
  }

  /** The output lexes to the cleaned tokens of the input. */
  lemma {:induction false} LexNormalized(s: string)
    ensures Lex(Normalized(s)) == Clean(Lex(s))
    decreases |s|
  {
    if s == "" {
      return;
    }
    NormalizedSteps(s);
    var out := Normalized(s);
    if s[0] == '"' {
      LexAfterString(s);
    } else if NAN <= s {
      LexNormalized(s[|NAN|..]);
      LexAfterNull(Normalized(s[|NAN|..]));
    } else {
      LexNormalized(s[1..]);
      if NAN <= out {
        NothingNew(s, 0);
      }
      assert out[1..] == Normalized(s[1..]);
    }
  }

  lemma LexAfterString(s: string)
    requires s != "" && s[0] == '"'
    ensures Lex(Normalized(s)) == Clean(Lex(s))
    decreases |s|, 0
  {
    hide Normalized;
    var end := StringEnd(s, 1, false);
    var tail := Normalized(s[end..]);
    NormalizedSteps(s);
    NormalizedSteps(s[end..]);
    StringEndLocal(s, 1, false, end, tail);
    LexNormalized(s[end..]);
    assert (s[..end] + tail)[..end] == s[..end] && (s[..end] + tail)[end..] == tail;
  }

  lemma LexAfterNull(tail: string)
    ensures Lex("null" + tail) == Null() + Lex(tail)
  {
    var s0 := "null" + tail;
    var s1, s2, s3 := s0[1..], s0[2..], s0[3..];
    assert s0[0] == 'n' && s1[0] == 'u' && s2[0] == 'l' && s3[0] == 'l';
    assert s1[1..] == s2 && s2[1..] == s3 && s3[1..] == tail;
    assert !(NAN <= s0) && !(NAN <= s1) && !(NAN <= s2) && !(NAN <= s3) by {
      assert NAN[0] == 'N';
    }
    assert Lex(s3) == [Other('l')] + Lex(tail);
    assert Lex(s2) == [Other('l')] + Lex(s3);
    assert Lex(s1) == [Other('u')] + Lex(s2);
    assert Lex(s0) == [Other('n')] + Lex(s1);
  }

  /** Every string literal is kept verbatim and in order, and no `Number.NaN` is left outside them. */
  lemma StringsKept(s: string)
    ensures Strings(Lex(Normalized(s))) == Strings(Lex(s))
    ensures Finite(Lex(Normalized(s)))
  {
    LexNormalized(s);
    CleanIsFinite(Lex(s));
  }

  /** Text without the literal outside strings is returned as it is. */
  lemma UnchangedWhenFinite(s: string)
    ensures Finite(Lex(s)) <==> Normalized(s) == s
  {
    if Finite(Lex(s)) {
      CleanFinite(Lex(s));
      RenderLex(s);
    }
    if Normalized(s) == s {
      LexNormalized(s);
      CleanIsFinite(Lex(s));
    }
  }

  lemma Idempotent(s: string)
    ensures Normalized(Normalized(s)) == Normalized(s)
  {
    StringsKept(s);
    UnchangedWhenFinite(Normalized(s));
  }

  // ----- texts put together from literals

  /** A character of a JSON string as written: as it stands, or after a backslash. */
  datatype Written = Plainly(c: char) | Escaped(c: char)

  /** A piece of a document: a string, `Number.NaN`, or any other character. */
  datatype Piece = Quoted(content: seq<Written>) | Nan | Char(c: char)

  predicate WrittenWell(content: seq<Written>) {
    forall i :: 0 <= i < |content| ==> content[i].Plainly? ==> content[i].c != '"' && content[i].c != '\\'
  }

  function Inside(content: seq<Written>): string {
    if content == [] then ""
    else (if content[0].Escaped? then ['\\', content[0].c] else [content[0].c]) + Inside(content[1..])
  }

  /** The document, with `nan` for each `Number.NaN`. */
  function Document(pieces: seq<Piece>, nan: string): string {
    if pieces == [] then ""
    else
      (match pieces[0]
       case Quoted(content) => "\"" + Inside(content) + "\""
       case Nan => nan
       case Char(c) => [c])
      + Document(pieces[1..], nan)
  }

  /** Strings are well written, and other characters neither begin a string nor a `Number.NaN`. */
  predicate Readable(pieces: seq<Piece>) {
    pieces == []
    || (&& (pieces[0].Quoted? ==> WrittenWell(pieces[0].content))
        && (pieces[0].Char? ==> pieces[0].c != '"' && !(NAN <= Document(pieces, NAN)))
        && Readable(pieces[1..]))
  }

  lemma {:induction false} StringEndsAt(before: string, content: seq<Written>, rest: string)
    requires WrittenWell(content)
    ensures StringEnd(before + Inside(content) + "\"" + rest, |before|, false) == |before| + |Inside(content)| + 1
    decreases content
  {
    var s := before + Inside(content) + "\"" + rest;
    if content == [] {
      assert s[|before|] == '"';
    } else {
      var w, tail := content[0], Inside(content[1..]);
      var first := if w.Escaped? then ['\\', w.c] else [w.c];
      assert Inside(content) == first + tail;
      StringEndsAt(before + first, content[1..], rest);
      assert s == (before + first) + tail + "\"" + rest;
      assert s[|before|] == first[0];
      if w.Escaped? {
        assert s[|before| + 1] == w.c;
        assert StringEnd(s, |before|, false) == StringEnd(s, |before| + 1, true) == StringEnd(s, |before| + 2, false);
      }
    }
  }

  /**
   A document put together from strings, `Number.NaN` and other characters comes out with
   `null` for each `Number.NaN` between them, and otherwise as it was.
   */
  lemma {:induction false} DocumentNormalized(pieces: seq<Piece>)
    requires Readable(pieces)
    ensures Normalized(Document(pieces, NAN)) == Document(pieces, "null")
  {
    hide Normalized;
    var s := Document(pieces, NAN);
    NormalizedSteps(s);
    if pieces != [] {
      var tail := Document(pieces[1..], NAN);
      DocumentNormalized(pieces[1..]);
      match pieces[0]
      case Quoted(content) =>
        var literal := "\"" + Inside(content) + "\"";
        assert s == "\"" + Inside(content) + "\"" + tail;
        StringEndsAt("\"", content, tail);
        assert s[..|literal|] == literal && s[|literal|..] == tail;
      case Nan =>
        assert s == NAN + tail && s[0] == NAN[0] && s[|NAN|..] == tail;
      case Char(c) =>
        assert s == [c] + tail && s[1..] == tail;
    }
  }
}
