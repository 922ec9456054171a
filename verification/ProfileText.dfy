/** The lines of a configuration file: blanks, comments, quoted strings, and what one line says. */
module ProfileText {
  import opened Wrappers

  const PROF_SECTION_NOTOP := 14
  const PROF_SECTION_SYNTAX := 15
  const PROF_RELATION_SYNTAX := 16

  // ---------- characters ----------

  predicate IsSpace(c: char)
  {
    c == ' ' || c == '\t' || c == '\n' || c == '\r' || c == '\U{0B}' || c == '\U{0C}'
  }

  predicate IsEol(c: char)
  {
    c == '\n' || c == '\r'
  }

  predicate EndOrComment(s: string)
  {
    s == "" || s[0] == '#' || s[0] == ';'
  }

  function SkipOverBlanks(s: string): (rest: string)
    ensures |rest| <= |s| && (rest != "" ==> !IsSpace(rest[0]))
  {
    if s != "" && IsSpace(s[0]) then SkipOverBlanks(s[1..]) else s
  }

  // How many characters come before the first blank, comment or end.
  function NonBlanks(s: string): (n: nat)
    ensures n <= |s|
  {
    if EndOrComment(s) || IsSpace(s[0]) then 0 else 1 + NonBlanks(s[1..])
  }

  // Where a character occurs first.
  function Find(s: string, c: char): (at: Option<nat>)
    ensures match at
            case None => c !in s
            case Some(i) => i < |s| && s[i] == c && c !in s[..i]
    ensures at.Some? <==> c in s
  {
    if s == "" then None
    else if s[0] == c then Some(0)
    else match Find(s[1..], c)
      case None => None
      case Some(i) => assert s[..i + 1] == [s[0]] + s[1..][..i]; Some(i + 1)
  }

  // The first occurrence of a character, when it is not in the text before.
  lemma {:induction false} FindAfter(s: string, c: char, rest: string)
    requires c !in s && rest != "" && rest[0] == c
    ensures Find(s + rest, c) == Some(|s|)
  {
    if s == "" {
      assert s + rest == rest;
    } else {
      FindAfter(s[1..], c, rest);
      assert (s + rest)[1..] == s[1..] + rest && (s + rest)[0] == s[0];
    }
  }

  // The source takes the line ends off, all but one.
  function Stripped(line: string): string
  {
    if |line| >= 2 && IsEol(line[|line| - 1]) && IsEol(line[|line| - 2]) then Stripped(line[..|line| - 1]) else line
  }

  // Whatever line ends there are, the first one stays.
  lemma {:induction false} StrippedLeavesOne(text: string, eols: string)
    requires eols != "" && (forall c :: c in eols ==> IsEol(c)) && (text != "" ==> !IsEol(text[|text| - 1]))
    ensures Stripped(text + eols) == text + eols[..1]
  {
    hide IsEol, Stripped;
    var line, shorter := text + eols, eols[..|eols| - 1];
    assert eols[|eols| - 1] in eols;
    if |eols| > 1 {
      assert eols[|eols| - 2] in eols;
      assert line[..|line| - 1] == text + shorter && shorter[..1] == eols[..1];
      OneEndLess(line);
      StrippedLeavesOne(text, shorter);
    } else {
      assert eols[..1] == eols;
      NoEndLess(line);
    }
  }

  lemma OneEndLess(line: string)
    requires |line| >= 2 && IsEol(line[|line| - 1]) && IsEol(line[|line| - 2])
    ensures Stripped(line) == Stripped(line[..|line| - 1])
  {
  }

  lemma NoEndLess(line: string)
    requires |line| >= 2 ==> !IsEol(line[|line| - 2])
    ensures Stripped(line) == line
  {
  }

  // ---------- quoted strings ----------

  function Escape(c: char): char
  {
    match c
    case 'n' => '\n'
    case 't' => '\t'
    case 'b' => '\U{08}'
    case _ => c
  }

  // What a quoted string stands for, from the character after the first quote on.
  function Unquoted(s: string): (content: string)
    ensures |content| <= |s|
  {
    if s == "" || s[0] == '"' then ""
    else if s[0] != '\\' then [s[0]] + Unquoted(s[1..])
    else if |s| == 1 then ""
    else [Escape(s[1])] + Unquoted(s[2..])
  }

  // A backslash with nothing after it comes before the closing quote.
  predicate Dangling(s: string)
  {
    if s == "" || s[0] == '"' then false
    else if s[0] != '\\' then Dangling(s[1..])
    else if |s| == 1 then true
    else Dangling(s[2..])
  }

  // ---------- printing quoted strings ----------

  function EscapeOf(c: char): string
  {
    match c
    case '\\' => "\\\\"
    case '\n' => "\\n"
    case '\t' => "\\t"
    case '\U{08}' => "\\b"
    case _ => [c]
  }

  function Escaped(s: string): string
  {
    if s == "" then "" else EscapeOf(s[0]) + Escaped(s[1..])
  }

  function Quoted(s: string): string
  {
    "\"" + Escaped(s) + "\""
  }

  // The loop of output_quoted_string; what it hands out piece by piece is put together here.
  method OutputQuotedString(s: string) returns (output: string)
    ensures output == Quoted(s)
  {
    output := "\"";
    for i := 0 to |s|
      invariant output + Escaped(s[i..]) == "\"" + Escaped(s)
    {
      assert s[i..][1..] == s[i + 1..];
      ghost var before, rest := output, Escaped(s[i + 1..]);
      output := output + EscapeOf(s[i]);
      assert before + (EscapeOf(s[i]) + rest) == output + rest;
    }
    assert s[|s|..] == "";
    output := output + "\"";
  }

  // What comes before the first double quote.
  function UptoQuote(s: string): (start: string)
    ensures start == s <==> '"' !in s
  {
    if s == "" || s[0] == '"' then ""
    else assert '"' in s <==> '"' in s[1..]; assert s == [s[0]] + s[1..]; [s[0]] + UptoQuote(s[1..])
  }

  lemma UnquotedPiece(c: char, rest: string)
    requires c != '"'
    ensures Unquoted(EscapeOf(c) + rest) == [c] + Unquoted(rest)
  {
    var text := EscapeOf(c) + rest;
    if |EscapeOf(c)| == 2 {
      assert text[0] == '\\' && text[2..] == rest;
    } else {
      assert text[0] == c && text[1..] == rest;
    }
  }

  lemma Regroup(a: string, b: string, c: string, d: string)
    ensures a + b + c + d == a + (b + c + d)
  {
  }

  // Reading back what was printed gives the string up to its first double quote, which the printer
  // does not escape.
  lemma {:induction false} UnquotedEscaped(s: string, rest: string)
    ensures Unquoted(Escaped(s) + "\"" + rest) == UptoQuote(s)
  {
    var text := Escaped(s) + "\"" + rest;
    if s == "" || s[0] == '"' {
      assert text[0] == '"';
    } else {
      hide Unquoted;
      var tail := Escaped(s[1..]) + "\"" + rest;
      UnquotedEscaped(s[1..], rest);
      UnquotedPiece(s[0], tail);
      Regroup(EscapeOf(s[0]), Escaped(s[1..]), "\"", rest);
    }
  }

  // So printing and reading a quoted string is the identity exactly for strings without double quotes.
  lemma QuotedRoundTrip(s: string, rest: string)
    ensures (Quoted(s) + rest)[0] == '"'
    ensures Unquoted((Quoted(s) + rest)[1..]) == s <==> '"' !in s
  {
    assert (Quoted(s) + rest)[1..] == Escaped(s) + "\"" + rest;
    UnquotedEscaped(s, rest);
  }

  // ---------- what a line says ----------

  datatype Meaning =
    | Nothing
    | Section(name: string, final: bool)
    | Close(final: bool)
    | Relation(name: string, value: string, final: bool)
    | Open(name: string, final: bool, brace: bool)
    | Failure(code: nat)
    | Overrun

  // Blanks at the end are taken off, but never the first character.
  function TrimmedEnd(s: string): string
  {
    if |s| > 1 && IsSpace(s[|s| - 1]) then TrimmedEnd(s[..|s| - 1]) else s
  }

  // The name in the text after `[`, and what is left of the line after it.  The first `]` counts,
  // even between quotes; the quoted name has been written over the text by then.  Without quotes
  // the source goes back over the blanks before `]` and finds nothing after the name.
  function SectionName(s: string): Option<(string, string)>
  {
    match Find(s, ']')
    case None => None
    case Some(q) =>
      if s[0] == '"' then
        var content := Unquoted(s[1..]);
        Some((content, if q <= |content| then content[q..] else s[1..][q..]))
      else if q == 0 then None
      else Some((TrimmedEnd(s[..q]), ""))
  }

  function LexSection(s: string): (r: Meaning)
    ensures r.Section? || r.Failure?
  {
    match SectionName(s)
    case None => Failure(PROF_SECTION_SYNTAX)
    case Some((name, rest)) => WithRest(name, rest)
  }

  // A star right after the name marks the section as final; blanks and a comment may follow.
  function WithRest(name: string, rest: string): Meaning
  {
    var final := rest != "" && rest[0] == '*';
    var after := if final then rest[1..] else rest;
    if EndOrComment(SkipOverBlanks(after)) then Section(name, final) else Failure(PROF_SECTION_SYNTAX)
  }

  // A star in a name marks it as final and ends it.
  function CutAtStar(tag: string): (string, bool)
  {
    match Find(tag, '*')
    case None => (tag, false)
    case Some(i) => (tag[..i], true)
  }

  // The name before the equals sign.
  function Tag(before: string): Option<string>
    requires before != ""
  {
    if before[0] == '"' then Some(Unquoted(before[1..]))
    else
      var n := NonBlanks(before);
      var rest := if n < |before| then before[n + 1..] else "";
      if SkipOverBlanks(rest) == "" then Some(before[..n]) else None
  }

  function LexValue(tag: string, v: string): Meaning
  {
    var (name, final) := CutAtStar(tag);
    if v != "" && v[0] == '"' then Relation(name, Unquoted(v[1..]), final)
    else if EndOrComment(v) then Open(name, final, false)
    else if v[0] == '{' then
      if EndOrComment(SkipOverBlanks(v[1..])) then Open(name, final, true) else Failure(PROF_RELATION_SYNTAX)
    else
      var n := NonBlanks(v);
      if EndOrComment(SkipOverBlanks(v[n..])) then Relation(name, v[..n], final) else Failure(PROF_RELATION_SYNTAX)
  }

  function LexRelation(t: string): Meaning
  {
    match Find(t, '=')
    case None => Failure(PROF_RELATION_SYNTAX)
    case Some(e) =>
      if e == 0 then Failure(PROF_RELATION_SYNTAX)
      else match Tag(t[..e])
        case None => Failure(PROF_RELATION_SYNTAX)
        case Some(tag) => LexValue(tag, SkipOverBlanks(t[e + 1..]))
  }

  function Lex(line: string): Meaning
  {
    var t := SkipOverBlanks(Stripped(line));
    if EndOrComment(t) then Nothing
    else if t[0] == '[' then LexSection(SkipOverBlanks(t[1..]))
    else if t[0] == '}' then Close(|t| > 1 && t[1] == '*')
    else LexRelation(t)
  }

  // No quoted string on the line ends in a backslash that escapes what comes after the string.
  predicate Tidy(line: string)
  {
    var t := SkipOverBlanks(Stripped(line));
    if EndOrComment(t) || t[0] == '}' then true
    else if t[0] == '[' then
      var s := SkipOverBlanks(t[1..]);
      s != "" && s[0] == '"' ==> !Dangling(s[1..])
    else match Find(t, '=')
      case None => true
      case Some(e) =>
        var v := SkipOverBlanks(t[e + 1..]);
        (e > 0 && t[0] == '"' ==> !Dangling(t[1..e])) && (v != "" && v[0] == '"' ==> !Dangling(v[1..]))
  }

  // ---------- in characters ----------

  // Backslash, newline, tab and backspace are printed as two characters, every other one as it is.
  lemma EscapedCharacter(c: char, rest: string)
    ensures Escaped([c] + rest)
            == (if c == '\\' then "\\\\" else if c == '\n' then "\\n" else if c == '\t' then "\\t"
                else if c == '\U{08}' then "\\b" else [c]) + Escaped(rest)
  {
    assert ([c] + rest)[1..] == rest;
  }

  // After a backslash n, t and b stand for newline, tab and backspace, every other character for itself.
  lemma EscapeRead(c: char, rest: string)
    ensures Unquoted("\\" + [c] + rest)
            == [if c == 'n' then '\n' else if c == 't' then '\t' else if c == 'b' then '\U{08}' else c] + Unquoted(rest)
  {
    var s := "\\" + [c] + rest;
    assert s[0] == '\\' && s[1] == c && s[2..] == rest;
  }
}
