/** The lines that are printed for names and values, and which of them are read back. */
module ProfileWords {
  import opened Wrappers
  import opened ProfileText
  import opened ProfileLine
  import opened ProfileReading

  predicate NeedsDoubleQuotes(s: string)
  {
    s != "" && (IsSpace(s[0]) || IsSpace(s[|s| - 1])
                || '\n' in s || '\t' in s || '\U{08}' in s || ' ' in s || '#' in s || ';' in s)
  }

  function Word(s: string): string
  {
    if NeedsDoubleQuotes(s) then Quoted(s) else s
  }

  function Tabs(n: nat): (tabs: string)
    ensures |tabs| == n
  {
    seq(n, _ => '\t')
  }

  function RelationLine(level: nat, name: string, value: string): string
  {
    Tabs(level) + (Word(name) + " = " + Word(value)) + "\n"
  }

  function Star(final: bool): string
  {
    if final then "*" else ""
  }

  function SectionLine(name: string, final: bool): string
  {
    "[" + Word(name) + "]" + Star(final) + "\n"
  }

  function OpenLine(level: nat, name: string): string
  {
    Tabs(level) + (Word(name) + " = {") + "\n"
  }

  function CloseLine(level: nat, final: bool): string
  {
    Tabs(level) + "}" + Star(final) + "\n"
  }

  // ---------- which names and values are read back ----------

  predicate Solid(s: string)
  {
    forall c :: c in s ==> !IsSpace(c) && c != '#' && c != ';'
  }

  // Between quotes a double quote must not occur, because it is not escaped; without quotes a blank
  // ends the word, and some characters at its start say that the line is something else.
  predicate WordReadable(s: string, start: set<char>)
  {
    s != "" && if NeedsDoubleQuotes(s) then '"' !in s else s[0] != '"' && s[0] !in start && Solid(s)
  }

  // Names of relations, and of sections inside others.
  predicate NameReadable(name: string)
  {
    WordReadable(name, {'[', '}'}) && '=' !in name && '*' !in name && '\0' !in name
  }

  predicate ValueReadable(value: string)
  {
    WordReadable(value, {'{'}) && '\0' !in value
  }

  // Names of top-level sections.
  predicate TopReadable(name: string)
  {
    name != "" && ']' !in name && '\0' !in name && if NeedsDoubleQuotes(name) then '"' !in name else name[0] != '"'
  }

  // ---------- words ----------

  lemma SolidRest(s: string)
    requires Solid(s) && s != ""
    ensures Solid(s[1..])
  {
    forall c | c in s[1..]
      ensures c in s
    {
    }
  }

  lemma {:induction false} SolidNonBlanks(s: string, rest: string)
    requires Solid(s) && (EndOrComment(rest) || IsSpace(rest[0]))
    ensures NonBlanks(s + rest) == |s|
  {
    var text := s + rest;
    if s == "" {
      assert text == rest;
    } else {
      assert text[1..] == s[1..] + rest && s[0] in s;
      SolidRest(s);
      SolidNonBlanks(s[1..], rest);
    }
  }

  lemma {:induction false} NotSolidNonBlanks(s: string, rest: string)
    requires !Solid(s)
    ensures NonBlanks(s + rest) < |s|
  {
    var text := s + rest;
    if s != "" && !(IsSpace(s[0]) || s[0] == '#' || s[0] == ';') {
      assert text[1..] == s[1..] + rest;
      assert s == [s[0]] + s[1..];
      NotSolidNonBlanks(s[1..], rest);
    }
  }

  lemma {:induction false} EscapedKeepsOut(s: string, c: char)
    requires c !in s && c != '\\' && c != 'n' && c != 't' && c != 'b'
    ensures c !in Escaped(s)
  {
    if s != "" {
      EscapedKeepsOut(s[1..], c);
      assert c !in EscapeOf(s[0]);
    }
  }

  lemma WordKeepsOut(s: string, c: char)
    requires c !in s && c !in {'\\', 'n', 't', 'b', '"'}
    ensures c !in Word(s)
  {
    EscapedKeepsOut(s, c);
  }

  // A word begins and ends with characters that are neither blank nor the start of a comment.
  lemma WordEnds(s: string)
    requires s != ""
    ensures var w := Word(s); w != "" && !EndOrComment(w) && !IsSpace(w[0]) && !IsSpace(w[|w| - 1])
  {
    if !NeedsDoubleQuotes(s) {
      assert s[0] in s && s[|s| - 1] in s;
    }
  }

  // Without escapes and quotes a quoted string is as it is written.
  lemma {:induction false} UnquotedSame(s: string)
    requires |Unquoted(s)| == |s|
    ensures Unquoted(s) == s && '"' !in s
  {
    if s != "" && s[0] != '"' && s[0] != '\\' {
      UnquotedSame(s[1..]);
      assert s == [s[0]] + s[1..];
    }
  }

  // A word that is printed as it is although it begins with a double quote is not read back.
  lemma QuoteIsLost(s: string, c: char)
    requires s != "" && s[0] == '"'
    ensures Unquoted(s[1..] + [c]) != s
  {
    var x := s[1..] + [c];
    assert |x| == |s| && x[0] in x;
    if |Unquoted(x)| == |x| {
      UnquotedSame(x);
    }
  }

  // A word before a blank is read back as a name exactly under these conditions.
  lemma TagOfWord(name: string)
    requires name != ""
    ensures Tag(Word(name) + " ") == Some(name) <==> WordReadable(name, {})
  {
    var before := Word(name) + " ";
    if NeedsDoubleQuotes(name) {
      QuotedRoundTrip(name, " ");
    } else if name[0] == '"' {
      assert before[1..] == name[1..] + [' '];
      QuoteIsLost(name, ' ');
    } else if Solid(name) {
      SolidNonBlanks(name, " ");
      assert before[..|name|] == name && before[|name| + 1..] == "";
    } else {
      NotSolidNonBlanks(name, " ");
    }
  }

  lemma CutIsName(tag: string, name: string)
    ensures CutAtStar(tag) == (name, false) <==> tag == name && '*' !in name
  {
  }

  // The same for a value at the end of a line.
  lemma ValueOfWord(tag: string, value: string)
    requires value != ""
    ensures var r := LexValue(tag, Word(value) + "\n");
            && (r.Relation? ==> (r.name, r.final) == CutAtStar(tag))
            && (r.Relation? && r.value == value <==> WordReadable(value, {'{'}))
    ensures SkipOverBlanks(Word(value) + "\n") == Word(value) + "\n"
  {
    hide CutAtStar, WordReadable;
    WordEnds(value);
    if NeedsDoubleQuotes(value) {
      QuotedRoundTrip(value, "\n");
      ReadableQuoted(value);
    } else {
      RawValue(tag, value);
    }
  }

  lemma ReadableQuoted(value: string)
    requires value != "" && NeedsDoubleQuotes(value)
    ensures WordReadable(value, {'{'}) <==> '"' !in value
  {
  }

  lemma RawValue(tag: string, value: string)
    requires value != "" && !NeedsDoubleQuotes(value)
    ensures var r := LexValue(tag, value + "\n");
            && (r.Relation? ==> (r.name, r.final) == CutAtStar(tag))
            && (r.Relation? && r.value == value <==> WordReadable(value, {'{'}))
  {
    hide CutAtStar, Unquoted, NonBlanks, SkipOverBlanks, Solid;
    var v := value + "\n";
    NotComment(value);
    if value[0] == '"' {
      assert v[1..] == value[1..] + ['\n'];
      QuoteIsLost(value, '\n');
    } else if value[0] != '{' {
      if Solid(value) {
        SolidNonBlanks(value, "\n");
        assert v[|value|..] == "\n" && v[..|value|] == value;
        OnlyEol();
      } else {
        NotSolidNonBlanks(value, "\n");
      }
    }
  }

  lemma NotComment(s: string)
    requires s != "" && !NeedsDoubleQuotes(s)
    ensures s[0] != '#' && s[0] != ';'
  {
    assert s[0] in s;
  }

  lemma OnlyEol()
    ensures SkipOverBlanks("\n") == "" && IsSpace('\n')
  {
    assert "\n"[1..] == "";
  }

  // ---------- lines ----------

  lemma {:induction false} SkipSpaces(b: string, text: string)
    requires (forall c :: c in b ==> IsSpace(c)) && text != "" && !IsSpace(text[0])
    ensures SkipOverBlanks(b + text) == text
  {
    if b == "" {
      assert b + text == text;
    } else {
      assert (b + text)[1..] == b[1..] + text && b[0] in b;
      SkipSpaces(b[1..], text);
    }
  }

  // A printed line has one line end, which the source leaves where it is.
  lemma OneEol(b: string, text: string)
    requires (forall c :: c in b ==> IsSpace(c)) && text != "" && !IsSpace(text[0]) && !IsEol(text[|text| - 1])
    ensures Stripped(b + text + "\n") == b + text + "\n"
    ensures SkipOverBlanks(Stripped(b + text + "\n")) == text + "\n"
  {
    hide SkipOverBlanks, IsSpace;
    var line := b + text + "\n";
    LastButOne(b, text);
    NoEndLess(line);
    assert line == b + (text + "\n");
    SkipSpaces(b, text + "\n");
  }

  lemma LastButOne(a: string, text: string)
    requires text != ""
    ensures var line := a + text + "\n"; |line| >= 2 && line[|line| - 2] == text[|text| - 1]
  {
  }

  // The text of a relation line, from the first character on that is no blank.
  lemma RelationLineText(level: nat, name: string, value: string)
    ensures var t := SkipOverBlanks(Stripped(RelationLine(level, name, value)));
            t == (if name == "" then "= " else Word(name) + " = ") + (Word(value) + "\n")
  {
    hide SkipOverBlanks, Stripped, Word;
    var start := if name == "" then "= " else Word(name) + " = ";
    var b := if name == "" then Tabs(level) + " " else Tabs(level);
    var text := start + Word(value);
    if name == "" {
      EmptyWord();
    } else {
      WordEnds(name);
    }
    if value == "" {
      EmptyWord();
    } else {
      WordEnds(value);
    }
    assert RelationLine(level, name, value) == b + text + "\n";
    OneEol(b, text);
  }

  lemma EmptyWord()
    ensures Word("") == ""
  {
  }

  lemma EqualsAfterName(name: string, rest: string)
    requires name != "" && '=' !in name
    ensures var t := Word(name) + " = " + rest;
            && Find(t, '=') == Some(|Word(name)| + 1) && t[..|Word(name)| + 1] == Word(name) + " "
            && SkipOverBlanks(t[|Word(name)| + 2..]) == SkipOverBlanks(rest)
  {
    hide Word, Find;
    var t := Word(name) + " = " + rest;
    WordKeepsOut(name, '=');
    FindAfter(Word(name) + " ", '=', "= " + rest);
    assert t == (Word(name) + " ") + ("= " + rest);
    assert t[|Word(name)| + 2..] == " " + rest;
    assert (" " + rest)[1..] == rest;
  }

  lemma {:induction false} UnquotedKeepsOut(s: string, c: char)
    requires c !in s && c !in {'\n', '\t', '\U{08}'}
    ensures c !in Unquoted(s)
  {
    if s != "" && s[0] != '"' {
      if s[0] != '\\' {
        UnquotedKeepsOut(s[1..], c);
      } else if |s| > 1 {
        UnquotedKeepsOut(s[2..], c);
      }
    }
  }

  lemma TagKeepsOut(before: string, c: char)
    requires before != "" && c !in before && c !in {'\n', '\t', '\U{08}'}
    ensures Tag(before).Some? ==> c !in Tag(before).value
  {
    hide Unquoted, NonBlanks, SkipOverBlanks;
    UnquotedKeepsOut(before[1..], c);
  }

  lemma ValueNamed(tag: string, v: string)
    ensures LexValue(tag, v).Relation? ==> LexValue(tag, v).name == CutAtStar(tag).0
  {
    hide CutAtStar, Unquoted, NonBlanks, SkipOverBlanks;
  }

  // A name that is read has no equals sign.
  lemma NameHasNoEquals(t: string)
    ensures LexRelation(t).Relation? ==> '=' !in LexRelation(t).name
  {
    hide Unquoted, LexValue, Tag, SkipOverBlanks;
    match Find(t, '=')
    case None =>
    case Some(e) =>
      if e > 0 && Tag(t[..e]).Some? {
        var tag := Tag(t[..e]).value;
        TagKeepsOut(t[..e], '=');
        CutKeepsOut(tag, '=');
        ValueNamed(tag, SkipOverBlanks(t[e + 1..]));
      }
  }

  // A relation line is read back exactly when name and value are readable.
  lemma RelationLexes(level: nat, name: string, value: string)
    requires '\0' !in name && '\0' !in value
    ensures Lex(RelationLine(level, name, value)) == Relation(name, value, false) <==> NameReadable(name) && ValueReadable(value)
  {
    hide SkipOverBlanks, Stripped, RelationLine, LexRelation, LexSection, WordReadable;
    RelationLineText(level, name, value);
    if name == "" {
      NotReadable(name, {'[', '}'});
      NoName(Word(value) + "\n");
    } else {
      var t := Word(name) + " = " + (Word(value) + "\n");
      WordEnds(name);
      assert t[0] == Word(name)[0];
      StartReadable(name, '[', '}');
      RelationTextLexes(name, value);
    }
  }

  lemma NotReadable(s: string, start: set<char>)
    ensures s == "" ==> !WordReadable(s, start)
  {
  }

  lemma NoName(rest: string)
    ensures LexRelation("= " + rest) == Failure(PROF_RELATION_SYNTAX)
  {
    assert ("= " + rest)[0] == '=';
  }

  lemma StartReadable(name: string, a: char, b: char)
    requires name != "" && a != '"' && b != '"'
    ensures Word(name)[0] == a || Word(name)[0] == b ==> !WordReadable(name, {a, b})
    ensures Word(name)[0] != a && Word(name)[0] != b ==> (WordReadable(name, {a, b}) <==> WordReadable(name, {}))
  {
  }

  lemma RelationTextLexes(name: string, value: string)
    requires name != ""
    ensures LexRelation(Word(name) + " = " + (Word(value) + "\n")) == Relation(name, value, false)
            <==> WordReadable(name, {}) && '=' !in name && '*' !in name && WordReadable(value, {'{'})
  {
    hide SkipOverBlanks, Word, Find, Tag, LexValue, CutAtStar, WordReadable;
    var t := Word(name) + " = " + (Word(value) + "\n");
    NameHasNoEquals(t);
    if '=' !in name {
      EqualsAfterName(name, Word(value) + "\n");
      TagOfWord(name);
      var tag := Tag(Word(name) + " ");
      if tag.Some? {
        CutIsName(tag.value, name);
        if value == "" {
          NotReadable(value, {'{'});
          EmptyWord();
          OnlyEol();
          assert "" + "\n" == "\n";
          OpensWithout(tag.value);
        } else {
          ValueOfWord(tag.value, value);
        }
      }
    }
  }

  lemma OpensWithout(tag: string)
    ensures LexValue(tag, "").Open?
  {
  }

  // An opening line is read back.
  lemma OpenLexes(level: nat, name: string)
    requires NameReadable(name)
    ensures Lex(OpenLine(level, name)) == Open(name, false, true)
    ensures SkipOverBlanks(Stripped(OpenLine(level, name))) == Word(name) + " = " + "{\n"
  {
    hide SkipOverBlanks, Stripped, Word, Find, Tag, LexValue, WordReadable;
    var text := Word(name) + " = {";
    NotReadable(name, {'[', '}'});
    WordEnds(name);
    StartReadable(name, '[', '}');
    TagOfWord(name);
    OneEol(Tabs(level), text);
    var t := Word(name) + " = " + "{\n";
    assert text + "\n" == t && t[0] == Word(name)[0];
    EqualsAfterName(name, "{\n");
    BraceLexes(name);
  }

  lemma BraceLexes(name: string)
    requires '*' !in name
    ensures LexValue(name, "{\n") == Open(name, false, true) && SkipOverBlanks("{\n") == "{\n"
  {
    CutIsName(name, name);
    assert "{\n"[1..] == "\n" && SkipOverBlanks("\n"[1..]) == "";
  }

  lemma CloseLexes(level: nat, final: bool)
    ensures Lex(CloseLine(level, final)) == Close(final)
    ensures SkipOverBlanks(Stripped(CloseLine(level, final))) == "}" + Star(final) + "\n"
  {
    var text := "}" + Star(final);
    OneEol(Tabs(level), text);
    assert CloseLine(level, final) == Tabs(level) + text + "\n";
    assert (text + "\n")[1] == if final then '*' else '\n';
  }

  lemma BlankLexes()
    ensures Lex("\n") == Nothing && SkipOverBlanks(Stripped("\n")) == ""
  {
    assert "\n"[1..] == "";
  }

  // ---------- section lines ----------

  lemma {:induction false} EscapedLonger(s: string)
    ensures |Escaped(s)| >= |s|
  {
    if s != "" {
      EscapedLonger(s[1..]);
    }
  }

  lemma SkipNothing(t: string)
    requires t != "" && !IsSpace(t[0])
    ensures SkipOverBlanks(t) == t
  {
  }

  // Without quotes nothing after the name is looked at, so a star there does not make it final.
  lemma UnquotedSectionEndsLine(name: string, rest: string)
    requires name != "" && name[0] != '"' && ']' !in name
    ensures LexSection(name + "]" + rest) == Section(TrimmedEnd(name), false)
  {
    var s := name + "]" + rest;
    assert s == name + ("]" + rest);
    FindAfter(name, ']', "]" + rest);
    assert s[..|name|] == name;
  }

  // With quotes it is looked at.
  lemma QuotedSectionSeesRest(name: string, rest: string)
    requires '"' !in name && ']' !in name
    ensures LexSection(Quoted(name) + "]" + rest) == WithRest(name, rest)
  {
    hide Unquoted;
    var s := Quoted(name) + "]" + rest;
    assert s == Quoted(name) + ("]" + rest);
    EscapedKeepsOut(name, ']');
    FindAfter(Quoted(name), ']', "]" + rest);
    QuotedRoundTrip(name, "]" + rest);
    EscapedLonger(name);
    assert s[1..][|Quoted(name)|..] == rest;
  }

  lemma StarAndEnd(name: string, final: bool)
    ensures WithRest(name, Star(final) + "\n") == Section(name, final)
  {
    assert SkipOverBlanks("\n"[1..]) == "" && "*\n"[1..] == "\n";
  }

  // So a section line is read back, but a star on it only when the name is in quotes.
  lemma LexSectionOfWord(name: string, final: bool)
    requires TopReadable(name)
    ensures LexSection(Word(name) + "]" + (Star(final) + "\n")) == Section(name, final && NeedsDoubleQuotes(name))
  {
    hide LexSection;
    if NeedsDoubleQuotes(name) {
      QuotedSectionSeesRest(name, Star(final) + "\n");
      StarAndEnd(name, final);
    } else {
      UnquotedSectionEndsLine(name, Star(final) + "\n");
    }
  }

  lemma SectionLexes(name: string, final: bool)
    requires TopReadable(name)
    ensures Lex(SectionLine(name, final)) == Section(name, final && NeedsDoubleQuotes(name)) && SectionLine(name, final)[0] == '['
    ensures SkipOverBlanks(Stripped(SectionLine(name, final))) == "[" + (Word(name) + "]" + (Star(final) + "\n"))
  {
    hide Word, SkipOverBlanks, Stripped, LexSection;
    var text, after := "[" + Word(name) + "]" + Star(final), Word(name) + "]" + (Star(final) + "\n");
    OneEol("", text);
    assert "" + text + "\n" == SectionLine(name, final);
    assert (text + "\n")[1..] == after && text + "\n" == "[" + after;
    LexSectionOfWord(name, final);
    WordEnds(name);
    assert after[0] == Word(name)[0];
    SkipNothing(after);
  }

  // ---------- printed lines in a buffer ----------

  lemma {:induction false} DanglingEnds(s: string)
    ensures Dangling(s) ==> s != "" && s[|s| - 1] == '\\'
  {
    if s != "" && s[0] != '"' {
      if s[0] != '\\' {
        DanglingEnds(s[1..]);
      } else if |s| > 1 {
        DanglingEnds(s[2..]);
      }
    }
  }

  lemma {:induction false} SkippedEnd(s: string)
    ensures var r := SkipOverBlanks(s); r != "" ==> s != "" && r[|r| - 1] == s[|s| - 1]
  {
    if s != "" && IsSpace(s[0]) {
      SkippedEnd(s[1..]);
    }
  }

  // On a line with its line end only a name can be untidy.
  lemma LineTidy(line: string)
    requires var t := SkipOverBlanks(Stripped(line)); t != "" && t[|t| - 1] == '\n'
    ensures var t := SkipOverBlanks(Stripped(line));
            Tidy(line) <==> !(t[0] == '"' && Find(t, '=').Some? && Dangling(t[1..Find(t, '=').value]))
  {
    hide Dangling, SkipOverBlanks, Stripped;
    var t := SkipOverBlanks(Stripped(line));
    if t[0] == '[' {
      SkippedEnd(t[1..]);
      if SkipOverBlanks(t[1..]) != "" {
        DanglingEnds(SkipOverBlanks(t[1..])[1..]);
      }
    } else {
      match Find(t, '=')
      case None =>
      case Some(e) =>
        SkippedEnd(t[e + 1..]);
        if SkipOverBlanks(t[e + 1..]) != "" {
          DanglingEnds(SkipOverBlanks(t[e + 1..])[1..]);
        }
    }
  }

  lemma BeforeBlank(w: string)
    requires w != ""
    ensures !Dangling((w + " ")[1..])
  {
    DanglingEnds((w + " ")[1..]);
  }

  lemma RelationTidy(level: nat, name: string, value: string)
    requires '=' !in name
    ensures Tidy(RelationLine(level, name, value))
  {
    hide Tidy, Word, RelationLine, Dangling, Find, Stripped, SkipOverBlanks;
    RelationLineText(level, name, value);
    LineTidy(RelationLine(level, name, value));
    if name != "" {
      WordEnds(name);
      EqualsAfterName(name, Word(value) + "\n");
      BeforeBlank(Word(name));
    }
  }

  // Whatever name and value are, the printed line in a buffer is read back exactly when they are readable.
  lemma RelationReadExactly(m: Buffer, level: nat, name: string, value: string)
    requires TextAt(m, 0, RelationLine(level, name, value)) && '\0' !in name && '\0' !in value
    ensures Lexed(m) == Relation(name, value, false) <==> NameReadable(name) && ValueReadable(value)
  {
    hide Tidy, Lexed, Lex, RelationLine, TextAt, ValueReadable;
    var line := RelationLine(level, name, value);
    RelationLexes(level, name, value);
    if Tidy(line) {
      LexedIsLex(m, line);
    } else {
      UntidyNotRead(m, level, name, value);
    }
  }

  lemma SplitAtEquals(t: string, e: nat)
    requires Find(t, '=') == Some(e) && t[0] == '"'
    ensures e > 0 && t == "\"" + t[1..e] + "=" + t[e + 1..] && '=' !in t[1..e]
  {
  }

  lemma CutKeepsOut(name: string, c: char)
    requires c !in name
    ensures c !in CutAtStar(name).0
  {
  }

  // A name with a backslash right before the equals sign is read without an equals sign, too.
  lemma UntidyName(m: Buffer, line: string, t: string, e: nat)
    requires TextAt(m, 0, line) && t == SkipOverBlanks(Stripped(line)) && Find(t, '=') == Some(e)
    requires t[0] == '"' && Dangling(t[1..e]) && !Dangling(t[e + 1..])
    ensures Lexed(m).Relation? ==> '=' !in Lexed(m).name
  {
    hide Dangling, Stripped, SkipOverBlanks, TextAt, Lexed, RelationIn, Unquoted, CutAtStar, StrippedLine, Find, Blanks;
    SplitAtEquals(t, e);
    LexedRelation(m, line);
    RelationOverName(StrippedLine(m), Blanks(StrippedLine(m), 0), t[1..e], t[e + 1..]);
    UnquotedKeepsOut(t[1..e], '=');
    CutKeepsOut(Unquoted(t[1..e]), '=');
  }

  // An untidy line comes from a name with an equals sign, and gives one without.
  lemma UntidyNotRead(m: Buffer, level: nat, name: string, value: string)
    requires TextAt(m, 0, RelationLine(level, name, value)) && !Tidy(RelationLine(level, name, value))
    ensures '=' in name && (Lexed(m).Relation? ==> '=' !in Lexed(m).name)
  {
    hide Tidy, RelationLine, Dangling, Stripped, SkipOverBlanks, TextAt, Lexed, Word, Find;
    var line := RelationLine(level, name, value);
    if '=' !in name {
      RelationTidy(level, name, value);
    }
    RelationLineText(level, name, value);
    LineTidy(line);
    var t := SkipOverBlanks(Stripped(line));
    var e := Find(t, '=').value;
    DanglingEnds(t[e + 1..]);
    UntidyName(m, line, t, e);
  }

  lemma OpenTidy(level: nat, name: string)
    requires NameReadable(name)
    ensures Tidy(OpenLine(level, name))
  {
    hide Tidy, Word, OpenLine, Dangling, Find, Stripped, SkipOverBlanks;
    OpenLexes(level, name);
    LineTidy(OpenLine(level, name));
    WordEnds(name);
    EqualsAfterName(name, "{\n");
    BeforeBlank(Word(name));
  }

  lemma SectionTidy(name: string, final: bool)
    requires TopReadable(name)
    ensures Tidy(SectionLine(name, final))
  {
    hide Tidy, Word, SectionLine, Dangling, Find, Stripped, SkipOverBlanks;
    SectionLexes(name, final);
    LineTidy(SectionLine(name, final));
  }

  lemma CloseTidy(level: nat, final: bool)
    ensures Tidy(CloseLine(level, final)) && Tidy("\n")
  {
    hide CloseLine, Dangling, Find, Stripped, SkipOverBlanks;
    CloseLexes(level, final);
    BlankLexes();
  }

  // The star of a final top-level section is read back exactly when its name needs quotes.
  lemma StarIsReadExactly(m: Buffer, name: string)
    requires TextAt(m, 0, SectionLine(name, true)) && TopReadable(name)
    ensures Lexed(m) == Section(name, true) <==> NeedsDoubleQuotes(name)
  {
    hide Lexed, Lex, NeedsDoubleQuotes, Tidy, TextAt, SectionLine;
    SectionLexes(name, true);
    SectionTidy(name, true);
    LexedIsLex(m, SectionLine(name, true));
  }

  // In the buffer, too, nothing on the line is looked at after an unquoted section name: the null
  // character written over the bracket ends the line there.
  lemma StarIsNotSeen(m: Buffer, i: nat, name: string, rest: string)
    requires TextAt(m, i, name + "]" + rest) && name != "" && name[0] != '"' && !IsSpace(name[0]) && ']' !in name
    ensures SectionIn(m, i) == Section(TrimmedEnd(name), false)
  {
    hide LexSection, SectionIn, TextAt;
    var t := name + "]" + rest;
    SkipNothing(t);
    SectionText(m, i, t);
    UnquotedSectionEndsLine(name, rest);
  }

  // ---------- in characters ----------

  // A word is put in quotes when it holds a blank, a tab, a newline, a backspace or the start of a comment,
  // or begins or ends with another blank character.
  lemma QuotesNeededExactly(s: string)
    ensures NeedsDoubleQuotes(s)
            <==> exists i :: 0 <= i < |s|
                   && (s[i] in " \n\t\U{08}#;" || ((i == 0 || i == |s| - 1) && s[i] in "\r\U{0B}\U{0C}"))
  {
    var inside, atEnds := " \n\t\U{08}#;", "\r\U{0B}\U{0C}";
    if NeedsDoubleQuotes(s) {
      if IsSpace(s[0]) {
        assert s[0] in inside || s[0] in atEnds;
      } else if IsSpace(s[|s| - 1]) {
        assert s[|s| - 1] in inside || s[|s| - 1] in atEnds;
      } else {
        assert exists c :: c in s && c in inside;
      }
    }
  }
}
