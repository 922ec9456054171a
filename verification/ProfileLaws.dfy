/** What whole lines of a configuration file do, line shape by line shape, and which error each rejected line gives. */
module ProfileLaws {
  import opened Wrappers
  import opened ProfileText
  import opened ProfileLine
  import opened ProfileReading
  import opened ProfileWords
  import opened ProfileTree
  import opened ProfilePrint

  ghost predicate AllBlank(b: string)
  {
    forall c :: c in b ==> IsSpace(c)
  }

  // The text of a line, without the blanks before it and the line end after it.
  ghost predicate IsText(text: string)
  {
    text != "" && '\0' !in text && !IsSpace(text[0]) && !IsEol(text[|text| - 1])
  }

  // What is read from the line alone in a buffer, and its first character that is no blank.
  ghost predicate Says(line: string, first: char, meaning: Meaning)
  {
    InBuffer(line)[0] != '\0' && FirstChar(InBuffer(line)) == first && Lexed(InBuffer(line)) == meaning
  }

  ghost function LexText(t: string): Meaning
    requires t != ""
  {
    if EndOrComment(t) then Nothing
    else if t[0] == '[' then LexSection(SkipOverBlanks(t[1..]))
    else if t[0] == '}' then Close(|t| > 1 && t[1] == '*')
    else LexRelation(t)
  }

  lemma LineText(b: string, text: string)
    requires AllBlank(b) && IsText(text)
    ensures SkipOverBlanks(Stripped(b + text + "\n")) == text + "\n"
    ensures '\0' !in b + text + "\n" && (b + text + "\n")[0] != '\0'
    ensures TextAt(InBuffer(b + text + "\n"), 0, b + text + "\n")
  {
    hide SkipOverBlanks, Stripped;
    OneEol(b, text);
    var line := b + text + "\n";
    assert InBuffer(line)[0..|line|] == line;
  }

  lemma TextSays(b: string, text: string)
    requires AllBlank(b) && IsText(text)
    requires text[0] == '"' ==> match Find(text + "\n", '=') case None => true case Some(e) => e > 0 && !Dangling((text + "\n")[1..e])
    ensures Says(b + text + "\n", text[0], LexText(text + "\n"))
  {
    hide SkipOverBlanks, Stripped, Lexed, FirstChar, Find, Dangling, TextAt, LexSection, LexRelation, Tidy;
    var line := b + text + "\n";
    LineText(b, text);
    LineTidy(line);
    LexedIsLex(InBuffer(line), line);
  }

  // ---------- lines that change nothing ----------

  // Before the first line that begins with a bracket every line is a comment.
  lemma BeforeFirstSection(s: State, line: string)
    requires Valid(s) && s.mode == InitComment && (line == "" || line[0] != '[')
    ensures StepLine(s, line) == Ok(s.(lineNum := s.lineNum + 1))
  {
    hide Valid, Lexed;
  }

  lemma {:induction false} OnlyBlanks(b: string)
    requires AllBlank(b)
    ensures SkipOverBlanks(b) == ""
  {
    if b != "" {
      assert b[0] in b;
      OnlyBlanks(b[1..]);
    }
  }

  lemma {:induction false} StrippedBlanks(b: string)
    requires AllBlank(b)
    ensures AllBlank(Stripped(b))
  {
    if |b| >= 2 && IsEol(b[|b| - 1]) && IsEol(b[|b| - 2]) {
      StrippedBlanks(b[..|b| - 1]);
    }
  }

  lemma BlankLine(s: State, b: string)
    requires InSection(s) && AllBlank(b)
    ensures StepLine(s, b) == Ok(s.(lineNum := s.lineNum + 1))
  {
    hide Valid, Lexed, FirstChar, Stripped, SkipOverBlanks;
    if b != "" {
      StrippedBlanks(b);
      OnlyBlanks(Stripped(b));
      assert InBuffer(b)[0..|b|] == b && b[0] in b;
      LexedIsLex(InBuffer(b), b);
    }
  }

  lemma CommentLine(s: State, b: string, text: string)
    requires InSection(s) && AllBlank(b) && IsText(text) && (text[0] == '#' || text[0] == ';')
    ensures StepLine(s, b + text + "\n") == Ok(s.(lineNum := s.lineNum + 1))
  {
    hide Valid, Lexed, FirstChar, Find;
    TextSays(b, text);
  }

  // ---------- the brace of a section on the line after its name ----------

  // What may follow a name and its equals sign, or an opening brace: blanks and a comment.
  ghost predicate NoMore(rest: string)
  {
    '\0' !in rest && (rest != "" ==> !IsEol(rest[|rest| - 1])) && EndOrComment(SkipOverBlanks(rest + "\n"))
  }

  function NameAlone(level: nat, name: string, rest: string): string
  {
    Tabs(level) + (Word(name) + " =" + rest) + "\n"
  }

  lemma NameText(name: string, rest: string)
    requires NameReadable(name) && '\0' !in rest && (rest != "" ==> !IsEol(rest[|rest| - 1]))
    ensures IsText(Word(name) + " =" + rest)
    ensures var t := Word(name) + " =" + rest + "\n";
            && Find(t, '=') == Some(|Word(name)| + 1) && t[..|Word(name)| + 1] == Word(name) + " "
            && t[|Word(name)| + 2..] == rest + "\n" && !EndOrComment(t) && t[0] != '[' && t[0] != '}'
            && (t[0] == '"' ==> !Dangling(t[1..|Word(name)| + 1]))
            && Tag(Word(name) + " ") == Some(name) && CutAtStar(name) == (name, false)
  {
    hide Word, Find, Tag, Dangling, WordReadable;
    NotReadable(name, {'[', '}'});
    WordEnds(name);
    WordKeepsOut(name, '\0');
    WordKeepsOut(name, '=');
    StartReadable(name, '[', '}');
    TagOfWord(name);
    CutIsName(name, name);
    BeforeBlank(Word(name));
    var t := Word(name) + " =" + rest + "\n";
    FindAfter(Word(name) + " ", '=', "=" + rest + "\n");
    assert t == (Word(name) + " ") + ("=" + rest + "\n");
    assert t[1..|Word(name)| + 1] == (Word(name) + " ")[1..];
  }

  // The value in a line that begins with a readable name.
  lemma NamedSays(b: string, name: string, rest: string)
    requires AllBlank(b) && NameReadable(name) && '\0' !in rest && (rest != "" ==> !IsEol(rest[|rest| - 1]))
    ensures Word(name) != ""
    ensures Says(b + (Word(name) + " =" + rest) + "\n", Word(name)[0], LexValue(name, SkipOverBlanks(rest + "\n")))
    ensures Word(name)[0] != '['
  {
    hide Word, Find, Tag, Dangling, NameReadable, LexValue, SkipOverBlanks, Says, CutAtStar;
    NameText(name, rest);
    NotReadable(name, {'[', '}'});
    ReadableNotEmpty(name);
    WordEnds(name);
    TextSays(b, Word(name) + " =" + rest);
  }

  lemma ReadableNotEmpty(name: string)
    requires NameReadable(name)
    ensures name != ""
  {
  }

  // The state after a name alone: the section is there and entered, but its brace is still missing.
  lemma StepNameAlone(s: State, level: nat, name: string, rest: string)
    requires InSection(s) && NameReadable(name) && NoMore(rest)
    ensures StepLine(s, NameAlone(level, name, rest)) == Ok(Entered(s, name).(mode := GetObrace))
  {
    hide Word, NameReadable, CutAtStar, Valid, Lexed, FirstChar, SkipOverBlanks, IsEol;
    NamedSays(Tabs(level), name, rest);
    NameCut(name);
  }

  lemma NameCut(name: string)
    requires NameReadable(name)
    ensures CutAtStar(name) == (name, false)
  {
    CutIsName(name, name);
  }

  lemma StepBrace(s: State, next: string)
    requires Valid(s) && s.mode == GetObrace && '\0' !in next
    ensures var t := SkipOverBlanks(next);
            StepLine(s, next) == if t != "" && t[0] == '{' then Ok(s.(mode := StdLine, lineNum := s.lineNum + 1)) else Err(18)
  {
    hide Valid, Blanks, SkipOverBlanks;
    var m := InBuffer(next);
    assert m[0..|next|] == next;
    BlanksText(m, 0, next);
    TextFirst(m, Blanks(m, 0), SkipOverBlanks(next));
  }

  lemma PathOf(s: State)
    requires Valid(s)
    ensures PathIn(s.root, s.path)
  {
  }

  lemma RunTwo(s: State, first: string, second: string)
    requires Valid(s) && StepLine(s, first).Ok?
    ensures Valid(StepLine(s, first).state)
    ensures RunLines(s, [first, second]) == StepLine(StepLine(s, first).state, second)
  {
    hide Valid, StepLine;
    PathOf(s);
    LineKeepsValid(s, first);
    PathOf(StepLine(s, first).state);
    var next := StepLine(s, first).state;
    assert [first, second] == [first] + [second];
    RunOne(s, first, [second]);
    OneLine(next, second);
  }

  lemma OneLine(s: State, line: string)
    requires Valid(s)
    ensures RunLines(s, [line]) == StepLine(s, line)
  {
    hide Valid, Step;
    PathOf(s);
    var buffers := InBuffers([line]);
    assert buffers[0] == InBuffer(line) && buffers[1..] == [];
    if StepLine(s, line).Ok? {
      LineKeepsValid(s, line);
      assert Run(StepLine(s, line).state, []) == StepLine(s, line);
    }
  }

  // A name on one line and its brace on the next do what the name with its brace and an empty line do:
  // the section is added and entered.
  lemma BraceOnNextLine(s: State, level: nat, name: string, rest: string, b: string, after: string)
    requires InSection(s) && NameReadable(name) && NoMore(rest) && AllBlank(b) && '\0' !in after
    ensures RunLines(s, [NameAlone(level, name, rest), b + "{" + after]) == RunLines(s, [OpenLine(level, name), ""])
    ensures RunLines(s, [OpenLine(level, name), ""]) == Ok(Entered(s, name).(lineNum := s.lineNum + 2))
  {
    hide NameReadable, NoMore, NameAlone, OpenLine, Added, SkipOverBlanks, Lexed, Valid, Put, StepLine;
    var next := b + "{" + after;
    PathOf(s);
    StepNameAlone(s, level, name, rest);
    StepOpen(s, level, name);
    RunTwo(s, NameAlone(level, name, rest), next);
    RunTwo(s, OpenLine(level, name), "");
    BlankLine(Entered(s, name), "");
    assert next == b + ("{" + after);
    SkipSpaces(b, "{" + after);
    NoNull(b);
    StepBrace(StepLine(s, NameAlone(level, name, rest)).state, next);
  }

  lemma NoNull(b: string)
    requires AllBlank(b)
    ensures '\0' !in b
  {
  }

  // Any other line after a name alone is an error.
  lemma NoBraceOnNextLine(s: State, level: nat, name: string, rest: string, next: string)
    requires InSection(s) && NameReadable(name) && NoMore(rest) && '\0' !in next
    requires var t := SkipOverBlanks(next); t == "" || t[0] != '{'
    ensures RunLines(s, [NameAlone(level, name, rest), next]) == Err(18)
  {
    hide NameReadable, NoMore, NameAlone, Added, SkipOverBlanks, Lexed, Valid, Filled;
    PathOf(s);
    StepNameAlone(s, level, name, rest);
    RunTwo(s, NameAlone(level, name, rest), next);
    StepBrace(StepLine(s, NameAlone(level, name, rest)).state, next);
  }

  // The line of a section that is there already enters it; a star after a name in quotes marks it, and a
  // mark that is there stays.
  lemma SectionAgain(s: State, name: string, star: bool, k: nat)
    requires AtTop(s) && TopReadable(name) && k < |s.root.children| && s.root.children[k].name == name
    ensures var child := s.root.children[k];
            var marked := child.(final := child.final || (star && NeedsDoubleQuotes(name)));
            StepLine(s, SectionLine(name, star))
            == Ok(s.(mode := StdLine, path := [k], lineNum := s.lineNum + 1, root := s.root.(children := s.root.children[k := marked])))
  {
    hide SectionLine, Added, NeedsDoubleQuotes, Lexed, FirstChar, Lex, Clean;
    SectionClean(name, star);
    LineInBuffer(SectionLine(name, star));
    FoundAt(s.root.children, k, name);
  }

  // Blanks around a name without quotes are no part of it, and nothing after the bracket is looked at.
  lemma SectionBlanks(s: State, gap: string, name: string, end: string, rest: string)
    requires AtTop(s) && FindSection(s.root.children, name).None? && AllBlank(gap) && AllBlank(end)
    requires name != "" && name[0] != '"' && !IsSpace(name[0]) && !IsSpace(name[|name| - 1]) && ']' !in name
    requires IsText("[" + (gap + name + end + "]" + rest))
    ensures StepLine(s, "[" + (gap + name + end + "]" + rest) + "\n") == Ok(TopEntered(s, name, false))
  {
    hide Says, AllBlank, IsText, StepLine, TopEntered, AtTop;
    SectionSays(gap, name, end, rest);
    StepNewSection(s, "[" + (gap + name + end + "]" + rest) + "\n", name);
  }

  lemma StepNewSection(s: State, line: string, name: string)
    requires AtTop(s) && FindSection(s.root.children, name).None? && line != "" && line[0] == '[' && Says(line, '[', Section(name, false))
    ensures StepLine(s, line) == Ok(TopEntered(s, name, false))
  {
    hide Added, Lexed, FirstChar, Valid;
  }

  lemma SectionSays(gap: string, name: string, end: string, rest: string)
    requires AllBlank(gap) && AllBlank(end)
    requires name != "" && name[0] != '"' && !IsSpace(name[0]) && !IsSpace(name[|name| - 1]) && ']' !in name
    requires IsText("[" + (gap + name + end + "]" + rest))
    ensures Says("[" + (gap + name + end + "]" + rest) + "\n", '[', Section(name, false))
  {
    hide Says, IsSpace, TrimmedEnd, LexSection, SkipOverBlanks, Find;
    var text, inner := "[" + (gap + name + end + "]" + rest), name + end + "]" + (rest + "\n");
    TextSays("", text);
    assert "" + text + "\n" == text + "\n";
    NameInside(gap, name, end, rest);
    SkipSpaces(gap, inner);
    NoBracket(end);
    UnquotedSectionEndsLine(name + end, rest + "\n");
    TrimmedBlanks(name, end);
  }

  lemma NameInside(gap: string, name: string, end: string, rest: string)
    ensures ("[" + (gap + name + end + "]" + rest) + "\n")[1..] == gap + (name + end + "]" + (rest + "\n"))
  {
  }

  lemma NoBracket(b: string)
    requires AllBlank(b)
    ensures ']' !in b
  {
  }

  lemma {:induction false} TrimmedBlanks(name: string, end: string)
    requires name != "" && !IsSpace(name[|name| - 1]) && AllBlank(end)
    ensures TrimmedEnd(name + end) == name
  {
    if end == "" {
      assert name + end == name;
    } else {
      var n := |end| - 1;
      assert end[n] in end;
      assert (name + end)[..|name| + n] == name + end[..n];
      TrimmedBlanks(name, end[..n]);
    }
  }

  // ---------- lines that are rejected ----------

  // A bracket inside a section, whatever follows.
  lemma SectionNotAtTop(s: State, b: string, text: string)
    requires InSection(s) && s.level > 0 && AllBlank(b) && IsText("[" + text)
    ensures StepLine(s, b + ("[" + text) + "\n") == Err(14)
  {
    hide Valid, Lexed, FirstChar, LexSection, Find;
    TextSays(b, "[" + text);
  }

  // A closing brace with no section open.
  lemma BraceAtTop(s: State, b: string, text: string)
    requires InSection(s) && s.level == 0 && AllBlank(b) && IsText("}" + text)
    ensures StepLine(s, b + ("}" + text) + "\n") == Err(17)
  {
    hide Valid, Lexed, FirstChar, Find;
    TextSays(b, "}" + text);
  }

  lemma {:induction false} SkipKeepsOut(t: string, c: char)
    requires c !in t
    ensures c !in SkipOverBlanks(t)
  {
    if t != "" && IsSpace(t[0]) {
      SkipKeepsOut(t[1..], c);
    }
  }

  // A bracket that is not closed.
  lemma BracketNotClosed(s: State, b: string, text: string)
    requires InSection(s) && s.level == 0 && AllBlank(b) && IsText("[" + text) && ']' !in text
    ensures StepLine(s, b + ("[" + text) + "\n") == Err(15)
  {
    hide Valid, Lexed, FirstChar, SkipOverBlanks;
    TextSays(b, "[" + text);
    assert ("[" + text + "\n")[1..] == text + "\n";
    SkipKeepsOut(text + "\n", ']');
  }

  // A bracket with no name.
  lemma NoSectionName(s: State, b: string, gap: string, text: string)
    requires InSection(s) && s.level == 0 && AllBlank(b) && AllBlank(gap) && IsText("[" + gap + "]" + text)
    ensures StepLine(s, b + ("[" + gap + "]" + text) + "\n") == Err(15)
  {
    hide Valid, Lexed, FirstChar, AllBlank, IsText;
    NoNameSays(b, gap, text);
  }

  lemma NoNameSays(b: string, gap: string, text: string)
    requires AllBlank(b) && AllBlank(gap) && IsText("[" + gap + "]" + text)
    ensures Says(b + ("[" + gap + "]" + text) + "\n", '[', Failure(15))
  {
    hide Says, SkipOverBlanks;
    TextSays(b, "[" + gap + "]" + text);
    NameInside(gap, "", "", text);
    assert "[" + (gap + "" + "" + "]" + text) == "[" + gap + "]" + text;
    assert "" + "" + "]" + (text + "\n") == "]" + (text + "\n");
    SkipSpaces(gap, "]" + (text + "\n"));
  }

  // Something other than a star and a comment after a name in quotes.
  lemma JunkAfterSectionName(s: State, b: string, name: string, gap: string, junk: string)
    requires InSection(s) && s.level == 0 && AllBlank(b) && '"' !in name && ']' !in name && '\0' !in name
    requires AllBlank(gap) && IsText(junk) && !EndOrComment(junk) && (gap == "" ==> junk[0] != '*')
    ensures StepLine(s, b + ("[" + Quoted(name) + "]" + gap + junk) + "\n") == Err(15)
  {
    hide Valid, Lexed, FirstChar, SkipOverBlanks, LexSection, Find;
    var text := "[" + Quoted(name) + "]" + gap + junk;
    EscapedKeepsOut(name, '\0');
    NoNull(gap);
    TextSays(b, text);
    var rest := gap + junk + "\n";
    assert (text + "\n")[1..] == Quoted(name) + "]" + rest;
    SkipNothing(Quoted(name) + "]" + rest);
    QuotedSectionSeesRest(name, rest);
    assert rest == gap + (junk + "\n");
    SkipSpaces(gap, junk + "\n");
    assert gap != "" ==> rest[0] == gap[0] && gap[0] in gap;
  }

  // No equals sign, or nothing before it.
  lemma NoRelation(s: State, b: string, text: string)
    requires InSection(s) && AllBlank(b) && IsText(text) && text[0] !in {'[', '}', '#', ';'}
    requires '=' !in text || text[0] == '='
    ensures StepLine(s, b + text + "\n") == Err(16)
  {
    hide Valid, Lexed, FirstChar, SkipOverBlanks;
    TextSays(b, text);
  }

  lemma NoTag(first: string, gap: string, second: string)
    requires first != "" && Solid(first) && first[0] != '"' && gap != "" && AllBlank(gap) && second != "" && !IsSpace(second[0])
    ensures Tag(first + gap + second) == None
  {
    hide SkipOverBlanks, Solid, NonBlanks;
    var before := first + gap + second;
    assert before == first + (gap + second) && gap[0] in gap;
    SolidNonBlanks(first, gap + second);
    assert before[|first| + 1..] == gap[1..] + second;
    SkipSpaces(gap[1..], second);
  }

  lemma NoTagFails(t: string, before: string, rest: string)
    requires before != "" && '=' !in before && Tag(before) == None && t == before + ("=" + rest)
    ensures LexRelation(t) == Failure(PROF_RELATION_SYNTAX)
  {
    hide Tag, Find;
    FindAfter(before, '=', "=" + rest);
    assert t[..|before|] == before;
  }

  // Two words before the equals sign.
  lemma TwoNames(s: State, b: string, first: string, gap: string, second: string, rest: string)
    requires InSection(s) && AllBlank(b) && first != "" && Solid(first) && first[0] !in {'[', '}', '"'} && gap != "" && AllBlank(gap)
    requires second != "" && !IsSpace(second[0]) && '=' !in first + second && IsText(first + gap + second + "=" + rest)
    ensures StepLine(s, b + (first + gap + second + "=" + rest) + "\n") == Err(16)
  {
    hide Valid, Lexed, FirstChar, LexRelation, SkipOverBlanks, Solid, Find, Tag;
    var before := first + gap + second;
    var text := before + "=" + rest;
    assert text[0] == first[0] == (text + "\n")[0];
    TextSays(b, text);
    NoEquals(gap);
    NoTag(first, gap, second);
    SolidFirst(first);
    NoTagFails(text + "\n", before, rest + "\n");
  }

  lemma SolidFirst(name: string)
    requires name != "" && Solid(name)
    ensures !EndOrComment(name)
  {
    assert name[0] in name;
  }

  lemma NoEquals(b: string)
    requires AllBlank(b)
    ensures '=' !in b
  {
  }

  // Two words as a value, unless what follows the first one is a comment.
  lemma TwoValues(s: State, b: string, name: string, value: string, gap: string, more: string)
    requires InSection(s) && AllBlank(b) && NameReadable(name) && value != "" && Solid(value) && value[0] !in {'"', '{'} && '\0' !in value
    requires AllBlank(gap) && IsText(more) && (gap != "" || more[0] == '#' || more[0] == ';')
    ensures StepLine(s, b + (Word(name) + " =" + (" " + value + gap + more)) + "\n")
            == if more[0] == '#' || more[0] == ';' then Ok(Filled(s, Added(Current(s).children, Tree(name, Some(value), false, [])), 1))
               else Err(16)
  {
    hide Valid, Lexed, FirstChar, SkipOverBlanks, NameReadable, Word, Solid, CutAtStar, NonBlanks, Added;
    var rest := " " + value + gap + more;
    NoNull(gap);
    NamedSays(b, name, rest);
    NameCut(name);
    var v := value + gap + more + "\n";
    SolidFirst(value);
    assert rest + "\n" == " " + v;
    assert value[0] in value;
    SolidStart(value);
    SkipSpaces(" ", v);
    assert v == value + (gap + more + "\n") && (gap != "" ==> gap[0] in gap);
    assert gap == "" ==> gap + more + "\n" == more + "\n";
    SolidNonBlanks(value, gap + more + "\n");
    assert v[|value|..] == gap + (more + "\n") && v[..|value|] == value;
    SkipSpaces(gap, more + "\n");
  }

  // A quoted value ends the line: whatever follows it is not looked at.
  lemma QuotedValueEndsLine(s: State, b: string, name: string, value: string, rest: string)
    requires InSection(s) && AllBlank(b) && NameReadable(name) && '"' !in value && '\0' !in value && '\0' !in rest
    requires rest != "" ==> !IsEol(rest[|rest| - 1])
    ensures StepLine(s, b + (Word(name) + " =" + (" " + Quoted(value) + rest)) + "\n")
            == Ok(Filled(s, Added(Current(s).children, Tree(name, Some(value), false, [])), 1))
  {
    hide Valid, Lexed, FirstChar, SkipOverBlanks, NameReadable, Word, CutAtStar, Added, Unquoted, Escaped;
    EscapedKeepsOut(value, '\0');
    NamedSays(b, name, " " + Quoted(value) + rest);
    NameCut(name);
    var v := Quoted(value) + (rest + "\n");
    assert " " + Quoted(value) + rest + "\n" == " " + v;
    SkipSpaces(" ", v);
    QuotedRoundTrip(value, rest + "\n");
  }

  lemma SolidStart(name: string)
    requires name != "" && Solid(name)
    ensures !IsSpace(name[0])
  {
    assert name[0] in name;
  }

  // Something other than a comment after an opening brace.
  lemma JunkAfterBrace(s: State, b: string, name: string, gap: string, more: string)
    requires InSection(s) && AllBlank(b) && NameReadable(name) && AllBlank(gap) && IsText(more)
    ensures StepLine(s, b + (Word(name) + " =" + (" {" + gap + more)) + "\n")
            == if more[0] == '#' || more[0] == ';' then Ok(Entered(s, name)) else Err(16)
  {
    hide Valid, Lexed, FirstChar, SkipOverBlanks, NameReadable, Word, CutAtStar, Added;
    var rest := " {" + gap + more;
    NoNull(gap);
    NamedSays(b, name, rest);
    NameCut(name);
    var v := "{" + gap + more + "\n";
    assert rest + "\n" == " " + v;
    SkipSpaces(" ", v);
    assert v[1..] == gap + (more + "\n");
    SkipSpaces(gap, more + "\n");
  }

  // ---------- stars ----------

  // A star after a name that needs no quotes marks what the line adds as final, and is no part of the name.
  lemma StarMarksFinal(s: State, b: string, name: string, value: string)
    requires InSection(s) && AllBlank(b) && name != "" && Solid(name) && name[0] !in {'[', '}', '"'}
    requires '*' !in name && '=' !in name && '\0' !in name && '\U{08}' !in name
    requires value != "" && Solid(value) && value[0] !in {'"', '{'} && '\0' !in value
    ensures StepLine(s, b + (name + "* =" + (" " + value)) + "\n")
            == Ok(Filled(s, Added(Current(s).children, Tree(name, Some(value), true, [])), 1))
  {
    hide Valid, Lexed, FirstChar, SkipOverBlanks, Word, Solid, NonBlanks, Added, LexValue, Find, Tag;
    var tag := name + "*";
    assert IsText(name + "* =" + (" " + value)) by { SolidEnd(value); SolidStart(name); }
    StarredTag(name);
    StarredSays(b, name, " " + value);
    assert " " + value + "\n" == " " + (value + "\n");
    SolidStart(value);
    SkipSpaces(" ", value + "\n");
    SolidFirst(value);
    SolidValue(tag, value);
  }

  lemma SolidValue(tag: string, value: string)
    requires value != "" && Solid(value) && value[0] !in {'"', '{'}
    ensures LexValue(tag, value + "\n") == Relation(CutAtStar(tag).0, value, CutAtStar(tag).1)
  {
    hide CutAtStar, Solid, NonBlanks, SkipOverBlanks;
    var v := value + "\n";
    SolidFirst(value);
    SolidNonBlanks(value, "\n");
    OnlyEol();
    assert v[|value|..] == "\n" && v[..|value|] == value;
  }

  lemma StarredTag(name: string)
    requires Solid(name) && name != "" && name[0] != '"' && '*' !in name
    ensures CutAtStar(name + "*") == (name, true) && Tag(name + "* ") == Some(name + "*")
  {
    hide Solid, NonBlanks, SkipOverBlanks;
    var tag, before := name + "*", name + "* ";
    FindAfter(name, '*', "*");
    StarIsSolid(name);
    SolidNonBlanks(tag, " ");
    assert before == tag + " " && before[..|tag|] == tag && before[|tag| + 1..] == "";
    NothingLeft();
  }

  lemma StarredSays(b: string, name: string, rest: string)
    requires AllBlank(b) && name != "" && Solid(name) && name[0] !in {'[', '}', '"'}
    requires '*' !in name && '=' !in name && '\0' !in name
    requires '\0' !in rest && rest != "" && !IsEol(rest[|rest| - 1])
    ensures Says(b + (name + "* =" + rest) + "\n", name[0], LexValue(name + "*", SkipOverBlanks(rest + "\n")))
  {
    hide SkipOverBlanks, LexValue, LexRelation, Solid, Find, Dangling, Tag, CutAtStar, Says;
    var before, text := name + "* ", name + "* =" + rest;
    SolidStart(name);
    SolidFirst(name);
    assert text[0] == name[0] == (text + "\n")[0];
    TextSays(b, text);
    StarredTag(name);
    FindAfter(before, '=', "=" + rest + "\n");
    SplitText(name, rest);
    LexParts(text + "\n", |before|, name + "*");
  }

  lemma LexParts(t: string, e: nat, tag: string)
    requires Find(t, '=') == Some(e) && e > 0 && Tag(t[..e]) == Some(tag)
    ensures LexRelation(t) == LexValue(tag, SkipOverBlanks(t[e + 1..]))
  {
  }

  lemma SplitText(name: string, rest: string)
    ensures var (before, t) := (name + "* ", name + "* =" + rest + "\n");
            t == before + ("=" + rest + "\n") && t[..|before|] == before && t[|before| + 1..] == rest + "\n"
  {
  }

  lemma SolidEnd(value: string)
    requires value != "" && Solid(value)
    ensures !IsSpace(value[|value| - 1])
  {
    assert value[|value| - 1] in value;
  }

  lemma NothingLeft()
    ensures SkipOverBlanks("") == ""
  {
  }

  lemma StarIsSolid(name: string)
    requires Solid(name)
    ensures Solid(name + "*")
  {
  }
}
