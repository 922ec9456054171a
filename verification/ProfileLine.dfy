/** One line in its buffer: the null characters that parsing writes, quoted strings in place, and what is read in the end. */
module ProfileLine {
  import opened Wrappers
  import opened ProfileText

  // A line with its null character, and what is in the buffer after it, up to a last null character.
  type Buffer = m: string | IsBuffer(m) witness "\0"

  predicate IsBuffer(m: string)
  {
    m != "" && m[|m| - 1] == '\0'
  }

  predicate EndChar(c: char)
  {
    c == '\0' || c == '#' || c == ';'
  }

  // ---------- strings in the buffer ----------

  // The first character from i on that is no blank.
  function Blanks(m: Buffer, i: nat): (cp: nat)
    requires i < |m|
    ensures i <= cp < |m| && !IsSpace(m[cp])
    decreases |m| - i
  {
    if IsSpace(m[i]) then Blanks(m, i + 1) else i
  }

  function Nonblanks(m: Buffer, i: nat): (cp: nat)
    requires i < |m|
    ensures i <= cp < |m|
    decreases |m| - i
  {
    if EndChar(m[i]) || IsSpace(m[i]) then i else Nonblanks(m, i + 1)
  }

  // Where the string at i ends.
  function StrEnd(m: Buffer, i: nat): (end: nat)
    requires i < |m|
    ensures i <= end < |m| && m[end] == '\0' && '\0' !in m[i..end]
    decreases |m| - i
  {
    if m[i] == '\0' then i
    else
      var end := StrEnd(m, i + 1);
      assert m[i..end] == [m[i]] + m[i + 1..end];
      end
  }

  function CString(m: Buffer, i: nat): string
    requires i < |m|
  {
    m[i..StrEnd(m, i)]
  }

  // Where a character occurs first in the string at i.
  function StrChr(m: Buffer, i: nat, c: char): (at: Option<nat>)
    requires i < |m| && c != '\0'
    ensures at.Some? ==> i <= at.value < |m| - 1 && m[at.value] == c
    decreases |m| - i
  {
    if m[i] == c then Some(i)
    else if m[i] == '\0' then None
    else StrChr(m, i + 1, c)
  }

  // What is written over the quoted string at i, without the null character at the end.  An escaped
  // null character is written like any other, and does not end the string that is being read; None
  // means that reading does not end within the buffer.
  function Scan(m: Buffer, i: nat): (written: Option<string>)
    requires i < |m|
    ensures written.Some? ==> i + |written.value| < |m|
    decreases |m| - i
  {
    if m[i] == '\0' || m[i] == '"' then Some("")
    else
      var next := if m[i] == '\\' then i + 2 else i + 1;
      if next >= |m| then None
      else match Scan(m, next)
        case None => None
        case Some(rest) => Some([if m[i] == '\\' then Escape(m[i + 1]) else m[i]] + rest)
  }

  function Written(m: Buffer, i: nat): (after: Option<Buffer>)
    requires i < |m|
    ensures after.Some? ==> |after.value| == |m|
  {
    match Scan(m, i)
    case None => None
    case Some(content) => Some(m[..i] + content + "\0" + m[i + |content| + 1..])
  }

  // The line ends are taken off from p on downwards, except the first of them.
  function StripAt(m: Buffer, p: nat): (after: Buffer)
    requires p < |m|
    ensures |after| == |m| && after[0] == m[0]
    decreases p
  {
    if p > 0 && IsEol(m[p - 1]) then StripAt(m[p := '\0'], p - 1) else m
  }

  // ---------- what one line says ----------

  // A section: the name, and what comes after it from cp on.
  function AfterName(m: Buffer, name: string, cp: nat): (r: Meaning)
    requires cp < |m|
    ensures r.Section? || r.Failure?
  {
    var final := m[cp] == '*';
    if EndChar(m[Blanks(m, if final then cp + 1 else cp)]) then Section(name, final) else Failure(PROF_SECTION_SYNTAX)
  }

  // Blanks before q are overwritten with null characters, but not the first character of the name.
  function TrimBack(m: Buffer, cp: nat, q: nat): (r: (Buffer, nat))
    requires cp <= q < |m|
    ensures |r.0| == |m| && cp <= r.1 <= q
    decreases q
  {
    if q > cp + 1 && IsSpace(m[q - 1]) then TrimBack(m[q - 1 := '\0'], cp, q - 1) else (m, q)
  }

  function SectionIn(m: Buffer, i: nat): (r: Meaning)
    requires i < |m|
    ensures r.Section? || r.Failure? || r.Overrun?
  {
    var cp := Blanks(m, i);
    match StrChr(m, cp, ']')
    case None => Failure(PROF_SECTION_SYNTAX)
    case Some(p) =>
      if m[cp] == '"' then
        match Written(m, cp + 1)
        case None => Overrun
        case Some(after) => AfterName(after, CString(after, cp + 1), p + 1)
      else
        var (after, q) := TrimBack(m[p := '\0'], cp, p);
        if after[cp] == '\0' then Failure(PROF_SECTION_SYNTAX) else AfterName(after, CString(after, cp), q)
  }

  // The name of a relation, or of a section inside another one, and the buffer with the null after it.
  datatype Name = BadName | NameOverrun | NameAt(m: Buffer, tag: nat)

  function NameIn(m: Buffer, tag: nat): (r: Name)
    requires tag < |m|
    ensures r.NameAt? ==> |r.m| == |m| && r.tag < |m|
  {
    if m[tag] == '"' then
      match Written(m, tag + 1)
      case None => NameOverrun
      case Some(after) => NameAt(after, tag + 1)
    else
      var p := Nonblanks(m, tag);
      if m[p] == '\0' then NameAt(m, tag)
      else
        var after: Buffer := m[p := '\0'];
        if after[Blanks(after, p + 1)] == '\0' then NameAt(after, tag) else BadName
  }

  // A star in the name ends it and marks it as final; then name and value are what is at tag and v.
  function Pair(m: Buffer, tag: nat, v: nat): Meaning
    requires tag < |m| && v < |m|
  {
    match StrChr(m, tag, '*')
    case None => Relation(CString(m, tag), CString(m, v), false)
    case Some(p) => var after: Buffer := m[p := '\0']; Relation(CString(after, tag), CString(after, v), true)
  }

  function Opened(m: Buffer, tag: nat, brace: bool): Meaning
    requires tag < |m|
  {
    match StrChr(m, tag, '*')
    case None => Open(CString(m, tag), false, brace)
    case Some(p) => var after: Buffer := m[p := '\0']; Open(CString(after, tag), true, brace)
  }

  function ValueIn(m: Buffer, tag: nat, v: nat): (r: Meaning)
    requires tag < |m| && v < |m|
    ensures r.Relation? || r.Open? || r.Failure? || r.Overrun?
  {
    if m[v] == '"' then
      match Written(m, v + 1)
      case None => Overrun
      case Some(after) => Pair(after, tag, v + 1)
    else if EndChar(m[v]) then Opened(m, tag, false)
    else if m[v] == '{' then
      if EndChar(m[Blanks(m, v + 1)]) then Opened(m, tag, true) else Failure(PROF_RELATION_SYNTAX)
    else
      var cp := Nonblanks(m, v);
      if EndChar(m[Blanks(m, cp)]) then Pair(m[cp := '\0'], tag, v) else Failure(PROF_RELATION_SYNTAX)
  }

  function RelationIn(m: Buffer, i: nat): (r: Meaning)
    requires i < |m|
    ensures r.Relation? || r.Open? || r.Failure? || r.Overrun?
  {
    match StrChr(m, i, '=')
    case None => Failure(PROF_RELATION_SYNTAX)
    case Some(e) =>
      if e == i then Failure(PROF_RELATION_SYNTAX)
      else match NameIn(m[e := '\0'], i)
        case BadName => Failure(PROF_RELATION_SYNTAX)
        case NameOverrun => Overrun
        case NameAt(after, tag) => ValueIn(after, tag, Blanks(after, e + 1))
  }

  function StrippedLine(m: Buffer): (after: Buffer)
    ensures |after| == |m| && after[0] == m[0]
  {
    StripAt(m, StrEnd(m, 0))
  }

  // The first character that counts.
  function FirstChar(m: Buffer): char
  {
    var after := StrippedLine(m);
    after[Blanks(after, 0)]
  }

  // What the line in a buffer says.
  function Lexed(m: Buffer): (r: Meaning)
    ensures r.Section? ==> FirstChar(m) == '['
    ensures FirstChar(m) == '[' ==> r.Section? || r.Failure? || r.Overrun?
    ensures m[0] == '[' ==> r.Section? || r.Failure? || r.Overrun?
  {
    var after := StrippedLine(m);
    var cp := Blanks(after, 0);
    if EndChar(after[cp]) then Nothing
    else if after[cp] == '[' then SectionIn(after, cp + 1)
    else if after[cp] == '}' then Close(after[cp + 1] == '*')
    else RelationIn(after, cp)
  }

  lemma CodesAreNotZero(m: Buffer)
    ensures Lexed(m).Failure? ==> Lexed(m).code != 0
  {
    hide Scan, Blanks, Nonblanks, StrChr, TrimBack, CString;
  }

  // ---------- the same in place ----------

  // skip_over_blanks
  method SkipBlanks(buf: array<char>, i: nat) returns (cp: nat)
    requires IsBuffer(buf[..]) && i < buf.Length
    ensures cp == Blanks(buf[..], i)
  {
    cp := i;
    while buf[cp] != '\0' && IsSpace(buf[cp])
      invariant i <= cp < buf.Length && Blanks(buf[..], cp) == Blanks(buf[..], i)
      decreases buf.Length - cp
    {
      cp := cp + 1;
    }
  }

  // skip_over_nonblanks
  method SkipNonblanks(buf: array<char>, i: nat) returns (cp: nat)
    requires IsBuffer(buf[..]) && i < buf.Length
    ensures cp == Nonblanks(buf[..], i)
  {
    cp := i;
    while !EndChar(buf[cp]) && !IsSpace(buf[cp])
      invariant i <= cp < buf.Length && Nonblanks(buf[..], cp) == Nonblanks(buf[..], i)
      decreases buf.Length - cp
    {
      cp := cp + 1;
    }
  }

  lemma SetIsUpdate(before: seq<char>, after: seq<char>, p: nat)
    requires p < |before| == |after| && after[p] == '\0' && forall k :: 0 <= k < |before| && k != p ==> after[k] == before[k]
    ensures after == before[p := '\0']
  {
  }

  method StripLine(buf: array<char>)
    requires IsBuffer(buf[..])
    modifies buf
    ensures buf[..] == StrippedLine(old(buf[..]))
  {
    ghost var before := buf[..];
    var p := StrEnd(buf[..], 0);
    while p > 0 && IsEol(buf[p - 1])
      invariant 0 <= p < buf.Length && IsBuffer(buf[..]) && StripAt(buf[..], p) == StrippedLine(before)
    {
      ghost var was := buf[..];
      buf[p] := '\0';
      SetIsUpdate(was, buf[..], p);
      p := p - 1;
    }
  }

  // What has been written up to here, and what is still to be read.
  ghost predicate Scanned(m: Buffer, str: nat, from: nat, done: string)
    requires str < |m|
  {
    && from < |m| && str + |done| <= from && Scan(m, str).Some? && Scan(m, from).Some?
    && done + Scan(m, from).value == Scan(m, str).value
  }

  lemma ScannedStep(m: Buffer, str: nat, from: nat, done: string)
    requires str < |m| && Scanned(m, str, from, done) && m[from] != '\0' && m[from] != '"'
    ensures m[from] != '\\' ==> Scanned(m, str, from + 1, done + [m[from]])
    ensures m[from] == '\\' ==> from + 1 < |m| && Scanned(m, str, from + 2, done + [Escape(m[from + 1])])
  {
    var c := if m[from] == '\\' then Escape(m[from + 1]) else m[from];
    var next := if m[from] == '\\' then from + 2 else from + 1;
    assert done + ([c] + Scan(m, next).value) == done + [c] + Scan(m, next).value;
  }

  lemma ScanBegins(m: Buffer, str: nat)
    requires str < |m| && Scan(m, str).Some?
    ensures Scanned(m, str, str, "")
  {
    assert "" + Scan(m, str).value == Scan(m, str).value;
  }

  lemma ScannedIn(m: Buffer, str: nat, from: nat, done: string)
    requires str < |m| && Scanned(m, str, from, done)
    ensures from < |m| && str + |done| <= from
  {
  }

  lemma ScannedEnd(m: Buffer, str: nat, from: nat, done: string)
    requires str < |m| && Scanned(m, str, from, done) && (m[from] == '\0' || m[from] == '"')
    ensures Scan(m, str) == Some(done)
  {
    assert done + "" == done;
  }

  lemma WrittenIs(before: Buffer, after: seq<char>, str: nat, content: string)
    requires str + |content| < |before| == |after| && Scan(before, str) == Some(content)
    requires after[str..str + |content|] == content && after[str + |content|] == '\0'
    requires forall k :: 0 <= k < |before| && !(str <= k <= str + |content|) ==> after[k] == before[k]
    ensures Some(after) == Written(before, str)
  {
    var end := str + |content|;
    assert after == after[..str] + after[str..end] + [after[end]] + after[end + 1..];
    assert after[..str] == before[..str] && after[end + 1..] == before[end + 1..];
  }

  // In place: the content is written over the quoted string, and a null character after it.
  method ParseQuotedString(buf: array<char>, str: nat)
    requires IsBuffer(buf[..]) && str < buf.Length && Scan(buf[..], str).Some?
    modifies buf
    ensures Some(buf[..]) == Written(old(buf[..]), str)
  {
    hide Scan, Scanned;
    ghost var before := buf[..];
    var to, from := str, str;
    ScanBegins(before, str);
    assert buf[str..to] == "";
    ScannedIn(before, str, from, buf[str..to]);
    while buf[from] != '\0' && buf[from] != '"'
      invariant str <= to <= from < buf.Length && IsBuffer(buf[..])
      invariant forall k :: 0 <= k < buf.Length && !(str <= k < to) ==> buf[k] == before[k]
      invariant Scanned(before, str, from, buf[str..to])
      decreases buf.Length - from
    {
      ghost var done := buf[str..to];
      ScannedStep(before, str, from, done);
      var c := buf[from];
      from := from + 1;
      if c == '\\' {
        c := Escape(buf[from]);
        from := from + 1;
      }
      ScannedIn(before, str, from, done + [c]);
      buf[to] := c;
      to := to + 1;
      assert buf[str..to] == done + [c];
    }
    ScannedEnd(before, str, from, buf[str..to]);
    ghost var content := buf[str..to];
    buf[to] := '\0';
    WrittenIs(before, buf[..], str, content);
  }

  // Ends the name of a section at the bracket at p, and takes off the blanks before it; p is left
  // where nothing more is taken off.
  method TrimName(buf: array<char>, cp: nat, bracket: nat) returns (p: int)
    requires IsBuffer(buf[..]) && cp <= bracket < buf.Length - 1
    modifies buf
    ensures -1 <= p < buf.Length - 1 && (buf[..], p + 1) == TrimBack(old(buf[..])[bracket := '\0'], cp, bracket)
  {
    ghost var goal := TrimBack(buf[..][bracket := '\0'], cp, bracket);
    ghost var was := buf[..];
    buf[bracket] := '\0';
    SetIsUpdate(was, buf[..], bracket);
    p := bracket - 1;
    while p > cp && IsSpace(buf[p])
      invariant cp - 1 <= p < buf.Length - 1 && IsBuffer(buf[..]) && TrimBack(buf[..], cp, p + 1) == goal
      decreases p
    {
      was := buf[..];
      buf[p] := '\0';
      SetIsUpdate(was, buf[..], p);
      p := p - 1;
    }
  }

  // A line that starts with a bracket, from the character after it on.
  method ReadSection(buf: array<char>, i: nat) returns (r: Meaning)
    requires IsBuffer(buf[..]) && i < buf.Length && !SectionIn(buf[..], i).Overrun?
    modifies buf
    ensures r == SectionIn(old(buf[..]), i)
  {
    hide Scan, TrimBack, Blanks, StrChr, CString;
    var cp := SkipBlanks(buf, i);
    var bracket := StrChr(buf[..], cp, ']');
    if bracket.None? {
      return Failure(PROF_SECTION_SYNTAX);
    }
    var p: int := bracket.value;
    if buf[cp] == '"' {
      cp := cp + 1;
      ParseQuotedString(buf, cp);
    } else {
      p := TrimName(buf, cp, bracket.value);
      if buf[cp] == '\0' {
        return Failure(PROF_SECTION_SYNTAX);
      }
    }
    var name := CString(buf[..], cp);
    cp := p + 1;
    var final := buf[cp] == '*';
    if final {
      cp := cp + 1;
    }
    cp := SkipBlanks(buf, cp);
    return if EndChar(buf[cp]) then Section(name, final) else Failure(PROF_SECTION_SYNTAX);
  }

  // The part of a relation line before the equals sign, which has been overwritten.
  method ReadName(buf: array<char>, tag: nat) returns (ok: bool, name: nat)
    requires IsBuffer(buf[..]) && tag < buf.Length && !NameIn(buf[..], tag).NameOverrun?
    modifies buf
    ensures IsBuffer(buf[..]) && (ok ==> NameIn(old(buf[..]), tag) == NameAt(buf[..], name))
    ensures !ok ==> NameIn(old(buf[..]), tag) == BadName
  {
    hide Scan, Nonblanks;
    if buf[tag] == '"' {
      ParseQuotedString(buf, tag + 1);
      return true, tag + 1;
    }
    var p := SkipNonblanks(buf, tag);
    if buf[p] != '\0' {
      ghost var was := buf[..];
      buf[p] := '\0';
      SetIsUpdate(was, buf[..], p);
      p := p + 1;
    }
    p := SkipBlanks(buf, p);
    return buf[p] == '\0', tag;
  }

  // Cuts the name at a star.
  method CutStar(buf: array<char>, tag: nat) returns (final: bool)
    requires IsBuffer(buf[..]) && tag < buf.Length
    modifies buf
    ensures match StrChr(old(buf[..]), tag, '*')
            case None => !final && buf[..] == old(buf[..])
            case Some(p) => final && buf[..] == old(buf[..])[p := '\0']
  {
    var star := StrChr(buf[..], tag, '*');
    final := star.Some?;
    if final {
      ghost var was := buf[..];
      buf[star.value] := '\0';
      SetIsUpdate(was, buf[..], star.value);
    }
  }

  // The value, or the brace, from v on.
  method ReadValue(buf: array<char>, tag: nat, v: nat) returns (r: Meaning)
    requires IsBuffer(buf[..]) && tag < buf.Length && v < buf.Length && !ValueIn(buf[..], tag, v).Overrun?
    modifies buf
    ensures r == ValueIn(old(buf[..]), tag, v)
  {
    hide Scan, Blanks, Nonblanks, StrChr, CString;
    var value, opens, brace := v, false, false;
    if buf[v] == '"' {
      value := v + 1;
      ParseQuotedString(buf, value);
    } else if EndChar(buf[v]) {
      opens := true;
    } else if buf[v] == '{' {
      var cp := SkipBlanks(buf, v + 1);
      if !EndChar(buf[cp]) {
        return Failure(PROF_RELATION_SYNTAX);
      }
      opens, brace := true, true;
    } else {
      var cp := SkipNonblanks(buf, v);
      var p := SkipBlanks(buf, cp);
      var ch := buf[p];
      ghost var was := buf[..];
      buf[cp] := '\0';
      SetIsUpdate(was, buf[..], cp);
      if !EndChar(ch) {
        return Failure(PROF_RELATION_SYNTAX);
      }
    }
    var final := CutStar(buf, tag);
    if opens {
      return Open(CString(buf[..], tag), final, brace);
    }
    return Relation(CString(buf[..], tag), CString(buf[..], value), final);
  }

  // Any other line.
  method ReadRelation(buf: array<char>, tag: nat) returns (r: Meaning)
    requires IsBuffer(buf[..]) && tag < buf.Length && !RelationIn(buf[..], tag).Overrun?
    modifies buf
    ensures r == RelationIn(old(buf[..]), tag)
  {
    hide Blanks, StrChr, NameIn, ValueIn;
    var e := StrChr(buf[..], tag, '=');
    if e.None? || e.value == tag {
      return Failure(PROF_RELATION_SYNTAX);
    }
    ghost var was := buf[..];
    buf[e.value] := '\0';
    SetIsUpdate(was, buf[..], e.value);
    var ok, name := ReadName(buf, tag);
    if !ok {
      return Failure(PROF_RELATION_SYNTAX);
    }
    var v := SkipBlanks(buf, e.value + 1);
    r := ReadValue(buf, name, v);
  }

  // A whole line, once its line ends have been taken off.
  method ReadStripped(buf: array<char>, ghost was: Buffer, cp: nat) returns (r: Meaning)
    requires buf[..] == StrippedLine(was) && cp == Blanks(buf[..], 0) && !Lexed(was).Overrun?
    modifies buf
    ensures r == Lexed(was)
  {
    hide Blanks, SectionIn, RelationIn;
    if EndChar(buf[cp]) {
      return Nothing;
    }
    if buf[cp] == '[' {
      r := ReadSection(buf, cp + 1);
    } else if buf[cp] == '}' {
      r := Close(buf[cp + 1] == '*');
    } else {
      r := ReadRelation(buf, cp);
    }
  }
}
