/** What is read from a buffer is what its text says, unless a backslash at the end of a quoted string reaches beyond it. */
module ProfileReading {
  import opened Wrappers
  import opened ProfileText
  import opened ProfileLine

  // The string at i.
  ghost predicate TextAt(m: Buffer, i: nat, t: string)
  {
    i + |t| < |m| && m[i..i + |t|] == t && m[i + |t|] == '\0' && '\0' !in t
  }

  lemma TextFirst(m: Buffer, i: nat, t: string)
    requires TextAt(m, i, t)
    ensures if t == "" then m[i] == '\0' else m[i] == t[0] != '\0' && TextAt(m, i + 1, t[1..])
  {
    if t != "" {
      assert m[i..i + |t|][0] == m[i] && m[i..i + |t|][1..] == m[i + 1..i + |t|];
    }
  }

  lemma TextBound(m: Buffer, i: nat, t: string)
    requires TextAt(m, i, t)
    ensures i + |t| < |m|
  {
  }

  lemma TextDrop(m: Buffer, i: nat, t: string, n: nat)
    requires TextAt(m, i, t) && n <= |t|
    ensures TextAt(m, i + n, t[n..])
  {
    assert m[i..i + |t|][n..] == m[i + n..i + |t|];
  }

  // A null character in the middle makes two strings.
  lemma TextCut(m: Buffer, i: nat, t: string, n: nat)
    requires TextAt(m, i, t) && n < |t|
    ensures IsBuffer(m[i + n := '\0']) && TextAt(m[i + n := '\0'], i, t[..n]) && TextAt(m[i + n := '\0'], i + n + 1, t[n + 1..])
  {
    var cut := m[i + n := '\0'];
    assert cut[i..i + n] == m[i..i + |t|][..n] && cut[i + n + 1..i + |t|] == m[i..i + |t|][n + 1..];
  }

  // A null character at the end of a string, or anywhere else, leaves it.
  lemma TextKept(m: Buffer, i: nat, t: string, p: nat)
    requires TextAt(m, i, t) && p < |m| && !(i <= p < i + |t|)
    ensures IsBuffer(m[p := '\0']) && TextAt(m[p := '\0'], i, t)
  {
    assert m[p := '\0'][i..i + |t|] == m[i..i + |t|];
  }

  lemma {:induction false} BlanksText(m: Buffer, i: nat, t: string)
    requires TextAt(m, i, t)
    ensures var r := SkipOverBlanks(t); Blanks(m, i) == i + |t| - |r| && TextAt(m, i + |t| - |r|, r)
    decreases |t|
  {
    TextFirst(m, i, t);
    if t != "" && IsSpace(t[0]) {
      BlanksText(m, i + 1, t[1..]);
    }
  }

  lemma {:induction false} NonblanksText(m: Buffer, i: nat, t: string)
    requires TextAt(m, i, t)
    ensures Nonblanks(m, i) == i + NonBlanks(t)
    decreases |t|
  {
    TextFirst(m, i, t);
    if !EndOrComment(t) && !IsSpace(t[0]) {
      NonblanksText(m, i + 1, t[1..]);
    }
  }

  lemma {:induction false} CStringText(m: Buffer, i: nat, t: string)
    requires TextAt(m, i, t)
    ensures StrEnd(m, i) == i + |t| && CString(m, i) == t
    decreases |t|
  {
    TextFirst(m, i, t);
    if t != "" {
      CStringText(m, i + 1, t[1..]);
    }
  }

  lemma {:induction false} StrChrText(m: Buffer, i: nat, t: string, c: char)
    requires TextAt(m, i, t) && c != '\0'
    ensures StrChr(m, i, c) == match Find(t, c) case None => None case Some(k) => Some(i + k)
    decreases |t|
  {
    TextFirst(m, i, t);
    if t != "" && t[0] != c {
      StrChrText(m, i + 1, t[1..], c);
    }
  }

  lemma EscapeNotNull(c: char)
    ensures Escape(c) == '\0' <==> c == '\0'
  {
  }

  lemma {:induction false} UnquotedNotNull(s: string)
    requires '\0' !in s
    ensures '\0' !in Unquoted(s)
  {
    if s != "" && s[0] != '"' {
      if s[0] != '\\' {
        UnquotedNotNull(s[1..]);
      } else if |s| > 1 {
        EscapeNotNull(s[1]);
        UnquotedNotNull(s[2..]);
      }
    }
  }

  lemma {:induction false} ScanText(m: Buffer, i: nat, t: string)
    requires TextAt(m, i, t) && !Dangling(t)
    ensures Scan(m, i) == Some(Unquoted(t))
    decreases |t|
  {
    TextFirst(m, i, t);
    if t != "" && t[0] != '"' {
      if t[0] == '\\' {
        TextFirst(m, i + 1, t[1..]);
        ScanText(m, i + 2, t[2..]);
      } else {
        ScanText(m, i + 1, t[1..]);
      }
    }
  }

  lemma WrittenAt(m: Buffer, i: nat, content: string)
    requires i < |m| && Scan(m, i) == Some(content)
    ensures var after := Written(m, i).value;
            && Written(m, i).Some? && |after| == |m| && after[i..i + |content|] == content && after[i + |content|] == '\0'
            && forall k :: 0 <= k < |m| && !(i <= k <= i + |content|) ==> after[k] == m[k]
  {
  }

  // A quoted string is replaced by its content; the strings after it stay.
  lemma WrittenText(m: Buffer, i: nat, t: string)
    requires TextAt(m, i, t) && !Dangling(t)
    ensures Written(m, i).Some? && TextAt(Written(m, i).value, i, Unquoted(t))
    ensures forall k :: 0 <= k < |m| && !(i <= k <= i + |Unquoted(t)|) ==> Written(m, i).value[k] == m[k]
  {
    hide Unquoted, Dangling, Written, Scan;
    ScanText(m, i, t);
    UnquotedNotNull(t);
    WrittenAt(m, i, Unquoted(t));
  }

  lemma SameText(m: Buffer, after: Buffer, i: nat, t: string)
    requires TextAt(m, i, t) && |after| == |m| && forall k :: i <= k < |m| ==> after[k] == m[k]
    ensures TextAt(after, i, t)
  {
    assert after[i..i + |t|] == m[i..i + |t|];
  }

  // ---------- sections ----------

  lemma {:induction false} TrimText(m: Buffer, cp: nat, t: string)
    requires TextAt(m, cp, t)
    ensures var r := TrimBack(m, cp, cp + |t|); r.1 == cp + |TrimmedEnd(t)| && TextAt(r.0, cp, TrimmedEnd(t))
    decreases |t|
  {
    var q, n := cp + |t|, |t| - 1;
    if |t| > 1 {
      assert t[n] == m[cp..q][n] == m[q - 1];
      if IsSpace(t[n]) {
        TextCut(m, cp, t, n);
        TrimText(m[q - 1 := '\0'], cp, t[..n]);
      }
    }
  }

  lemma RestText(m: Buffer, name: string, cp: nat, rest: string)
    requires TextAt(m, cp, rest)
    ensures AfterName(m, name, cp) == WithRest(name, rest)
  {
    TextFirst(m, cp, rest);
    var final := rest != "" && rest[0] == '*';
    var after := if final then rest[1..] else rest;
    BlanksText(m, if final then cp + 1 else cp, after);
    TextFirst(m, Blanks(m, if final then cp + 1 else cp), SkipOverBlanks(after));
  }

  // What is left of the line after a quoted name, which has been written over it.
  lemma RestAfterQuotes(m: Buffer, cp: nat, s: string, q: nat)
    requires TextAt(m, cp, s) && q < |s| && s[0] == '"' && !Dangling(s[1..])
    ensures var content := Unquoted(s[1..]);
            && Written(m, cp + 1).Some? && TextAt(Written(m, cp + 1).value, cp + 1, content)
            && TextAt(Written(m, cp + 1).value, cp + q + 1, if q <= |content| then content[q..] else s[1..][q..])
  {
    hide Unquoted, Dangling, Written, Scan;
    TextFirst(m, cp, s);
    WrittenText(m, cp + 1, s[1..]);
    var content, after := Unquoted(s[1..]), Written(m, cp + 1).value;
    if q <= |content| {
      TextDrop(after, cp + 1, content, q);
    } else {
      TextDrop(m, cp + 1, s[1..], q);
      SameText(m, after, cp + q + 1, s[1..][q..]);
    }
  }

  lemma QuotedSection(m: Buffer, cp: nat, s: string, q: nat)
    requires TextAt(m, cp, s) && q < |s| && s[0] == '"' && !Dangling(s[1..])
    ensures cp + q + 1 < |m| && Written(m, cp + 1).Some?
    ensures var content, after := Unquoted(s[1..]), Written(m, cp + 1).value;
            && CString(after, cp + 1) == content
            && AfterName(after, content, cp + q + 1) == WithRest(content, if q <= |content| then content[q..] else s[1..][q..])
  {
    hide Unquoted, Dangling, Written, Scan, CString, WithRest, AfterName, TextAt;
    TextBound(m, cp, s);
    RestAfterQuotes(m, cp, s, q);
    var content, after := Unquoted(s[1..]), Written(m, cp + 1).value;
    CStringText(after, cp + 1, content);
    RestText(after, content, cp + q + 1, if q <= |content| then content[q..] else s[1..][q..]);
  }

  lemma SectionByBracket(s: string)
    ensures LexSection(s)
            == match Find(s, ']')
               case None => Failure(PROF_SECTION_SYNTAX)
               case Some(q) =>
                 var content := Unquoted(s[1..]);
                 if s[0] == '"' then WithRest(content, if q <= |content| then content[q..] else s[1..][q..])
                 else if q == 0 then Failure(PROF_SECTION_SYNTAX)
                 else WithRest(TrimmedEnd(s[..q]), "")
  {
    hide Unquoted, TrimmedEnd, WithRest;
  }

  lemma SectionText(m: Buffer, i: nat, t: string)
    requires TextAt(m, i, t)
    requires var s := SkipOverBlanks(t); s != "" && s[0] == '"' ==> !Dangling(s[1..])
    ensures SectionIn(m, i) == LexSection(SkipOverBlanks(t))
  {
    hide Unquoted, Dangling, Written, Scan, Blanks, SkipOverBlanks, StrChr, CString, WithRest, AfterName, TrimBack, TrimmedEnd, TextAt;
    hide LexSection, Find;
    BlanksText(m, i, t);
    var s, cp := SkipOverBlanks(t), Blanks(m, i);
    StrChrText(m, cp, s, ']');
    TextFirst(m, cp, s);
    SectionByBracket(s);
    match Find(s, ']')
    case None =>
    case Some(q) =>
      if s[0] == '"' {
        QuotedSection(m, cp, s, q);
      } else {
        UnquotedSection(m, cp, s, q);
      }
  }

  // Without quotes the walk back over the blanks ends before a null character, so nothing of the line is left.
  lemma UnquotedSection(m: Buffer, cp: nat, s: string, q: nat)
    requires TextAt(m, cp, s) && Find(s, ']') == Some(q) && s[0] != '"'
    ensures var (after, end) := TrimBack(m[cp + q := '\0'], cp, cp + q);
            if q == 0 then after[cp] == '\0'
            else after[cp] != '\0' && CString(after, cp) == TrimmedEnd(s[..q])
                 && AfterName(after, TrimmedEnd(s[..q]), end) == WithRest(TrimmedEnd(s[..q]), "")
  {
    hide Find, Blanks, CString, AfterName, WithRest, TrimmedEnd, TrimBack;
    TextCut(m, cp, s, q);
    TrimText(m[cp + q := '\0'], cp, s[..q]);
    var (after, end) := TrimBack(m[cp + q := '\0'], cp, cp + q);
    var name := TrimmedEnd(s[..q]);
    TrimmedNotEmpty(s[..q]);
    TextFirst(after, cp, name);
    CStringText(after, cp, name);
    TextDrop(after, cp, name, |name|);
    RestText(after, name, end, "");
  }

  lemma {:induction false} TrimmedNotEmpty(s: string)
    ensures TrimmedEnd(s) == "" <==> s == ""
  {
    if |s| > 1 && IsSpace(s[|s| - 1]) {
      TrimmedNotEmpty(s[..|s| - 1]);
    }
  }

  // ---------- relations ----------

  // The buffer from which the name has been read: the name is there, and everything from `end` on as before.
  ghost predicate NameRead(m: Buffer, tag: nat, end: nat, r: Name, name: string)
  {
    && r.NameAt? && TextAt(r.m, r.tag, name) && |r.m| == |m| && r.tag + |name| <= end
    && forall k :: end <= k < |m| ==> r.m[k] == m[k]
  }

  lemma QuotedNameText(m: Buffer, tag: nat, before: string)
    requires TextAt(m, tag, before) && before != "" && before[0] == '"' && !Dangling(before[1..])
    ensures NameRead(m, tag, tag + |before|, NameIn(m, tag), Unquoted(before[1..]))
  {
    hide Unquoted, Dangling, Written, Scan;
    TextFirst(m, tag, before);
    WrittenText(m, tag + 1, before[1..]);
  }

  // Blanks may follow the name, but nothing else.
  lemma BlanksFollow(m: Buffer, tag: nat, before: string, n: nat)
    requires TextAt(m, tag, before) && n == NonBlanks(before) < |before|
    ensures var cut := m[tag + n := '\0'];
            && IsBuffer(cut) && TextAt(cut, tag, before[..n]) && tag + n + 1 < |m|
            && (cut[Blanks(cut, tag + n + 1)] == '\0' <==> SkipOverBlanks(before[n + 1..]) == "")
  {
    hide Blanks, NonBlanks, SkipOverBlanks, TextAt;
    TextBound(m, tag, before);
    TextCut(m, tag, before, n);
    var cut: Buffer, more := m[tag + n := '\0'], before[n + 1..];
    BlanksText(cut, tag + n + 1, more);
    TextFirst(cut, Blanks(cut, tag + n + 1), SkipOverBlanks(more));
  }

  lemma PlainNameText(m: Buffer, tag: nat, before: string)
    requires TextAt(m, tag, before) && before != "" && before[0] != '"'
    ensures match Tag(before)
            case None => NameIn(m, tag).BadName?
            case Some(name) => NameRead(m, tag, tag + |before|, NameIn(m, tag), name)
  {
    hide Blanks, Nonblanks, NonBlanks, SkipOverBlanks, TextAt;
    var n := NonBlanks(before);
    TextFirst(m, tag, before);
    NonblanksText(m, tag, before);
    TextDrop(m, tag, before, n);
    TextFirst(m, tag + n, before[n..]);
    if n < |before| {
      BlanksFollow(m, tag, before, n);
    } else {
      NothingLeft();
      assert before[..n] == before;
    }
  }

  lemma NameText(m: Buffer, tag: nat, before: string)
    requires TextAt(m, tag, before) && before != "" && (before[0] == '"' ==> !Dangling(before[1..]))
    ensures match Tag(before)
            case None => NameIn(m, tag).BadName?
            case Some(name) => NameRead(m, tag, tag + |before|, NameIn(m, tag), name)
  {
    hide NameIn, Unquoted, Dangling, NonBlanks, SkipOverBlanks, TextAt, NameRead;
    if before[0] == '"' {
      QuotedNameText(m, tag, before);
    } else {
      PlainNameText(m, tag, before);
    }
  }

  lemma NothingLeft()
    ensures SkipOverBlanks("") == ""
  {
  }

  lemma PairText(m: Buffer, tag: nat, name: string, v: nat, value: string)
    requires TextAt(m, tag, name) && TextAt(m, v, value) && tag + |name| <= v
    ensures Pair(m, tag, v) == var (cut, final) := CutAtStar(name); Relation(cut, value, final)
  {
    hide Find, StrChr, CString;
    StrChrText(m, tag, name, '*');
    match Find(name, '*')
    case None =>
      CStringText(m, tag, name);
      CStringText(m, v, value);
    case Some(k) =>
      TextCut(m, tag, name, k);
      TextKept(m, v, value, tag + k);
      CStringText(m[tag + k := '\0'], tag, name[..k]);
      CStringText(m[tag + k := '\0'], v, value);
  }

  lemma OpenedText(m: Buffer, tag: nat, name: string, brace: bool)
    requires TextAt(m, tag, name)
    ensures Opened(m, tag, brace) == var (cut, final) := CutAtStar(name); Open(cut, final, brace)
  {
    hide Find, StrChr, CString;
    StrChrText(m, tag, name, '*');
    match Find(name, '*')
    case None => CStringText(m, tag, name);
    case Some(k) =>
      TextCut(m, tag, name, k);
      CStringText(m[tag + k := '\0'], tag, name[..k]);
  }

  lemma EndText(m: Buffer, i: nat, t: string)
    requires TextAt(m, i, t)
    ensures EndChar(m[Blanks(m, i)]) <==> EndOrComment(SkipOverBlanks(t))
  {
    BlanksText(m, i, t);
    TextFirst(m, Blanks(m, i), SkipOverBlanks(t));
  }

  lemma ValueText(m: Buffer, tag: nat, name: string, v: nat, value: string)
    requires TextAt(m, tag, name) && TextAt(m, v, value) && tag + |name| < v
    requires value != "" && value[0] == '"' ==> !Dangling(value[1..])
    ensures ValueIn(m, tag, v) == LexValue(name, value)
  {
    hide Unquoted, Dangling, Written, Scan, Blanks, Nonblanks, NonBlanks, SkipOverBlanks, Pair, Opened, CutAtStar;
    TextFirst(m, v, value);
    if value != "" && value[0] == '"' {
      WrittenText(m, v + 1, value[1..]);
      var after := Written(m, v + 1).value;
      assert after[tag..tag + |name|] == m[tag..tag + |name|];
      PairText(after, tag, name, v + 1, Unquoted(value[1..]));
    } else if EndOrComment(value) {
      OpenedText(m, tag, name, false);
    } else if value[0] == '{' {
      OpenedText(m, tag, name, true);
      EndText(m, v + 1, value[1..]);
    } else {
      var n := NonBlanks(value);
      NonblanksText(m, v, value);
      TextDrop(m, v, value, n);
      EndText(m, v + n, value[n..]);
      TextEnded(m, v, value, n);
      TextKept(m, tag, name, v + n);
      PairText(m[v + n := '\0'], tag, name, v, value[..n]);
    }
  }

  lemma TextEnded(m: Buffer, i: nat, t: string, n: nat)
    requires TextAt(m, i, t) && n <= |t|
    ensures IsBuffer(m[i + n := '\0']) && TextAt(m[i + n := '\0'], i, t[..n])
  {
    if n < |t| {
      TextCut(m, i, t, n);
    } else {
      assert t[..n] == t;
      TextKept(m, i, t, i + n);
    }
  }

  lemma AfterEquals(m: Buffer, i: nat, e: nat, name: string, r: Name, more: string)
    requires NameRead(m, i, i + e, r, name) && TextAt(m, i + e + 1, more)
    requires var v := SkipOverBlanks(more); v != "" && v[0] == '"' ==> !Dangling(v[1..])
    ensures r.NameAt? && i + e + 1 < |r.m| && ValueIn(r.m, r.tag, Blanks(r.m, i + e + 1)) == LexValue(name, SkipOverBlanks(more))
  {
    hide ValueIn, LexValue, Blanks, SkipOverBlanks, Dangling;
    SameText(m, r.m, i + e + 1, more);
    BlanksText(r.m, i + e + 1, more);
    ValueText(r.m, r.tag, name, Blanks(r.m, i + e + 1), SkipOverBlanks(more));
  }

  lemma RelationText(m: Buffer, i: nat, t: string)
    requires TextAt(m, i, t)
    requires match Find(t, '=')
             case None => true
             case Some(e) =>
               var v := SkipOverBlanks(t[e + 1..]);
               (e > 0 && t[0] == '"' ==> !Dangling(t[1..e])) && (v != "" && v[0] == '"' ==> !Dangling(v[1..]))
    ensures RelationIn(m, i) == LexRelation(t)
  {
    hide Find, StrChr, Unquoted, Dangling, NameIn, ValueIn, Tag, LexValue, Blanks, SkipOverBlanks, TextAt, NameRead;
    TextFirst(m, i, t);
    StrChrText(m, i, t, '=');
    match Find(t, '=')
    case None =>
    case Some(e) =>
      if e > 0 {
        TextCut(m, i, t, e);
        var cut: Buffer := m[i + e := '\0'];
        assert t[..e][1..] == t[1..e] && t[..e][0] == t[0];
        NameText(cut, i, t[..e]);
        if Tag(t[..e]).Some? {
          AfterEquals(cut, i, e, Tag(t[..e]).value, NameIn(cut, i), t[e + 1..]);
        } else {
          assert NameIn(cut, i).BadName?;
        }
      }
  }

  // ---------- a whole line ----------

  lemma {:induction false} StripText(m: Buffer, line: string)
    requires TextAt(m, 0, line)
    ensures TextAt(StrippedLine(m), 0, Stripped(line))
  {
    CStringText(m, 0, line);
    StripAtText(m, line, |line|);
  }

  // The null characters are written one place late.
  lemma {:induction false} StripAtText(m: Buffer, t: string, p: nat)
    requires TextAt(m, 0, t) && p <= |t| <= p + 1 && (p < |t| ==> IsEol(t[p]))
    ensures TextAt(StripAt(m, p), 0, Stripped(t))
    decreases p
  {
    if p > 0 {
      assert m[..|t|][p - 1] == t[p - 1];
    }
    if p > 0 && IsEol(t[p - 1]) {
      if p == |t| {
        assert m[p := '\0'] == m;
        StripAtText(m, t, p - 1);
      } else {
        TextCut(m, 0, t, p);
        StripAtText(m[p := '\0'], t[..p], p - 1);
      }
    }
  }

  lemma LexedRelation(m: Buffer, line: string)
    requires TextAt(m, 0, line)
    requires var t := SkipOverBlanks(Stripped(line)); !EndOrComment(t) && t[0] != '[' && t[0] != '}'
    ensures TextAt(StrippedLine(m), Blanks(StrippedLine(m), 0), SkipOverBlanks(Stripped(line)))
    ensures Lexed(m) == RelationIn(StrippedLine(m), Blanks(StrippedLine(m), 0))
  {
    hide RelationIn, SectionIn, Blanks, SkipOverBlanks, Stripped, StrippedLine, TextAt;
    StripText(m, line);
    BlanksText(StrippedLine(m), 0, Stripped(line));
    TextFirst(StrippedLine(m), Blanks(StrippedLine(m), 0), SkipOverBlanks(Stripped(line)));
  }

  lemma LexedIsLex(m: Buffer, line: string)
    requires TextAt(m, 0, line) && Tidy(line)
    ensures Lexed(m) == Lex(line)
    ensures var t := SkipOverBlanks(Stripped(line)); FirstChar(m) == if t == "" then '\0' else t[0]
  {
    hide SectionIn, RelationIn, LexSection, LexRelation, Blanks, SkipOverBlanks, Stripped, StrippedLine, Find, Dangling;
    StripText(m, line);
    var after, s := StrippedLine(m), Stripped(line);
    BlanksText(after, 0, s);
    var t, cp := SkipOverBlanks(s), Blanks(after, 0);
    TextFirst(after, cp, t);
    if !EndOrComment(t) {
      if t[0] == '[' {
        SectionText(after, cp + 1, t[1..]);
      } else if t[0] == '}' {
        TextFirst(after, cp + 1, t[1..]);
      } else {
        RelationText(after, cp, t);
      }
    }
  }

  // ---------- a backslash right before the equals sign ----------

  lemma {:induction false} DanglingShorter(q: string)
    requires Dangling(q)
    ensures |Unquoted(q)| < |q|
  {
    if q[0] != '\\' {
      DanglingShorter(q[1..]);
    } else if |q| > 1 {
      DanglingShorter(q[2..]);
    }
  }

  // The equals sign has been overwritten with a null character, and the backslash escapes that: what
  // comes after the equals sign is read as part of the quoted name.
  lemma {:induction false} ScanOver(m: Buffer, i: nat, q: string, r: string)
    requires TextAt(m, i, q) && Dangling(q) && TextAt(m, i + |q| + 1, r) && !Dangling(r)
    ensures Scan(m, i) == Some(Unquoted(q) + "\0" + Unquoted(r))
    decreases |q|
  {
    hide TextAt;
    TextFirst(m, i, q);
    if q[0] != '\\' {
      ScanOver(m, i + 1, q[1..], r);
      OneMore(q[0], Unquoted(q[1..]), Unquoted(r));
    } else if |q| == 1 {
      TextFirst(m, i + 1, q[1..]);
      ScanText(m, i + 2, r);
      JustNull(Unquoted(r));
    } else {
      TextFirst(m, i + 1, q[1..]);
      ScanOver(m, i + 2, q[2..], r);
      OneMore(Escape(q[1]), Unquoted(q[2..]), Unquoted(r));
    }
  }

  lemma OneMore(c: char, a: string, b: string)
    ensures [c] + (a + "\0" + b) == ([c] + a) + "\0" + b
  {
  }

  lemma JustNull(b: string)
    ensures ['\0'] + b == "" + "\0" + b
  {
  }

  // How many characters of the text after the equals sign fit before it.
  function Gap(q: string): int
  {
    |q| - 1 - |Unquoted(q)|
  }

  // What is then left after the equals sign: as much of the content as has been written there.
  function Shifted(q: string, r: string): string
    requires Dangling(q)
  {
    DanglingShorter(q);
    var content := Unquoted(r);
    if |content| > Gap(q) then content[Gap(q) + 1..] else r
  }

  lemma ShiftedText(m: Buffer, i: nat, q: string, r: string)
    requires TextAt(m, i, q) && Dangling(q) && TextAt(m, i + |q| + 1, r) && !Dangling(r)
    ensures Written(m, i).Some? && TextAt(Written(m, i).value, i, Unquoted(q))
    ensures TextAt(Written(m, i).value, i + |q| + 1, Shifted(q, r)) && |Unquoted(q)| < |q|
  {
    hide Dangling, Unquoted, Written, Scan;
    var n, content := Unquoted(q), Unquoted(r);
    DanglingShorter(q);
    ScanOver(m, i, q, r);
    UnquotedNotNull(q);
    UnquotedNotNull(r);
    WrittenAt(m, i, n + "\0" + content);
    var after, all := Written(m, i).value, n + "\0" + content;
    assert after[i..i + |all|][..|n|] == n && after[i..i + |all|][|n|] == '\0';
    if |content| > Gap(q) {
      assert all[|q| + 1..] == content[Gap(q) + 1..] == after[i..i + |all|][|q| + 1..];
    } else {
      SameText(m, after, i + |q| + 1, r);
    }
  }

  // What comes after the equals sign of a relation with a quoted name stays exactly when no backslash
  // comes right before the equals sign, or no more is read over than fits before it.
  lemma TextAfterEquals(m: Buffer, i: nat, q: string, r: string)
    requires TextAt(m, i, "\"" + q + "=" + r) && !Dangling(r)
    ensures var cut := m[i + 1 + |q| := '\0'];
            && IsBuffer(cut) && NameIn(cut, i).NameAt? && i + |q| + 2 < |NameIn(cut, i).m|
            && (CString(NameIn(cut, i).m, i + |q| + 2) == r <==> !Dangling(q) || |Unquoted(r)| <= Gap(q))
  {
    hide Dangling, Unquoted, Written, CString, TextAt, Shifted;
    QuotedAtEquals(m, i, q, r);
    var cut: Buffer := m[i + 1 + |q| := '\0'];
    ShiftedSame(q, r);
    TextFirst(cut, i + |q| + 2, r);
    if Dangling(q) {
      ShiftedText(cut, i + 1, q, r);
      CStringText(Written(cut, i + 1).value, i + |q| + 2, Shifted(q, r));
    } else {
      WrittenText(cut, i + 1, q);
      SameText(cut, Written(cut, i + 1).value, i + |q| + 2, r);
      CStringText(Written(cut, i + 1).value, i + |q| + 2, r);
    }
  }

  lemma ShiftedSame(q: string, r: string)
    ensures Dangling(q) ==> (Shifted(q, r) == r <==> |Unquoted(r)| <= Gap(q))
  {
    hide Unquoted, Dangling;
    if Dangling(q) {
      DanglingShorter(q);
    }
  }

  lemma QuotedAtEquals(m: Buffer, i: nat, q: string, r: string)
    requires TextAt(m, i, "\"" + q + "=" + r)
    ensures i + |q| + 2 < |m|
    ensures var cut := m[i + 1 + |q| := '\0'];
            && IsBuffer(cut) && TextAt(cut, i + 1, q) && TextAt(cut, i + |q| + 2, r) && cut[i] == '"'
  {
    var t := "\"" + q + "=" + r;
    TextCut(m, i, t, 1 + |q|);
    var cut: Buffer := m[i + 1 + |q| := '\0'];
    assert t[..1 + |q|] == "\"" + q && t[|q| + 2..] == r && ("\"" + q)[1..] == q;
    TextFirst(cut, i, "\"" + q);
  }

  // Reading a value leaves the name alone, except for a star.
  lemma ValueKeepsName(m: Buffer, tag: nat, name: string, v: nat)
    requires TextAt(m, tag, name) && tag + |name| < v < |m|
    ensures ValueIn(m, tag, v).Relation? ==> ValueIn(m, tag, v).name == CutAtStar(name).0
  {
    hide Scan, Blanks, Nonblanks, Pair, Opened, CutAtStar, CString, StrChr;
    if m[v] == '"' {
      match Scan(m, v + 1)
      case None =>
      case Some(content) =>
        WrittenAt(m, v + 1, content);
        var after := Written(m, v + 1).value;
        assert after[tag..tag + |name|] == m[tag..tag + |name|];
        PairName(after, tag, name, v + 1);
    } else if !EndChar(m[v]) && m[v] != '{' {
      TextKept(m, tag, name, Nonblanks(m, v));
      PairName(m[Nonblanks(m, v) := '\0'], tag, name, v);
    } else {
      OpenedIsOpen(m, tag);
    }
  }

  lemma OpenedIsOpen(m: Buffer, tag: nat)
    requires tag < |m|
    ensures Opened(m, tag, true).Open? && Opened(m, tag, false).Open?
  {
  }

  lemma PairName(m: Buffer, tag: nat, name: string, v: nat)
    requires TextAt(m, tag, name) && v < |m|
    ensures Pair(m, tag, v).Relation? && Pair(m, tag, v).name == CutAtStar(name).0
  {
    hide Find, StrChr, CString;
    StrChrText(m, tag, name, '*');
    match Find(name, '*')
    case None => CStringText(m, tag, name);
    case Some(k) =>
      TextCut(m, tag, name, k);
      CStringText(m[tag + k := '\0'], tag, name[..k]);
  }

  lemma RelationOverName(m: Buffer, i: nat, q: string, r: string)
    requires TextAt(m, i, "\"" + q + "=" + r) && '=' !in q && Dangling(q) && !Dangling(r)
    ensures RelationIn(m, i).Relation? ==> RelationIn(m, i).name == CutAtStar(Unquoted(q)).0
  {
    hide Dangling, Unquoted, Written, ValueIn, Shifted, StrChr, Find, Blanks, CutAtStar, TextAt;
    var t := "\"" + q + "=" + r;
    StrChrText(m, i, t, '=');
    assert t == ("\"" + q) + ("=" + r);
    FindAfter("\"" + q, '=', "=" + r);
    QuotedAtEquals(m, i, q, r);
    var cut: Buffer := m[i + 1 + |q| := '\0'];
    ShiftedText(cut, i + 1, q, r);
    ValueKeepsName(Written(cut, i + 1).value, i + 1, Unquoted(q), Blanks(Written(cut, i + 1).value, i + |q| + 2));
  }

  // So this is what the line says.
  lemma RelationOver(m: Buffer, i: nat, q: string, r: string)
    requires TextAt(m, i, "\"" + q + "=" + r) && '=' !in q && Dangling(q) && !Dangling(r)
    requires var v := SkipOverBlanks(Shifted(q, r)); v != "" && v[0] == '"' ==> !Dangling(v[1..])
    ensures RelationIn(m, i) == LexValue(Unquoted(q), SkipOverBlanks(Shifted(q, r)))
  {
    hide Dangling, Unquoted, Written, ValueIn, LexValue, Shifted, StrChr, Find, Blanks, SkipOverBlanks, TextAt;
    var t := "\"" + q + "=" + r;
    StrChrText(m, i, t, '=');
    assert t == ("\"" + q) + ("=" + r);
    FindAfter("\"" + q, '=', "=" + r);
    QuotedAtEquals(m, i, q, r);
    var cut: Buffer := m[i + 1 + |q| := '\0'];
    ShiftedText(cut, i + 1, q, r);
    var named := Written(cut, i + 1).value;
    BlanksText(named, i + |q| + 2, Shifted(q, r));
    ValueText(named, i + 1, Unquoted(q), Blanks(named, i + |q| + 2), SkipOverBlanks(Shifted(q, r)));
  }

  lemma EscapedEquals(m: Buffer, q: string, r: string)
    requires TextAt(m, 0, "\"" + q + "=" + r) && '=' !in q && Dangling(q) && !Dangling(r)
    requires Stripped("\"" + q + "=" + r) == "\"" + q + "=" + r
    requires var v := SkipOverBlanks(Shifted(q, r)); v != "" && v[0] == '"' ==> !Dangling(v[1..])
    ensures Lexed(m) == LexValue(Unquoted(q), SkipOverBlanks(Shifted(q, r)))
  {
    hide Dangling, Unquoted, LexValue, Shifted, Stripped, StrippedLine, SkipOverBlanks, RelationIn, TextAt;
    var t := "\"" + q + "=" + r;
    StripText(m, t);
    TextFirst(StrippedLine(m), 0, t);
    RelationOver(StrippedLine(m), 0, q, r);
  }

  // What the text alone says.
  lemma TextualEquals(q: string, r: string)
    requires '=' !in q && Stripped("\"" + q + "=" + r) == "\"" + q + "=" + r
    ensures Lex("\"" + q + "=" + r) == LexValue(Unquoted(q), SkipOverBlanks(r))
  {
    hide Unquoted, LexValue, Stripped, Find;
    var t := "\"" + q + "=" + r;
    assert t == ("\"" + q) + ("=" + r);
    FindAfter("\"" + q, '=', "=" + r);
    assert t[..|q| + 1] == "\"" + q && ("\"" + q)[1..] == q && t[|q| + 2..] == r;
  }

  lemma PlainValue(name: string, value: string)
    requires '*' !in name && value != "" && NonBlanks(value) == |value| && value[0] !in {'"', '{', '#', ';'} && !IsSpace(value[0])
    ensures SkipOverBlanks(value) == value && LexValue(name, value) == Relation(name, value, false)
  {
    assert value[|value|..] == "" && value[..|value|] == value;
  }

  // "ab\=cd gives ab the value d, where the text says cd.
  lemma ValueIsShortened(m: Buffer)
    requires TextAt(m, 0, "\"ab\\=cd")
    ensures Lexed(m) == Relation("ab", "d", false) && Lex("\"ab\\=cd") == Relation("ab", "cd", false)
  {
    hide Lexed, Lex, LexValue, SkipOverBlanks;
    var q, r := "ab\\", "cd";
    assert "\"" + q + "=" + r == "\"ab\\=cd";
    NameIsAb();
    PlainValue("ab", "cd");
    PlainValue("ab", "d");
    EscapedEquals(m, q, r);
    TextualEquals(q, r);
  }

  lemma NameIsAb()
    ensures Unquoted("ab\\") == "ab" && Dangling("ab\\") && !Dangling("cd")
    ensures NonBlanks("cd") == 2 && NonBlanks("d") == 1
    ensures Shifted("ab\\", "cd") == "d" && Stripped("\"ab\\=cd") == "\"ab\\=cd"
  {
    assert "ab\\"[1..] == "b\\" && "b\\"[1..] == "\\" && "cd"[1..] == "d" && "d"[1..] == "";
    assert Unquoted("cd") == "cd";
    assert NonBlanks("cd") == 2 && NonBlanks("d") == 1;
  }

  // "a\=b" = c opens a section named a, where the text is not a relation at all.
  lemma SectionIsOpened(m: Buffer)
    requires TextAt(m, 0, "\"a\\=b\" = c")
    ensures Lexed(m) == Open("a", false, false) && Lex("\"a\\=b\" = c") == Failure(PROF_RELATION_SYNTAX)
  {
    hide Lexed, Lex, LexValue, SkipOverBlanks;
    var q, r := "a\\", "b\" = c";
    assert "\"" + q + "=" + r == "\"a\\=b\" = c";
    NameIsA();
    EscapedEquals(m, q, r);
    TextualEquals(q, r);
  }

  lemma NameIsA()
    ensures Unquoted("a\\") == "a" && Dangling("a\\") && !Dangling("b\" = c")
    ensures Shifted("a\\", "b\" = c") == "" && Stripped("\"a\\=b\" = c") == "\"a\\=b\" = c"
    ensures SkipOverBlanks("") == "" && LexValue("a", "") == Open("a", false, false)
    ensures LexValue("a", SkipOverBlanks("b\" = c")) == Failure(PROF_RELATION_SYNTAX)
  {
    assert "a\\"[1..] == "\\" && "b\" = c"[1..] == "\" = c" && "\" = c"[1..] == " = c" && " = c"[1..] == "= c";
    assert Unquoted("b\" = c") == "b" && "b"[1..] == "";
    assert NonBlanks("b\" = c") == 2 && "b\" = c"[2..] == " = c";
  }
}
