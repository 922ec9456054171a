/** Printing the tree of a configuration file, and reading it back. */
module ProfilePrint {
  import opened Wrappers
  import opened ProfileText
  import opened ProfileLine
  import opened ProfileReading
  import opened ProfileWords
  import opened ProfileTree

  // ---------- printing ----------

  function RelationLines(children: seq<Tree>, level: nat): seq<string>
  {
    if children == [] then []
    else (if children[0].value.Some? then [RelationLine(level, children[0].name, children[0].value.value)] else [])
         + RelationLines(children[1..], level)
  }

  // The lines that are printed for what is in a section: its relations, then its sections.
  function Dump(t: Tree, level: nat): seq<string>
    decreases t, 1
  {
    RelationLines(t.children, level) + SectionLines(t.children, level)
  }

  function SectionLines(children: seq<Tree>, level: nat): seq<string>
    decreases children, 0
  {
    if children == [] then []
    else (if children[0].value.None? then OneSection(children[0], level) else []) + SectionLines(children[1..], level)
  }

  function OneSection(t: Tree, level: nat): seq<string>
    decreases t, 2
  {
    if level == 0 then [SectionLine(t.name, t.final)] + Dump(t, 1) + ["\n"]
    else [OpenLine(level, t.name)] + Dump(t, level + 1) + [CloseLine(level, t.final)]
  }

  // ---------- what has to come back ----------

  function Relations(children: seq<Tree>): seq<Tree>
  {
    if children == [] then []
    else (if children[0].value.Some? then [children[0]] else []) + Relations(children[1..])
  }

  // The tree with the relations of each section before its sections.  Trees with the same normal form
  // have, at every node, the same sequence of relations and the same sequence of sections.
  function Normal(t: Tree): Tree
    decreases t, 1
  {
    t.(children := Relations(t.children) + NormalSections(t.children))
  }

  function NormalSections(children: seq<Tree>): seq<Tree>
    decreases children, 0
  {
    if children == [] then []
    else (if children[0].value.None? then [Normal(children[0])] else []) + NormalSections(children[1..])
  }

  // Names and values are readable, relations have no children, names are in order.
  ghost predicate PrintableTree(t: Tree)
  {
    && Sorted(t.children)
    && forall i :: 0 <= i < |t.children| ==>
         && NameReadable(t.children[i].name)
         && (t.children[i].value.Some? ==> ValueReadable(t.children[i].value.value) && t.children[i].children == [])
         && PrintableTree(t.children[i])
  }

  // The root has sections only, whose names may contain more than the names inside them.
  ghost predicate PrintableRoot(root: Tree)
  {
    && root == EMPTY.(children := root.children) && Sorted(root.children) && SectionsUnique(root.children)
    && forall i :: 0 <= i < |root.children| ==> TopReadable(root.children[i].name) && PrintableTree(root.children[i])
  }

  // No relation below is final.
  ghost predicate NoFinalRelation(t: Tree)
  {
    forall i :: 0 <= i < |t.children| ==>
      (t.children[i].value.Some? ==> !t.children[i].final) && NoFinalRelation(t.children[i])
  }

  lemma {:induction false} RelationsAppend(a: seq<Tree>, b: seq<Tree>)
    ensures Relations(a + b) == Relations(a) + Relations(b)
  {
    if a == [] {
      assert a + b == b;
    } else {
      RelationsAppend(a[1..], b);
      assert (a + b)[0] == a[0] && (a + b)[1..] == a[1..] + b;
      var first := if a[0].value.Some? then [a[0]] else [];
      assert first + (Relations(a[1..]) + Relations(b)) == first + Relations(a[1..]) + Relations(b);
    }
  }

  lemma {:induction false} SectionsAppend(a: seq<Tree>, b: seq<Tree>)
    ensures NormalSections(a + b) == NormalSections(a) + NormalSections(b)
  {
    if a == [] {
      assert a + b == b;
    } else {
      SectionsAppend(a[1..], b);
      assert (a + b)[0] == a[0] && (a + b)[1..] == a[1..] + b;
      var first := if a[0].value.None? then [Normal(a[0])] else [];
      assert first + (NormalSections(a[1..]) + NormalSections(b)) == first + NormalSections(a[1..]) + NormalSections(b);
    }
  }

  lemma OfOne(t: Tree)
    ensures Relations([t]) == if t.value.Some? then [t] else []
    ensures NormalSections([t]) == if t.value.None? then [Normal(t)] else []
  {
    assert [t][1..] == [];
  }

  lemma {:induction false} RelationsIn(children: seq<Tree>, i: nat)
    requires i < |Relations(children)|
    ensures Relations(children)[i] in children && Relations(children)[i].value.Some?
  {
    if children[0].value.Some? {
      if i > 0 {
        RelationsIn(children[1..], i - 1);
      }
    } else {
      RelationsIn(children[1..], i);
    }
  }

  lemma {:induction false} OnlySections(children: seq<Tree>)
    requires forall i :: 0 <= i < |children| ==> children[i].value.None?
    ensures Relations(children) == []
  {
    if children != [] {
      OnlySections(children[1..]);
    }
  }

  lemma {:induction false} OnlyRelations(children: seq<Tree>)
    requires forall i :: 0 <= i < |children| ==> children[i].value.Some?
    ensures NormalSections(children) == [] && Relations(children) == children
  {
    if children != [] {
      OnlyRelations(children[1..]);
    }
  }

  lemma {:induction false} PositionAtEnd(children: seq<Tree>, name: string)
    requires forall i :: 0 <= i < |children| ==> !Greater(children[i].name, name)
    ensures Position(children, name) == |children|
  {
  }

  lemma Take(children: seq<Tree>, k: nat)
    requires k < |children|
    ensures Relations(children[..k + 1]) == Relations(children[..k]) + if children[k].value.Some? then [children[k]] else []
    ensures NormalSections(children[..k + 1])
            == NormalSections(children[..k]) + if children[k].value.None? then [Normal(children[k])] else []
  {
    assert children[..k + 1] == children[..k] + [children[k]];
    RelationsAppend(children[..k], [children[k]]);
    SectionsAppend(children[..k], [children[k]]);
    OfOne(children[k]);
  }

  // A section whose name is not smaller than those of the sections there comes after them.
  lemma SectionAdded(children: seq<Tree>, x: Tree)
    requires Sorted(children) && x.value.None?
    requires forall i :: 0 <= i < |children| && children[i].value.None? ==> !Greater(children[i].name, x.name)
    ensures Relations(Added(children, x)) == Relations(children)
    ensures NormalSections(Added(children, x)) == NormalSections(children) + [Normal(x)]
  {
    hide Relations, NormalSections, Normal, Greater, Sorted;
    var at := Position(children, x.name);
    var before, after := children[..at], children[at..];
    forall i | 0 <= i < |after|
      ensures after[i].value.Some?
    {
      AfterPosition(children, x.name, at + i);
    }
    OnlyRelations(after);
    OfOne(x);
    assert children == before + after && Added(children, x) == before + [x] + after;
    RelationsAppend(before, after);
    RelationsAppend(before + [x], after);
    RelationsAppend(before, [x]);
    SectionsAppend(before, after);
    SectionsAppend(before + [x], after);
    SectionsAppend(before, [x]);
  }

  // ---------- single lines ----------

  ghost predicate InSection(s: State)
  {
    Valid(s) && s.mode == StdLine
  }

  ghost function Current(s: State): Tree
    requires Valid(s)
  {
    At(s.root, s.path)
  }

  // The state with these children in the current section, some lines later.
  ghost function Filled(s: State, children: seq<Tree>, lines: nat): State
    requires Valid(s)
  {
    s.(root := Put(s.root, s.path, Current(s).(children := children)), lineNum := s.lineNum + lines)
  }

  lemma FilledTwice(s: State, a: seq<Tree>, b: seq<Tree>, m: nat, n: nat)
    requires Valid(s) && Valid(Filled(s, a, m))
    ensures Filled(Filled(s, a, m), b, n) == Filled(s, b, m + n)
    ensures Current(Filled(s, a, m)) == Current(s).(children := a)
  {
    PutAt(s.root, s.path, Current(s).(children := a));
    PutPut(s.root, s.path, Current(s).(children := a), Current(s).(children := b));
  }

  lemma FilledSame(s: State)
    requires Valid(s)
    ensures Filled(s, Current(s).children, 0) == s
  {
    PutSame(s.root, s.path);
  }

  // A line alone in a buffer.
  ghost function InBuffer(line: string): Buffer
  {
    line + "\0"
  }

  ghost function InBuffers(lines: seq<string>): (buffers: seq<Buffer>)
    ensures |buffers| == |lines| && forall i :: 0 <= i < |buffers| ==> buffers[i] == InBuffer(lines[i])
  {
    seq(|lines|, i requires 0 <= i < |lines| => InBuffer(lines[i]))
  }

  ghost function StepLine(s: State, line: string): Result
    requires PathIn(s.root, s.path)
  {
    Step(s, InBuffer(line))
  }

  ghost function RunLines(s: State, lines: seq<string>): (r: Result)
    requires Valid(s)
    ensures r.Ok? ==> Valid(r.state)
  {
    Run(s, InBuffers(lines))
  }

  lemma LineKeepsValid(s: State, line: string)
    requires Valid(s) && StepLine(s, line).Ok?
    ensures Valid(StepLine(s, line).state)
  {
    hide Valid, Step;
    StepKeepsValid(s, InBuffer(line));
  }

  lemma LinesAppend(s: State, a: seq<string>, b: seq<string>)
    requires Valid(s) && RunLines(s, a).Ok?
    ensures RunLines(s, a + b) == RunLines(RunLines(s, a).state, b)
  {
    hide Valid, Run;
    assert InBuffers(a + b) == InBuffers(a) + InBuffers(b);
    RunAppend(s, InBuffers(a), InBuffers(b));
  }

  // Lines that say in any buffer what their text says.
  predicate Clean(line: string)
  {
    line != "" && '\0' !in line && Tidy(line)
  }

  lemma CleanInBuffer(m: Buffer, line: string)
    requires TextAt(m, 0, line) && Clean(line)
    ensures Lexed(m) == Lex(line) && m[0] == line[0] != '\0'
    ensures m[Blanks(m, 0)] == if SkipOverBlanks(line) == "" then '\0' else SkipOverBlanks(line)[0]
    ensures FirstChar(m) == if SkipOverBlanks(Stripped(line)) == "" then '\0' else SkipOverBlanks(Stripped(line))[0]
  {
    hide Lexed, Lex, FirstChar, Tidy, Blanks, SkipOverBlanks;
    LexedIsLex(m, line);
    TextFirst(m, 0, line);
    BlanksText(m, 0, line);
    TextFirst(m, Blanks(m, 0), SkipOverBlanks(line));
  }

  lemma LineInBuffer(line: string)
    requires Clean(line)
    ensures TextAt(InBuffer(line), 0, line) && Lexed(InBuffer(line)) == Lex(line) && InBuffer(line)[0] == line[0] != '\0'
  {
    hide Lexed, Lex, Tidy;
    assert InBuffer(line)[0..|line|] == line;
    CleanInBuffer(InBuffer(line), line);
  }

  lemma {:induction false} TabsNoNull(n: nat)
    ensures '\0' !in Tabs(n)
  {
  }

  lemma RelationClean(level: nat, name: string, value: string)
    requires NameReadable(name) && ValueReadable(value)
    ensures Clean(RelationLine(level, name, value)) && Lex(RelationLine(level, name, value)) == Relation(name, value, false)
  {
    hide Lex, Tidy, Word, WordReadable;
    WordKeepsOut(name, '\0');
    WordKeepsOut(value, '\0');
    RelationTidy(level, name, value);
    RelationLexes(level, name, value);
    TabsNoNull(level);
  }

  lemma OpenClean(level: nat, name: string)
    requires NameReadable(name)
    ensures Clean(OpenLine(level, name)) && Lex(OpenLine(level, name)) == Open(name, false, true)
  {
    hide Lex, Tidy, Word, WordReadable;
    WordKeepsOut(name, '\0');
    OpenTidy(level, name);
    OpenLexes(level, name);
    TabsNoNull(level);
  }

  lemma CloseClean(level: nat, final: bool)
    ensures Clean(CloseLine(level, final)) && Lex(CloseLine(level, final)) == Close(final)
    ensures Clean("\n") && Lex("\n") == Nothing
  {
    hide Lex, Tidy;
    CloseTidy(level, final);
    CloseLexes(level, final);
    BlankLexes();
    TabsNoNull(level);
  }

  lemma SectionClean(name: string, final: bool)
    requires TopReadable(name)
    ensures Clean(SectionLine(name, final))
    ensures Lex(SectionLine(name, final)) == Section(name, final && NeedsDoubleQuotes(name)) && SectionLine(name, final)[0] == '['
  {
    hide Lex, Tidy, Word, NeedsDoubleQuotes;
    WordKeepsOut(name, '\0');
    SectionTidy(name, final);
    SectionLexes(name, final);
  }

  lemma StepRelation(s: State, level: nat, name: string, value: string)
    requires InSection(s) && NameReadable(name) && ValueReadable(value)
    ensures StepLine(s, RelationLine(level, name, value))
            == Ok(Filled(s, Added(Current(s).children, Tree(name, Some(value), false, [])), 1))
  {
    hide RelationLine, Valid, Lexed, FirstChar, Lex, Clean;
    RelationClean(level, name, value);
    LineInBuffer(RelationLine(level, name, value));
  }

  lemma StepBlank(s: State)
    requires InSection(s)
    ensures StepLine(s, "\n") == Ok(s.(lineNum := s.lineNum + 1))
  {
    hide Valid, Lexed, FirstChar, Lex, Clean;
    CloseClean(0, false);
    LineInBuffer("\n");
  }

  // An opening line adds an empty section and goes into it.
  ghost function Entered(s: State, name: string): State
    requires Valid(s)
  {
    Filled(s, Added(Current(s).children, Tree(name, None, false, [])), 1)
    .(path := s.path + [Position(Current(s).children, name)], level := s.level + 1)
  }

  lemma StepOpen(s: State, level: nat, name: string)
    requires InSection(s) && NameReadable(name)
    ensures StepLine(s, OpenLine(level, name)) == Ok(Entered(s, name))
  {
    hide OpenLine, Valid, Lexed, FirstChar, Lex, Clean;
    OpenClean(level, name);
    LineInBuffer(OpenLine(level, name));
  }

  lemma StepClose(s: State, level: nat, final: bool)
    requires InSection(s) && s.level > 0
    ensures StepLine(s, CloseLine(level, final))
            == Ok(s.(root := Put(s.root, s.path, Current(s).(final := Current(s).final || final)),
                     path := s.path[..|s.path| - 1], level := s.level - 1, lineNum := s.lineNum + 1))
  {
    hide CloseLine, Lexed, FirstChar, Lex, Clean;
    CloseClean(level, final);
    LineInBuffer(CloseLine(level, final));
  }

  lemma ReplacedAdded(children: seq<Tree>, empty: Tree, full: Tree)
    requires empty.name == full.name
    ensures Added(children, empty)[Position(children, full.name) := full] == Added(children, full)
  {
  }

  // Replacing a child just added is adding another one.
  lemma PutAdded(t: Tree, path: seq<nat>, empty: Tree, full: Tree)
    requires PathIn(t, path) && empty.name == full.name
    ensures var section := At(t, path);
            var root, at := Put(t, path, section.(children := Added(section.children, empty))), Position(section.children, full.name);
            && PathIn(root, path + [at]) && At(root, path + [at]) == empty
            && Put(root, path + [at], full) == Put(t, path, section.(children := Added(section.children, full)))
  {
    hide Added;
    var section := At(t, path);
    var at, outer := Position(section.children, full.name), section.(children := Added(section.children, empty));
    PutAt(t, path, outer);
    Deeper(Put(t, path, outer), path, at, full);
    PutPut(t, path, outer, outer.(children := outer.children[at := full]));
    ReplacedAdded(section.children, empty, full);
  }

  // Replacing the section just entered is filling the section around it with another child.
  lemma ReplaceEntered(s: State, full: Tree)
    requires InSection(s) && Valid(Entered(s, full.name))
    ensures var e := Entered(s, full.name);
            && Current(e) == Tree(full.name, None, false, [])
            && Put(e.root, e.path, full) == Filled(s, Added(Current(s).children, full), 0).root
  {
    hide Put, At, Added, Good, SectionsUnique;
    PutAdded(s.root, s.path, Tree(full.name, None, false, []), full);
  }

  // Closing the section just entered and filled leads back to the section around it.
  lemma CloseEntered(s: State, name: string, inner: seq<Tree>, n: nat, level: nat, final: bool)
    requires InSection(s) && InSection(Entered(s, name)) && InSection(Filled(Entered(s, name), inner, n))
    ensures StepLine(Filled(Entered(s, name), inner, n), CloseLine(level, final))
            == Ok(Filled(s, Added(Current(s).children, Tree(name, None, final, inner)), n + 2))
  {
    hide StepLine, Put, At, CloseLine, Added;
    var e := Entered(s, name);
    var filled := Filled(e, inner, n);
    ReplaceEntered(s, Tree(name, None, final, inner));
    FilledTwice(e, inner, inner, n, 0);
    StepClose(filled, level, final);
    PutPut(e.root, e.path, Tree(name, None, false, inner), Tree(name, None, final, inner));
    assert filled.path[..|filled.path| - 1] == s.path;
  }

  // ---------- reading back what a section contains ----------

  lemma RelationLinesFrom(children: seq<Tree>, k: nat, level: nat)
    requires k < |children|
    ensures RelationLines(children[k..], level)
            == if children[k].value.None? then RelationLines(children[k + 1..], level)
               else [RelationLine(level, children[k].name, children[k].value.value)] + RelationLines(children[k + 1..], level)
  {
    assert children[k..][0] == children[k] && children[k..][1..] == children[k + 1..];
    assert [] + RelationLines(children[k + 1..], level) == RelationLines(children[k + 1..], level);
  }

  lemma NoLines(level: nat)
    ensures RelationLines([], level) == [] && SectionLines([], level) == []
  {
  }

  lemma SectionLinesFrom(children: seq<Tree>, k: nat, level: nat)
    requires k < |children|
    ensures SectionLines(children[k..], level)
            == if children[k].value.Some? then SectionLines(children[k + 1..], level)
               else OneSection(children[k], level) + SectionLines(children[k + 1..], level)
  {
    assert children[k..][0] == children[k] && children[k..][1..] == children[k + 1..];
    assert [] + SectionLines(children[k + 1..], level) == SectionLines(children[k + 1..], level);
  }

  lemma {:induction false} RunRelations(s: State, children: seq<Tree>, k: nat, level: nat)
    requires InSection(s) && k <= |children| && Current(s).children == Relations(children[..k])
    requires Sorted(children)
    requires forall i :: 0 <= i < |children| && children[i].value.Some? ==>
               NameReadable(children[i].name) && ValueReadable(children[i].value.value) && !children[i].final && children[i].children == []
    ensures RunLines(s, RelationLines(children[k..], level)) == Ok(Filled(s, Relations(children), |RelationLines(children[k..], level)|))
    decreases |children| - k
  {
    hide StepLine, RunLines, Valid, Put, At, RelationLines, RelationLine, Relations, NameReadable, ValueReadable, Sorted;
    if k == |children| {
      assert children[..k] == children && children[k..] == [];
      NoLines(level);
      FilledSame(s);
      RunNone(s);
    } else {
      Take(children, k);
      var rest := RelationLines(children[k + 1..], level);
      RelationLinesFrom(children, k, level);
      if children[k].value.Some? {
        NextRelation(s, children, k, level);
        var next := Filled(s, Relations(children[..k + 1]), 1);
        FilledTwice(s, Relations(children[..k + 1]), Relations(children), 1, |rest|);
        RunRelations(next, children, k + 1, level);
        RunOne(s, RelationLine(level, children[k].name, children[k].value.value), rest);
      } else {
        RunRelations(s, children, k + 1, level);
      }
    }
  }

  lemma NextRelation(s: State, children: seq<Tree>, k: nat, level: nat)
    requires InSection(s) && k < |children| && Current(s).children == Relations(children[..k]) && Sorted(children)
    requires children[k].value.Some? && NameReadable(children[k].name) && ValueReadable(children[k].value.value)
    requires !children[k].final && children[k].children == []
    ensures StepLine(s, RelationLine(level, children[k].name, children[k].value.value))
            == Ok(Filled(s, Relations(children[..k + 1]), 1))
    ensures InSection(Filled(s, Relations(children[..k + 1]), 1))
  {
    hide StepLine, Put, At, RelationLine, Relations;
    var done, x := Relations(children[..k]), children[k];
    forall i | 0 <= i < |done|
      ensures !Greater(done[i].name, x.name)
    {
      RelationsIn(children[..k], i);
    }
    PositionAtEnd(done, x.name);
    Take(children, k);
    assert Added(done, x) == done + [x];
    StepRelation(s, level, x.name, x.value.value);
    LineKeepsValid(s, RelationLine(level, x.name, x.value.value));
    assert x == Tree(x.name, x.value, false, []);
  }

  lemma RunOne(s: State, line: string, lines: seq<string>)
    requires Valid(s) && StepLine(s, line).Ok?
    ensures Valid(StepLine(s, line).state) && RunLines(s, [line] + lines) == RunLines(StepLine(s, line).state, lines)
  {
    hide Valid, Step;
    LineKeepsValid(s, line);
    var buffers := InBuffers([line] + lines);
    assert buffers[0] == InBuffer(line) && buffers[1..] == InBuffers(lines);
  }

  // The sections that are there come before those still to be read.
  ghost predicate Before(there: seq<Tree>, children: seq<Tree>, k: nat)
    requires k <= |children|
  {
    forall i, j :: 0 <= i < |there| && there[i].value.None? && k <= j < |children| ==> !Greater(there[i].name, children[j].name)
  }

  lemma BeforeAdded(there: seq<Tree>, x: Tree, children: seq<Tree>, k: nat)
    requires k < |children| && Sorted(children) && Before(there, children, k) && x.name == children[k].name
    ensures Before(Added(there, x), children, k + 1)
  {
    var at, more := Position(there, x.name), Added(there, x);
    forall i, j | 0 <= i < |more| && more[i].value.None? && k + 1 <= j < |children|
      ensures !Greater(more[i].name, children[j].name)
    {
      if i < at {
        assert more[i] == there[i];
      } else if i > at {
        assert more[i] == there[i - 1];
      }
    }
  }

  // What reading the printed sections from number k on leads to.
  lemma {:induction false} RunSections(s: State, children: seq<Tree>, k: nat, level: nat, t: Tree) returns (all: seq<Tree>)
    requires InSection(s) && k <= |children| && level > 0 && t.children == children && PrintableTree(t) && NoFinalRelation(t)
    requires var there := Current(s).children;
             && Sorted(there) && Relations(there) == Relations(children) && NormalSections(there) == NormalSections(children[..k])
             && Before(there, children, k)
    ensures var lines := SectionLines(children[k..], level); RunLines(s, lines) == Ok(Filled(s, all, |lines|))
    ensures Sorted(all) && Relations(all) == Relations(children) && NormalSections(all) == NormalSections(children)
    decreases t, 0, |children| - k
  {
    hide StepLine, Valid, Put, At, RunLines, SectionLines, OneSection, Relations, NormalSections, Normal, Sorted, Added;
    var there := Current(s).children;
    if k == |children| {
      assert children[..k] == children && children[k..] == [];
      NoLines(level);
      FilledSame(s);
      RunNone(s);
      all := there;
    } else {
      Take(children, k);
      var x, rest := children[k], SectionLines(children[k + 1..], level);
      SectionLinesFrom(children, k, level);
      if x.value.None? {
        var inner := RunSection(s, x, level);
        var y := Tree(x.name, None, x.final, inner);
        var more := Added(there, y);
        SectionAdded(there, y);
        AddedSorted(there, y);
        BeforeAdded(there, y, children, k);
        var lines := OneSection(x, level);
        var next := Filled(s, more, |lines|);
        FilledTwice(s, more, there, |lines|, 0);
        all := RunSections(next, children, k + 1, level, t);
        FilledTwice(s, more, all, |lines|, |rest|);
        LinesAppend(s, lines, rest);
      } else {
        all := RunSections(s, children, k + 1, level, t);
      }
    }
  }

  lemma RunNone(s: State)
    requires Valid(s)
    ensures RunLines(s, []) == Ok(s)
  {
  }

  // One printed section is read back as a new child.
  lemma {:induction false} RunSection(s: State, x: Tree, level: nat) returns (inner: seq<Tree>)
    requires InSection(s) && level > 0 && x.value.None? && NameReadable(x.name) && PrintableTree(x) && NoFinalRelation(x)
    ensures Normal(Tree(x.name, None, x.final, inner)) == Normal(x)
    ensures var lines := OneSection(x, level);
            && RunLines(s, lines) == Ok(Filled(s, Added(Current(s).children, Tree(x.name, None, x.final, inner)), |lines|))
            && InSection(Filled(s, Added(Current(s).children, Tree(x.name, None, x.final, inner)), |lines|))
    decreases x, 3
  {
    hide StepLine, Put, At, RunLines, OpenLine, CloseLine, Added;
    StepOpen(s, level, x.name);
    LineKeepsValid(s, OpenLine(level, x.name));
    var e := Entered(s, x.name);
    ReplaceEntered(s, Tree(x.name, None, false, []));
    inner := RunContents(e, x, level + 1);
    var body, close := Dump(x, level + 1), CloseLine(level, x.final);
    var filled := Filled(e, inner, |body|);
    CloseEntered(s, x.name, inner, |body|, level, x.final);
    LineKeepsValid(filled, close);
    RunNone(StepLine(filled, close).state);
    RunOne(filled, close, []);
    LinesAppend(e, body, [close]);
    RunOne(s, OpenLine(level, x.name), body + [close]);
    assert OneSection(x, level) == [OpenLine(level, x.name)] + (body + [close]);
    assert [close] + [] == [close];
  }

  // What is printed for the contents of a section is read back into an empty one.
  lemma {:induction false} RunContents(s: State, x: Tree, level: nat) returns (inner: seq<Tree>)
    requires InSection(s) && level > 0 && Current(s).children == [] && PrintableTree(x) && NoFinalRelation(x)
    ensures var lines := Dump(x, level); RunLines(s, lines) == Ok(Filled(s, inner, |lines|)) && InSection(Filled(s, inner, |lines|))
    ensures Relations(inner) == Relations(x.children) && NormalSections(inner) == NormalSections(x.children)
    decreases x, 1
  {
    hide StepLine, Put, At, RunLines, Valid;
    var a, b := RelationLines(x.children, level), SectionLines(x.children, level);
    assert x.children[0..] == x.children && x.children[..0] == [];
    RunRelations(s, x.children, 0, level);
    var there := Relations(x.children);
    RunKeepsValid(s, a);
    var next := Filled(s, there, |a|);
    FilledTwice(s, there, there, |a|, 0);
    RelationsOnly(x.children);
    inner := RunSections(next, x.children, 0, level, x);
    FilledTwice(s, there, inner, |a|, |b|);
    LinesAppend(s, a, b);
    RunKeepsValid(s, a + b);
  }

  lemma RunKeepsValid(s: State, lines: seq<string>)
    requires Valid(s) && RunLines(s, lines).Ok?
    ensures Valid(RunLines(s, lines).state)
  {
  }

  lemma RelationsOnly(children: seq<Tree>)
    requires Sorted(children)
    ensures var there := Relations(children);
            && Sorted(there) && Relations(there) == there && NormalSections(there) == [] && Before(there, children, 0)
  {
    var there := Relations(children);
    forall i | 0 <= i < |there|
      ensures there[i].value.Some?
    {
      RelationsIn(children, i);
    }
    OnlyRelations(there);
    SortedRelations(children);
  }

  lemma {:induction false} SortedRelations(children: seq<Tree>)
    requires Sorted(children)
    ensures Sorted(Relations(children))
  {
    if children != [] {
      var rest := Relations(children[1..]);
      SortedRelations(children[1..]);
      forall i | 0 <= i < |rest|
        ensures !Greater(children[0].name, rest[i].name)
      {
        RelationsIn(children[1..], i);
      }
    }
  }

  // ---------- the top level ----------

  // Between two sections, or before the first one.
  ghost predicate AtTop(s: State)
  {
    Valid(s) && s.level == 0 && s.mode != GetObrace
  }

  ghost function TopEntered(s: State, name: string, final: bool): State
  {
    s.(mode := StdLine, lineNum := s.lineNum + 1, path := [Position(s.root.children, name)],
       root := s.root.(children := Added(s.root.children, Tree(name, None, final, []))))
  }

  lemma StepSection(s: State, name: string, final: bool)
    requires AtTop(s) && TopReadable(name) && FindSection(s.root.children, name).None?
    ensures StepLine(s, SectionLine(name, final)) == Ok(TopEntered(s, name, final && NeedsDoubleQuotes(name)))
  {
    hide SectionLine, Added, NeedsDoubleQuotes, Lexed, FirstChar, Lex, Clean;
    SectionClean(name, final);
    LineInBuffer(SectionLine(name, final));
  }

  lemma FillTop(s: State, name: string, final: bool, inner: seq<Tree>, n: nat)
    requires AtTop(s) && Valid(TopEntered(s, name, final))
    ensures var e := TopEntered(s, name, final);
            && Current(e) == Tree(name, None, final, [])
            && Filled(e, inner, n).root == s.root.(children := Added(s.root.children, Tree(name, None, final, inner)))
  {
    var at, more := Position(s.root.children, name), Added(s.root.children, Tree(name, None, final, []));
    var e := TopEntered(s, name, final);
    assert e.path == [] + [at];
    Deeper(e.root, [], at, Tree(name, None, final, inner));
    assert more[at := Tree(name, None, final, inner)] == Added(s.root.children, Tree(name, None, final, inner));
  }

  // What is read back of a top-level section: its mark is lost unless its name is printed in quotes.
  function TopRead(x: Tree): Tree
  {
    x.(final := x.final && NeedsDoubleQuotes(x.name))
  }

  // A printed top-level section is read back as a new section.
  lemma RunTopSection(s: State, x: Tree) returns (y: Tree, after: State)
    requires AtTop(s) && FindSection(s.root.children, x.name).None?
    requires x.value.None? && TopReadable(x.name) && PrintableTree(x) && NoFinalRelation(x)
    ensures y.name == x.name && y.value.None? && Normal(y) == Normal(TopRead(x))
    ensures RunLines(s, OneSection(x, 0)) == Ok(after) && AtTop(after)
    ensures after.root == s.root.(children := Added(s.root.children, y))
  {
    hide StepLine, Put, At, RunLines, SectionLine, Added, NeedsDoubleQuotes;
    var line, kept := SectionLine(x.name, x.final), x.final && NeedsDoubleQuotes(x.name);
    StepSection(s, x.name, x.final);
    LineKeepsValid(s, line);
    var e := TopEntered(s, x.name, kept);
    FillTop(s, x.name, kept, [], 0);
    var body := Dump(x, 1);
    var inner := RunContents(e, x, 1);
    y := Tree(x.name, None, kept, inner);
    FillTop(s, x.name, kept, inner, |body|);
    var filled := Filled(e, inner, |body|);
    StepBlank(filled);
    after := filled.(lineNum := filled.lineNum + 1);
    LineKeepsValid(filled, "\n");
    RunNone(after);
    RunOne(filled, "\n", []);
    LinesAppend(e, body, ["\n"]);
    RunOne(s, line, body + ["\n"]);
    assert OneSection(x, 0) == [line] + (body + ["\n"]);
    assert ["\n"] + [] == ["\n"];
  }

  // None of the sections there has the name of one that is still to be read.
  ghost predicate Unread(there: seq<Tree>, children: seq<Tree>, k: nat)
    requires k <= |children|
  {
    forall i, j :: 0 <= i < |there| && k <= j < |children| ==> there[i].name != children[j].name
  }

  lemma UnreadAdded(there: seq<Tree>, x: Tree, children: seq<Tree>, k: nat)
    requires k < |children| && SectionsUnique(children) && Unread(there, children, k) && x.name == children[k].name
    ensures Unread(Added(there, x), children, k + 1)
  {
    var at, more := Position(there, x.name), Added(there, x);
    forall i, j | 0 <= i < |more| && k + 1 <= j < |children|
      ensures more[i].name != children[j].name
    {
      if i < at {
        assert more[i] == there[i];
      } else if i > at {
        assert more[i] == there[i - 1];
      }
    }
  }

  function AllTopRead(children: seq<Tree>): (read: seq<Tree>)
    ensures |read| == |children| && forall i :: 0 <= i < |read| ==> read[i] == TopRead(children[i])
  {
    if children == [] then [] else [TopRead(children[0])] + AllTopRead(children[1..])
  }

  lemma {:induction false} RunTop(s: State, root: Tree, k: nat)
    requires AtTop(s) && s.root == EMPTY.(children := s.root.children)
    requires PrintableRoot(root) && NoFinalRelation(root) && k <= |root.children|
    requires NormalSections(s.root.children) == NormalSections(AllTopRead(root.children)[..k])
    requires Before(s.root.children, root.children, k) && Unread(s.root.children, root.children, k)
    ensures var r := RunLines(s, SectionLines(root.children[k..], 0));
            && r.Ok? && r.state.root == EMPTY.(children := r.state.root.children)
            && NormalSections(r.state.root.children) == NormalSections(AllTopRead(root.children))
            && Relations(r.state.root.children) == []
    decreases |root.children| - k
  {
    hide StepLine, Put, At, RunLines, SectionLines, OneSection, Relations, NormalSections, Normal, Added, Sorted, AllTopRead, NeedsDoubleQuotes;
    var children, there, read := root.children, s.root.children, AllTopRead(root.children);
    if k == |children| {
      assert read[..k] == read && children[k..] == [];
      NoLines(0);
      RunNone(s);
      OnlySections(there);
    } else {
      var x := children[k];
      Take(read, k);
      SectionLinesFrom(children, k, 0);
      NotFound(there, x.name);
      var y, after := RunTopSection(s, x);
      SectionAdded(there, y);
      BeforeAdded(there, y, children, k);
      UnreadAdded(there, y, children, k);
      RunTop(after, root, k + 1);
      LinesAppend(s, OneSection(x, 0), SectionLines(children[k + 1..], 0));
    }
  }

  ghost function ParseLines(lines: seq<string>): (r: Result)
    ensures r.Ok? ==> Valid(r.state)
  {
    StartValid();
    RunLines(Start(), lines)
  }

  lemma ParseUnmarked(root: Tree)
    requires PrintableRoot(root) && NoFinalRelation(root)
    ensures ParseLines(Dump(root, 0)).Ok?
    ensures Normal(ParseLines(Dump(root, 0)).state.root) == Normal(root.(children := AllTopRead(root.children)))
  {
    var children, read := root.children, AllTopRead(root.children);
    assert read[..0] == [] && children[0..] == children;
    OnlySections(read);
    NoRelationLines(children, 0);
    StartAtTop();
    hide RunLines, StepLine, Put, At, SectionLines, RelationLines, Relations, Valid, PrintableRoot, AllTopRead;
    assert [] + SectionLines(children, 0) == SectionLines(children, 0);
    RunTop(Start(), root, 0);
  }

  lemma StartAtTop()
    ensures AtTop(Start()) && Start().root == EMPTY && NormalSections([]) == []
  {
  }

  lemma {:induction false} NoRelationLines(children: seq<Tree>, level: nat)
    requires forall i :: 0 <= i < |children| ==> children[i].value.None?
    ensures RelationLines(children, level) == []
  {
    if children != [] {
      NoRelationLines(children[1..], level);
    }
  }

  // ---------- final marks ----------

  // The mark of a relation is not printed.
  function Unmarked(t: Tree): (u: Tree)
    ensures u.name == t.name && u.value == t.value && (t.value.None? ==> u.final == t.final)
    decreases t, 1
  {
    t.(final := t.final && t.value.None?, children := AllUnmarked(t.children))
  }

  function AllUnmarked(children: seq<Tree>): (us: seq<Tree>)
    ensures |us| == |children| && forall i :: 0 <= i < |us| ==> us[i] == Unmarked(children[i])
    decreases children, 0
  {
    if children == [] then [] else [Unmarked(children[0])] + AllUnmarked(children[1..])
  }

  lemma {:induction false} UnmarkedPrintable(t: Tree)
    requires PrintableTree(t)
    ensures PrintableTree(Unmarked(t)) && NoFinalRelation(Unmarked(t))
  {
    var u := Unmarked(t);
    forall i | 0 <= i < |u.children|
      ensures PrintableTree(u.children[i]) && NoFinalRelation(u.children[i])
    {
      UnmarkedPrintable(t.children[i]);
    }
  }

  lemma UnmarkedPrintableRoot(root: Tree)
    requires PrintableRoot(root)
    ensures PrintableRoot(Unmarked(root)) && NoFinalRelation(Unmarked(root))
  {
    hide PrintableTree;
    var u := Unmarked(root);
    forall i | 0 <= i < |u.children|
      ensures PrintableTree(u.children[i]) && NoFinalRelation(u.children[i])
    {
      UnmarkedPrintable(root.children[i]);
    }
  }

  // So the lines are the same without it.
  lemma {:induction false} UnmarkedDump(t: Tree, level: nat)
    ensures Dump(Unmarked(t), level) == Dump(t, level)
    decreases t, 1
  {
    UnmarkedLines(t.children, level);
  }

  lemma {:induction false} UnmarkedLines(children: seq<Tree>, level: nat)
    ensures RelationLines(AllUnmarked(children), level) == RelationLines(children, level)
    ensures SectionLines(AllUnmarked(children), level) == SectionLines(children, level)
    decreases children, 0
  {
    if children != [] {
      var x, us := children[0], AllUnmarked(children);
      assert us[0] == Unmarked(x) && us[1..] == AllUnmarked(children[1..]);
      UnmarkedLines(children[1..], level);
      UnmarkedDump(x, 1);
      UnmarkedDump(x, level + 1);
    }
  }

  // What reading back yields for a whole tree, up to the order of relations and sections.
  function ReadBack(root: Tree): Tree
  {
    root.(children := AllTopRead(AllUnmarked(root.children)))
  }

  // Every mark is printed and read: no relation is final, and the names of final top-level sections
  // need quotes.
  ghost predicate MarksKept(root: Tree)
  {
    && NoFinalRelation(root)
    && forall i :: 0 <= i < |root.children| && root.children[i].final ==> NeedsDoubleQuotes(root.children[i].name)
  }

  lemma {:induction false} UnmarkedSizes(children: seq<Tree>)
    ensures |Relations(AllUnmarked(children))| == |Relations(children)|
  {
    if children != [] {
      assert AllUnmarked(children)[1..] == AllUnmarked(children[1..]);
      UnmarkedSizes(children[1..]);
    }
  }

  lemma ConcatEqual<T>(a: seq<T>, b: seq<T>, c: seq<T>, d: seq<T>)
    requires |a| == |c|
    ensures a + b == c + d <==> a == c && b == d
  {
    assert a == (a + b)[..|a|] && c == (c + d)[..|a|] && b == (a + b)[|a|..] && d == (c + d)[|a|..];
  }

  // Nothing changes below a section exactly when no relation there is final.
  lemma {:induction false} UnmarkedSame(t: Tree)
    requires PrintableTree(t)
    ensures Normal(Unmarked(t)).children == Normal(t).children <==> NoFinalRelation(t)
    decreases t, 1
  {
    hide Relations, NormalSections, AllUnmarked, PrintableTree;
    UnmarkedSizes(t.children);
    ConcatEqual(Relations(AllUnmarked(t.children)), NormalSections(AllUnmarked(t.children)),
                Relations(t.children), NormalSections(t.children));
    PrintableChildren(t);
    ListSame(t.children);
  }

  ghost predicate PrintableList(children: seq<Tree>)
  {
    forall i :: 0 <= i < |children| ==> (children[i].value.Some? ==> children[i].children == []) && PrintableTree(children[i])
  }

  lemma PrintableChildren(t: Tree)
    requires PrintableTree(t)
    ensures PrintableList(t.children)
  {
  }

  ghost predicate NoFinalIn(children: seq<Tree>)
  {
    forall i :: 0 <= i < |children| ==> (children[i].value.Some? ==> !children[i].final) && NoFinalRelation(children[i])
  }

  lemma {:induction false} ListSame(children: seq<Tree>)
    requires PrintableList(children)
    ensures (Relations(AllUnmarked(children)) == Relations(children) && NormalSections(AllUnmarked(children)) == NormalSections(children))
            <==> NoFinalIn(children)
    decreases children, 0
  {
    if children != [] {
      var x, rest := children[0], children[1..];
      assert AllUnmarked(children) == [Unmarked(x)] + AllUnmarked(rest);
      ListSame(rest);
      OneSame(x);
      assert NoFinalIn(children) <==> (x.value.Some? ==> !x.final) && NoFinalRelation(x) && NoFinalIn(rest);
      FirstSame(children);
    }
  }

  lemma {:induction false} OneSame(x: Tree)
    requires PrintableTree(x) && (x.value.Some? ==> x.children == [])
    ensures x.value.Some? ==> (Unmarked(x) == x <==> !x.final) && NoFinalRelation(x)
    ensures x.value.None? ==> (Normal(Unmarked(x)) == Normal(x) <==> NoFinalRelation(x))
    decreases x, 2
  {
    if x.value.None? {
      UnmarkedSame(x);
    }
  }

  lemma FirstOfLists(children: seq<Tree>)
    requires children != []
    ensures Relations(children) == if children[0].value.Some? then [children[0]] + Relations(children[1..]) else Relations(children[1..])
    ensures NormalSections(children)
            == if children[0].value.None? then [Normal(children[0])] + NormalSections(children[1..]) else NormalSections(children[1..])
  {
    assert [] + Relations(children[1..]) == Relations(children[1..]);
    assert [] + NormalSections(children[1..]) == NormalSections(children[1..]);
  }

  // Both lists are the same when they start alike and go on alike.
  lemma FirstSame(children: seq<Tree>)
    requires children != []
    ensures var x, rest := children[0], children[1..];
            (Relations(AllUnmarked(children)) == Relations(children) && NormalSections(AllUnmarked(children)) == NormalSections(children))
            <==> && (if x.value.Some? then Unmarked(x) == x else Normal(Unmarked(x)) == Normal(x))
                 && Relations(AllUnmarked(rest)) == Relations(rest) && NormalSections(AllUnmarked(rest)) == NormalSections(rest)
  {
    hide Normal, Unmarked, Relations, NormalSections;
    var x, rest, us := children[0], children[1..], AllUnmarked(children);
    assert us[0] == Unmarked(x) && us[1..] == AllUnmarked(rest);
    FirstOfLists(children);
    FirstOfLists(us);
    if x.value.Some? {
      ConcatEqual([us[0]], Relations(us[1..]), [x], Relations(rest));
    } else {
      ConcatEqual([Normal(us[0])], NormalSections(us[1..]), [Normal(x)], NormalSections(rest));
    }
  }

  lemma {:induction false} SectionsByIndex(children: seq<Tree>)
    requires forall i :: 0 <= i < |children| ==> children[i].value.None?
    ensures |NormalSections(children)| == |children|
    ensures forall i :: 0 <= i < |children| ==> NormalSections(children)[i] == Normal(children[i])
  {
    if children != [] {
      SectionsByIndex(children[1..]);
    }
  }

  // The marks of a top-level section, and of what is in it, are printed and read.
  ghost predicate SectionKept(x: Tree)
  {
    NoFinalRelation(x) && (x.final ==> NeedsDoubleQuotes(x.name))
  }

  lemma MarksBySection(root: Tree)
    requires SectionsUnique(root.children)
    ensures MarksKept(root) <==> forall i :: 0 <= i < |root.children| ==> SectionKept(root.children[i])
  {
    hide NeedsDoubleQuotes;
  }

  lemma SectionReadSame(x: Tree)
    requires PrintableTree(x) && x.value.None?
    ensures Normal(TopRead(Unmarked(x))) == Normal(x) <==> SectionKept(x)
  {
    hide NeedsDoubleQuotes, Relations, NormalSections, PrintableTree, AllUnmarked, NoFinalRelation;
    UnmarkedSame(x);
  }

  lemma NormalOfSections(t: Tree)
    requires forall i :: 0 <= i < |t.children| ==> t.children[i].value.None?
    ensures Normal(t) == t.(children := NormalSections(t.children))
  {
    OnlySections(t.children);
    assert [] + NormalSections(t.children) == NormalSections(t.children);
  }

  lemma ReadBackSame(root: Tree)
    requires PrintableRoot(root)
    ensures Normal(ReadBack(root)) == Normal(root) <==> MarksKept(root)
  {
    hide NormalSections, Normal, PrintableTree, AllTopRead, AllUnmarked, TopReadable, Sorted, SectionKept, MarksKept, TopRead, Unmarked;
    var children, read := root.children, AllTopRead(AllUnmarked(root.children));
    forall i | 0 <= i < |children|
      ensures read[i] == TopRead(Unmarked(children[i])) && read[i].value.None?
      ensures Normal(read[i]) == Normal(children[i]) <==> SectionKept(children[i])
    {
      ReadAt(children, i);
      SectionReadSame(children[i]);
    }
    NormalOfSections(root);
    NormalOfSections(ReadBack(root));
    SectionsByIndex(children);
    SectionsByIndex(read);
    MarksBySection(root);
    SameByIndex(NormalSections(read), NormalSections(children));
  }

  lemma ReadAt(children: seq<Tree>, i: nat)
    requires i < |children|
    ensures AllTopRead(AllUnmarked(children))[i] == TopRead(Unmarked(children[i]))
    ensures AllTopRead(AllUnmarked(children))[i].value == children[i].value
  {
  }

  lemma SameByIndex<T>(a: seq<T>, b: seq<T>)
    requires |a| == |b|
    ensures a == b <==> forall i :: 0 <= i < |a| ==> a[i] == b[i]
  {
  }

  // ---------- any buffers that hold the lines ----------

  ghost predicate HoldLines(buffers: seq<Buffer>, lines: seq<string>)
  {
    |buffers| == |lines| && forall i :: 0 <= i < |lines| ==> TextAt(buffers[i], 0, lines[i])
  }

  ghost predicate AllClean(lines: seq<string>)
  {
    forall i :: 0 <= i < |lines| ==> Clean(lines[i])
  }

  lemma CleanAppend(a: seq<string>, b: seq<string>)
    requires AllClean(a) && AllClean(b)
    ensures AllClean(a + b)
  {
  }

  lemma AroundClean(a: string, lines: seq<string>, b: string)
    requires Clean(a) && AllClean(lines) && Clean(b)
    ensures AllClean([a] + lines + [b])
  {
    hide Clean;
  }

  lemma {:induction false} RelationsClean(children: seq<Tree>, level: nat)
    requires forall i :: 0 <= i < |children| && children[i].value.Some? ==> NameReadable(children[i].name) && ValueReadable(children[i].value.value)
    ensures AllClean(RelationLines(children, level))
  {
    hide Clean, RelationLine, NameReadable, ValueReadable;
    if children != [] {
      RelationsClean(children[1..], level);
      if children[0].value.Some? {
        RelationClean(level, children[0].name, children[0].value.value);
      }
    }
  }

  ghost predicate SectionsReadable(children: seq<Tree>, level: nat)
  {
    forall i :: 0 <= i < |children| && children[i].value.None? ==>
      PrintableTree(children[i]) && if level == 0 then TopReadable(children[i].name) else NameReadable(children[i].name)
  }

  lemma {:induction false} SectionsClean(children: seq<Tree>, level: nat)
    requires SectionsReadable(children, level)
    ensures AllClean(SectionLines(children, level))
    decreases children, 0
  {
    hide Clean, NameReadable, TopReadable, PrintableTree, OneSection;
    if children != [] {
      SectionsClean(children[1..], level);
      if children[0].value.None? {
        OneSectionClean(children[0], level);
      }
    }
  }

  lemma {:induction false} OneSectionClean(t: Tree, level: nat)
    requires PrintableTree(t) && if level == 0 then TopReadable(t.name) else NameReadable(t.name)
    ensures AllClean(OneSection(t, level))
    decreases t, 2
  {
    hide Clean, NameReadable, TopReadable, PrintableTree, Dump, SectionLine, OpenLine, CloseLine, AllClean, Lex;
    CloseClean(level, t.final);
    if level == 0 {
      SectionClean(t.name, t.final);
      DumpClean(t, 1);
      AroundClean(SectionLine(t.name, t.final), Dump(t, 1), "\n");
    } else {
      OpenClean(level, t.name);
      DumpClean(t, level + 1);
      AroundClean(OpenLine(level, t.name), Dump(t, level + 1), CloseLine(level, t.final));
    }
  }

  lemma {:induction false} DumpClean(t: Tree, level: nat)
    requires PrintableTree(t) && level > 0
    ensures AllClean(Dump(t, level))
    decreases t, 1
  {
    hide Clean, NameReadable, ValueReadable;
    RelationsClean(t.children, level);
    SectionsClean(t.children, level);
    CleanAppend(RelationLines(t.children, level), SectionLines(t.children, level));
  }

  // What is behind a clean line in the buffer does not matter.
  lemma SameStep(s: State, buffer: Buffer, line: string)
    requires PathIn(s.root, s.path) && TextAt(buffer, 0, line) && Clean(line)
    ensures Step(s, buffer) == StepLine(s, line)
  {
    hide Lexed, Lex, FirstChar, Clean, Blanks, SkipOverBlanks, Stripped, PathIn, AddChild, OpenSection, Put;
    LineInBuffer(line);
    CleanInBuffer(buffer, line);
    CleanInBuffer(InBuffer(line), line);
  }

  lemma {:induction false} SameRun(s: State, buffers: seq<Buffer>, lines: seq<string>)
    requires Valid(s) && HoldLines(buffers, lines) && AllClean(lines)
    ensures Run(s, buffers) == RunLines(s, lines)
    decreases |lines|
  {
    if lines != [] {
      SameStep(s, buffers[0], lines[0]);
      assert InBuffers(lines)[1..] == InBuffers(lines[1..]);
      hide Step, Clean, TextAt;
      if StepLine(s, lines[0]).Ok? {
        LineKeepsValid(s, lines[0]);
        SameRun(StepLine(s, lines[0]).state, buffers[1..], lines[1..]);
      }
    }
  }

  // Reading what was printed for a tree, from any buffers that hold the lines, accepts every line and
  // rebuilds, at every node, the same sequence of relations and the same sequence of sections, except
  // for final marks: those of relations are not printed, and those of top-level sections are not read
  // unless the name is in quotes.
  lemma PrintThenParse(root: Tree, buffers: seq<Buffer>)
    requires PrintableRoot(root) && HoldLines(buffers, Dump(root, 0))
    ensures Parse(buffers).Ok? && Normal(Parse(buffers).state.root) == Normal(ReadBack(root))
    ensures Normal(Parse(buffers).state.root) == Normal(root) <==> MarksKept(root)
  {
    hide Normal, PrintableTree, NoFinalRelation, MarksKept, HoldLines, AllClean, Run, SectionLines, RelationLines, TopReadable;
    UnmarkedPrintableRoot(root);
    UnmarkedDump(root, 0);
    ParseUnmarked(Unmarked(root));
    ReadBackSame(root);
    NoRelationLines(root.children, 0);
    assert [] + SectionLines(root.children, 0) == SectionLines(root.children, 0);
    SectionsClean(root.children, 0);
    StartValid();
    SameRun(Start(), buffers, Dump(root, 0));
  }

  // ---------- in characters ----------

  // A section with a relation and a final section inside, as it is printed.
  lemma SampleDump()
    ensures var inner := Tree("t", None, true, [Tree("c", Some("d"), false, [])]);
            Dump(EMPTY.(children := [Tree("s", None, false, [Tree("a", Some("b"), false, []), inner])]), 0)
            == ["[s]\n", "\ta = b\n", "\tt = {\n", "\t\tc = d\n", "\t}*\n", "\n"]
  {
    hide RelationLine, SectionLine, OpenLine, CloseLine, OneSection;
    var relation := Tree("a", Some("b"), false, []);
    var inner := Tree("t", None, true, [Tree("c", Some("d"), false, [])]);
    var section := Tree("s", None, false, [relation, inner]);
    SampleTexts();
    SampleInner(inner);
    assert [relation, inner][1..] == [inner] && [inner][1..] == [] && [section][1..] == [];
    assert SectionLines([inner], 1) == OneSection(inner, 1) by { assert SectionLines([], 1) == []; }
    assert SectionLines([relation, inner], 1) == OneSection(inner, 1);
    assert RelationLines([inner], 1) == [] by { assert RelationLines([], 1) == []; }
    assert Dump(section, 1) == ["\ta = b\n", "\tt = {\n", "\t\tc = d\n", "\t}*\n"];
    assert SectionLines([section], 0) == OneSection(section, 0) by { assert SectionLines([], 0) == []; }
    assert RelationLines([section], 0) == [] by { assert RelationLines([], 0) == []; }
    SampleOuter(section);
  }

  lemma SampleInner(inner: Tree)
    requires inner == Tree("t", None, true, [Tree("c", Some("d"), false, [])])
    ensures OneSection(inner, 1) == ["\tt = {\n", "\t\tc = d\n", "\t}*\n"]
  {
    hide RelationLine, SectionLine, OpenLine, CloseLine;
    SampleTexts();
    var child := inner.children[0];
    assert inner.children == [child] && [child][1..] == [];
    assert RelationLines([], 2) == [] && SectionLines([], 2) == [];
    assert RelationLines([child], 2) == [RelationLine(2, "c", "d")] && SectionLines([child], 2) == [];
  }

  lemma SampleOuter(section: Tree)
    requires section.name == "s" && !section.final
    ensures OneSection(section, 0) == ["[s]\n"] + Dump(section, 1) + ["\n"]
  {
    hide SectionLine, Dump;
    SampleTexts();
  }

  lemma SampleTexts()
    ensures SectionLine("s", false) == "[s]\n" && RelationLine(1, "a", "b") == "\ta = b\n" && OpenLine(1, "t") == "\tt = {\n"
    ensures RelationLine(2, "c", "d") == "\t\tc = d\n" && CloseLine(1, true) == "\t}*\n"
  {
    hide NeedsDoubleQuotes;
    assert Tabs(1) == "\t" && Tabs(2) == "\t\t";
    Letter("a");
    Letter("b");
    Letter("c");
    Letter("d");
    Letter("s");
    Letter("t");
  }

  lemma Letter(s: string)
    requires |s| == 1 && 'a' <= s[0] <= 'z'
    ensures !NeedsDoubleQuotes(s)
  {
  }
}
