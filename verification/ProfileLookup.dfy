/** What a look-up finds in the tree of a configuration file, in terms of the lines of the file. */
module ProfileLookup {
  import opened Wrappers
  import opened ProfileLine
  import opened ProfileTree

  // The values of the relations with this name, in order.
  function Values(children: seq<Tree>, name: string): seq<string>
  {
    if children == [] then []
    else (if children[0].name == name && children[0].value.Some? then [children[0].value.value] else [])
         + Values(children[1..], name)
  }

  // The section that a list of names leads to: at each step the first one with the name.
  function Walk(t: Tree, names: seq<string>): Option<Tree>
  {
    if names == [] then Some(t)
    else match FindSection(t.children, names[0])
      case None => None
      case Some(k) => Walk(t.children[k], names[1..])
  }

  // The value that profile_get_value finds: all names but the last lead to a section.
  function GetValue(root: Tree, names: seq<string>): Option<string>
    requires names != []
  {
    var n := |names| - 1;
    match Walk(root, names[..n])
    case None => None
    case Some(section) =>
      var values := Values(section.children, names[n]);
      if values == [] then None else Some(values[0])
  }

  // ---------- values and changes of the tree ----------

  lemma {:induction false} ValuesAppend(a: seq<Tree>, b: seq<Tree>, name: string)
    ensures Values(a + b, name) == Values(a, name) + Values(b, name)
  {
    if a == [] {
      assert a + b == b;
    } else {
      ValuesAppend(a[1..], b, name);
      assert (a + b)[0] == a[0] && (a + b)[1..] == a[1..] + b;
      var first := if a[0].name == name && a[0].value.Some? then [a[0].value.value] else [];
      assert first + (Values(a[1..], name) + Values(b, name)) == first + Values(a[1..], name) + Values(b, name);
    }
  }

  lemma {:induction false} NoValues(children: seq<Tree>, name: string)
    requires forall i :: 0 <= i < |children| ==> children[i].name != name
    ensures Values(children, name) == []
  {
    if children != [] {
      NoValues(children[1..], name);
    }
  }

  lemma ValuesOfOne(child: Tree, name: string)
    ensures Values([child], name) == if child.name == name && child.value.Some? then [child.value.value] else []
  {
    assert [child][1..] == [];
  }

  // A new relation comes after all those with the same name.
  lemma ValuesAdded(children: seq<Tree>, child: Tree, name: string)
    requires Sorted(children)
    ensures Values(Added(children, child), name)
            == Values(children, name) + if child.name == name && child.value.Some? then [child.value.value] else []
  {
    hide Values;
    var at := Position(children, child.name);
    var before, after := children[..at], children[at..];
    assert children == before + after;
    ValuesAppend(before, after, name);
    ValuesAppend(before + [child], after, name);
    ValuesAppend(before, [child], name);
    ValuesOfOne(child, name);
    if child.name == name {
      forall i | 0 <= i < |after|
        ensures after[i].name != name
      {
        AfterPosition(children, name, at + i);
        GreaterTotal(name, name);
      }
      NoValues(after, name);
    }
  }

  lemma ValuesReplaced(children: seq<Tree>, k: nat, x: Tree, name: string)
    requires k < |children| && x.name == children[k].name && x.value == children[k].value
    ensures Values(children[k := x], name) == Values(children, name)
  {
    var before, after := children[..k], children[k + 1..];
    assert children == before + [children[k]] + after && children[k := x] == before + [x] + after;
    ValuesAppend(before + [children[k]], after, name);
    ValuesAppend(before, [children[k]], name);
    ValuesAppend(before + [x], after, name);
    ValuesAppend(before, [x], name);
    assert [x][1..] == [] && [children[k]][1..] == [];
  }

  // The values in the section with a name.
  function SectionValues(children: seq<Tree>, section: string, name: string): seq<string>
  {
    match FindSection(children, section)
    case None => []
    case Some(k) => Values(children[k].children, name)
  }

  lemma SectionValuesReplaced(children: seq<Tree>, k: nat, x: Tree, section: string, name: string)
    requires SectionsUnique(children) && k < |children| && x.name == children[k].name && x.value.None?
    ensures SectionValues(children[k := x], section, name)
            == if section == x.name then Values(x.children, name) else SectionValues(children, section, name)
  {
    hide Values;
    var more := children[k := x];
    match FindSection(children, section)
    case None => NotFound(more, section);
    case Some(i) => FoundAt(more, i, section);
  }

  lemma AddedUnique(children: seq<Tree>, child: Tree)
    requires SectionsUnique(children) && FindSection(children, child.name).None? && child.value.None?
    ensures SectionsUnique(Added(children, child))
  {
    hide Position, FindSection;
    var at, more := Position(children, child.name), Added(children, child);
    forall i | 0 <= i < |more|
      ensures more[i].value.None? && (i != at ==> more[i].name != child.name)
      ensures i < at ==> more[i] == children[i]
      ensures i > at ==> more[i] == children[i - 1]
    {
    }
  }

  lemma SectionValuesAdded(children: seq<Tree>, child: Tree, section: string, name: string)
    requires SectionsUnique(children) && FindSection(children, child.name).None? && child.value.None? && child.children == []
    ensures SectionValues(Added(children, child), section, name) == SectionValues(children, section, name)
  {
    AddedUnique(children, child);
    hide Values, Position, SectionsUnique;
    var at, more := Position(children, child.name), Added(children, child);
    if section == child.name {
      FoundAt(more, at, section);
      NoChildren(name);
    } else {
      match FindSection(children, section)
      case None => NotFound(more, section);
      case Some(i) => FoundAt(more, if i < at then i else i + 1, section);
    }
  }

  lemma NoChildren(name: string)
    ensures Values([], name) == []
  {
  }

  // ---------- the relations of a file, in order ----------

  // A relation that stands directly in a section.
  datatype Event = Event(section: string, name: string, value: string)

  // What a line in some state adds to the relations read so far.
  ghost function Noted(s: State, line: Buffer): seq<Event>
    requires Valid(s)
  {
    if s.mode == StdLine && line[0] != '\0' && Lexed(line).Relation? && |s.path| == 1 then
      [Event(At(s.root, s.path).name, Lexed(line).name, Lexed(line).value)]
    else []
  }

  // The relations that stand directly in sections of the file, in the order of the lines.
  ghost function Log(s: State, lines: seq<Buffer>): seq<Event>
    requires Valid(s) && Run(s, lines).Ok?
    decreases |lines|
  {
    if lines == [] then []
    else
      StepKeepsValid(s, lines[0]);
      Noted(s, lines[0]) + Log(Step(s, lines[0]).state, lines[1..])
  }

  // The values given to a relation, by any block of that section.
  ghost function Logged(log: seq<Event>, section: string, name: string): seq<string>
  {
    if log == [] then []
    else (if log[0].section == section && log[0].name == name then [log[0].value] else []) + Logged(log[1..], section, name)
  }

  lemma {:induction false} LoggedAppend(a: seq<Event>, b: seq<Event>, section: string, name: string)
    ensures Logged(a + b, section, name) == Logged(a, section, name) + Logged(b, section, name)
  {
    if a == [] {
      assert a + b == b;
    } else {
      LoggedAppend(a[1..], b, section, name);
      assert (a + b)[0] == a[0] && (a + b)[1..] == a[1..] + b;
      var first := if a[0].section == section && a[0].name == name then [a[0].value] else [];
      assert first + (Logged(a[1..], section, name) + Logged(b, section, name))
        == first + Logged(a[1..], section, name) + Logged(b, section, name);
    }
  }

  lemma LoggedOne(e: Event, section: string, name: string)
    ensures Logged([e], section, name) == if e.section == section && e.name == name then [e.value] else []
  {
    assert [e][1..] == [];
  }

  // Putting a node deep below keeps the values of the sections; putting one in the place of a
  // section changes them to its own.
  lemma ValuesPut(root: Tree, path: seq<nat>, x: Tree, section: string, name: string)
    requires SectionsUnique(root.children) && PathIn(root, path) && path != []
    requires x.name == At(root, path).name && x.value == At(root, path).value && x.value.None?
    ensures SectionValues(Put(root, path, x).children, section, name)
            == if |path| == 1 && section == x.name then Values(x.children, name) else SectionValues(root.children, section, name)
  {
    hide Values, SectionValues;
    var k := path[0];
    var child := root.children[k];
    var y := Put(child, path[1..], x);
    PutKeepsName(child, path[1..], x);
    SectionValuesReplaced(root.children, k, y, section, name);
    if |path| > 1 {
      PutKeepsName(child.children[path[1]], path[2..], x);
      assert path[1..][1..] == path[2..];
      ValuesReplaced(child.children, path[1], y.children[path[1]], name);
      SectionValuesAt(root.children, k, name);
    }
  }

  lemma SectionValuesAt(children: seq<Tree>, k: nat, name: string)
    requires SectionsUnique(children) && k < |children|
    ensures SectionValues(children, children[k].name, name) == Values(children[k].children, name)
  {
    FoundAt(children, k, children[k].name);
  }

  // A line adds to the values of each section what it adds to the relations read.
  lemma StepNotes(s: State, line: Buffer, section: string, name: string)
    requires Valid(s) && Step(s, line).Ok?
    ensures SectionValues(Step(s, line).state.root.children, section, name)
            == SectionValues(s.root.children, section, name) + Logged(Noted(s, line), section, name)
  {
    hide Values, SectionValues, Lexed, FirstChar, Good, SectionsUnique, OpenSection, Put, Added, Blanks, Logged;
    NoEvents(section, name);
    if s.mode == GetObrace || line[0] == '\0' || (s.mode == InitComment && line[0] != '[') {
      return;
    }
    var s' := s.(lineNum := s.lineNum + 1, mode := StdLine);
    match Lexed(line)
    case Nothing =>
    case Failure(_) =>
    case Overrun =>
    case Section(sectionName, final) => OpenNotes(s', sectionName, final, section, name);
    case Close(final) =>
      var current := At(s.root, s.path);
      ValuesPut(s.root, s.path, current.(final := current.final || final), section, name);
    case Relation(relation, value, final) =>
      ChildNotes(s, Tree(relation, Some(value), final, []), section, name);
      if |s.path| == 1 {
        LoggedOne(Event(At(s.root, s.path).name, relation, value), section, name);
      }
    case Open(sectionName, final, _) => ChildNotes(s, Tree(sectionName, None, final, []), section, name);
  }

  lemma NoEvents(section: string, name: string)
    ensures Logged([], section, name) == []
  {
  }

  lemma OpenNotes(s: State, sectionName: string, final: bool, section: string, name: string)
    requires SectionsUnique(s.root.children)
    ensures SectionValues(OpenSection(s, sectionName, final).root.children, section, name)
            == SectionValues(s.root.children, section, name)
  {
    match FindSection(s.root.children, sectionName)
    case Some(k) =>
      var child := s.root.children[k];
      SectionValuesReplaced(s.root.children, k, child.(final := child.final || final), section, name);
      SectionValuesAt(s.root.children, k, name);
    case None =>
      SectionValuesAdded(s.root.children, Tree(sectionName, None, final, []), section, name);
  }

  lemma ChildNotes(s: State, child: Tree, section: string, name: string)
    requires Valid(s) && s.path != []
    ensures SectionValues(AddChild(s, child).children, section, name)
            == SectionValues(s.root.children, section, name)
               + if |s.path| == 1 && section == At(s.root, s.path).name && child.name == name && child.value.Some?
                 then [child.value.value] else []
  {
    hide Values, SectionValues;
    var current := At(s.root, s.path);
    ValuesPut(s.root, s.path, current.(children := Added(current.children, child)), section, name);
    if |s.path| == 1 && section == current.name {
      GoodAt(s.root, s.path);
      ValuesAdded(current.children, child, name);
      SectionValuesAt(s.root.children, s.path[0], name);
    }
  }

  lemma {:induction false} RunNotes(s: State, lines: seq<Buffer>, section: string, name: string)
    requires Valid(s) && Run(s, lines).Ok?
    ensures SectionValues(Run(s, lines).state.root.children, section, name)
            == SectionValues(s.root.children, section, name) + Logged(Log(s, lines), section, name)
    decreases |lines|
  {
    if lines != [] {
      hide Step, SectionValues, Logged, Noted;
      StepKeepsValid(s, lines[0]);
      StepNotes(s, lines[0], section, name);
      var next := Step(s, lines[0]).state;
      RunNotes(next, lines[1..], section, name);
      LoggedAppend(Noted(s, lines[0]), Log(next, lines[1..]), section, name);
    }
  }

  // After parsing, a look-up in a section finds the value given first in the file, by whichever block
  // of that section, and nothing just when no block of the section gives one.
  lemma LookupAfterParsing(lines: seq<Buffer>, section: string, name: string)
    requires Parse(lines).Ok?
    ensures var values := Logged(Log(Start(), lines), section, name);
            GetValue(Parse(lines).state.root, [section, name]) == if values == [] then None else Some(values[0])
  {
    hide Run, Logged;
    StartValid();
    RunNotes(Start(), lines, section, name);
    assert SectionValues(EMPTY.children, section, name) == [];
    GetIsSectionValues(Run(Start(), lines).state.root, section, name);
  }

  lemma GetIsSectionValues(root: Tree, section: string, name: string)
    ensures var values := SectionValues(root.children, section, name);
            GetValue(root, [section, name]) == if values == [] then None else Some(values[0])
  {
    hide Values;
    NoChildren(name);
    assert [section, name][..1] == [section] && [section][1..] == [];
    match FindSection(root.children, section)
    case None => assert Walk(root, [section]) == None;
    case Some(k) =>
      assert Walk(root.children[k], []) == Some(root.children[k]);
      assert Walk(root, [section]) == Some(root.children[k]);
  }
}
