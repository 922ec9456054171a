/** Searching and printing the linked nodes: the same results as for the tree that they stand for. */
module ProfileStore {
  import opened Wrappers
  import opened ProfileWords
  import opened ProfileTree
  import opened ProfileLookup
  import opened ProfilePrint
  import opened ProfileNodes

  const PROF_NO_SECTION := 3
  const PROF_NO_RELATION := 4

  // What a search with profile_find_node accepts: sections, or relations, perhaps with a given value.
  datatype Query = Query(name: Option<string>, value: Option<string>, sections: bool) {
    predicate Accepts(name: string, value: Option<string>)
    {
      && (this.name.None? || name == this.name.value)
      && (if sections then value.None? else value.Some? && (this.value.None? || value == this.value))
    }
  }

  // The first child from number `from` on that is accepted.
  function NextMatch(children: seq<Tree>, q: Query, from: nat): (at: nat)
    requires from <= |children|
    ensures from <= at <= |children|
    ensures forall i :: from <= i < at ==> !q.Accepts(children[i].name, children[i].value)
    ensures at < |children| ==> q.Accepts(children[at].name, children[at].value)
    decreases |children| - from
  {
    if from == |children| || q.Accepts(children[from].name, children[from].value) then from
    else NextMatch(children, q, from + 1)
  }

  ghost function NodeAt(children: seq<Node>, i: nat): Node?
    requires i <= |children|
  {
    if i < |children| then children[i] else null
  }

  // One of the two loops of profile_find_node.
  method Search(section: Node, q: Query, start: Node?, ghost from: nat, ghost t: Tree, ghost nodes: set<Node>) returns (p: Node?)
    requires section in nodes && AllLinked(nodes) && Mirrors(section, t, nodes)
    requires from <= |t.children| && start == NodeAt(section.children, from)
    ensures p == NodeAt(section.children, NextMatch(t.children, q, from))
  {
    MirrorLabels(section, t, nodes);
    hide AllLinked, Mirrors;
    p := start;
    ghost var i := from;
    while p != null
      invariant from <= i <= |t.children| == |section.children| && p == NodeAt(section.children, i)
      invariant NextMatch(t.children, q, i) == NextMatch(t.children, q, from)
      decreases |t.children| - i
    {
      assert Labels(section.children)[i].name == t.children[i].name;
      if q.Accepts(p.name, p.value) {
        break;
      }
      NextOf(section, i, nodes);
      p := p.next;
      i := i + 1;
    }
  }

  lemma NextOf(section: Node, i: nat, nodes: set<Node>)
    requires section in nodes && AllLinked(nodes) && i < |section.children|
    ensures section.children[i].next == NodeAt(section.children, i + 1)
  {
    hide Sorted, Labels;
    assert section.Linked(nodes);
    assert section.InPlace(section.children, i, nodes);
  }

  lemma FirstOf(section: Node, nodes: set<Node>)
    requires section in nodes && AllLinked(nodes)
    ensures section.firstChild == NodeAt(section.children, 0)
  {
    hide Sorted, Labels;
    assert section.Linked(nodes);
  }

  lemma SameLength(n: Node, t: Tree, nodes: set<Node>)
    requires Mirrors(n, t, nodes)
    ensures |n.children| == |t.children|
  {
  }

  // Finds a child, and the one that the next call will find; no state stands for the first call.
  method FindNode(section: Node, q: Query, state: Node?, ghost from: nat, ghost t: Tree, ghost nodes: set<Node>)
    returns (code: nat, node: Node?, newState: Node?)
    requires section in nodes && AllLinked(nodes) && Mirrors(section, t, nodes) && from <= |t.children|
    requires if state == null then from == 0 else from < |t.children| && state == section.children[from]
    ensures var at := NextMatch(t.children, q, from);
            if at == |t.children| then
              code == (if q.sections then PROF_NO_SECTION else PROF_NO_RELATION) && node == null && newState == null
            else
              code == 0 && node == section.children[at] && newState == NodeAt(section.children, NextMatch(t.children, q, at + 1))
  {
    hide AllLinked, Mirrors, NextMatch, Query.Accepts;
    FirstOf(section, nodes);
    SameLength(section, t, nodes);
    var start := if state != null then state else section.firstChild;
    var p := Search(section, q, start, from, t, nodes);
    if p == null {
      return if q.sections then PROF_NO_SECTION else PROF_NO_RELATION, null, null;
    }
    ghost var at := NextMatch(t.children, q, from);
    NextOf(section, at, nodes);
    var further := Search(section, q, p.next, at + 1, t, nodes);
    return 0, p, further;
  }

  // ---------- look-up ----------

  lemma {:induction false} FirstSection(children: seq<Tree>, name: string)
    ensures var at := NextMatch(children, Query(Some(name), None, true), 0);
            FindSection(children, name) == if at == |children| then None else Some(at)
  {
    var at := NextMatch(children, Query(Some(name), None, true), 0);
    if at == |children| {
      NoSection(children, name);
    } else {
      SectionHere(children, at, name);
    }
  }

  lemma NoSection(children: seq<Tree>, name: string)
    requires forall i :: 0 <= i < |children| ==> children[i].name != name || children[i].value.Some?
    ensures FindSection(children, name) == None
  {
  }

  lemma SectionHere(children: seq<Tree>, at: nat, name: string)
    requires at < |children| && children[at].name == name && children[at].value.None?
    requires forall i :: 0 <= i < at ==> children[i].name != name || children[i].value.Some?
    ensures FindSection(children, name) == Some(at)
  {
  }

  lemma {:induction false} FirstValue(children: seq<Tree>, name: string, from: nat)
    requires from <= |children|
    ensures var at := NextMatch(children, Query(Some(name), None, false), from);
            var values := Values(children[from..], name);
            if at == |children| then values == [] else values != [] && Some(values[0]) == children[at].value
    decreases |children| - from
  {
    if from < |children| {
      FirstValue(children, name, from + 1);
      assert children[from..][0] == children[from] && children[from..][1..] == children[from + 1..];
    }
  }

  // Follows the names to a section, and finds the first relation with the last name there.
  method GetValue(root: Node, names: seq<string>, ghost t: Tree, ghost nodes: set<Node>) returns (code: nat, value: Option<string>)
    requires root in nodes && AllLinked(nodes) && Mirrors(root, t, nodes) && names != []
    ensures value == ProfileLookup.GetValue(t, names)
    ensures code == if value.None? then PROF_NO_RELATION else 0
  {
    hide AllLinked, NextMatch, Values, FindSection, Query.Accepts;
    var section := root;
    ghost var tree, path := t, names[..|names| - 1];
    var i := 0;
    assert path[0..] == path;
    while i < |names| - 1
      invariant i <= |names| - 1 && section in nodes && Mirrors(section, tree, nodes)
      invariant Walk(t, path) == Walk(tree, path[i..])
      decreases |names| - i
    {
      FirstOf(section, nodes);
      FirstSection(tree.children, names[i]);
      ghost var at := NextMatch(tree.children, Query(Some(names[i]), None, true), 0);
      WalkStep(tree, path, i);
      var p := Search(section, Query(Some(names[i]), None, true), section.firstChild, 0, tree, nodes);
      if p == null {
        return PROF_NO_RELATION, None;
      }
      section := p;
      tree := tree.children[at];
      i := i + 1;
    }
    assert path[i..] == [];
    FirstOf(section, nodes);
    FirstValue(tree.children, names[i], 0);
    assert tree.children[0..] == tree.children;
    ghost var at := NextMatch(tree.children, Query(Some(names[i]), None, false), 0);
    var p := Search(section, Query(Some(names[i]), None, false), section.firstChild, 0, tree, nodes);
    if p == null {
      return PROF_NO_RELATION, None;
    }
    assert Mirrors(section.children[at], tree.children[at], nodes);
    return 0, p.value;
  }

  lemma WalkStep(t: Tree, names: seq<string>, i: nat)
    requires i < |names|
    ensures Walk(t, names[i..]) == match FindSection(t.children, names[i])
                                   case None => None
                                   case Some(k) => Walk(t.children[k], names[i + 1..])
  {
    assert names[i..][0] == names[i] && names[i..][1..] == names[i + 1..];
  }

  // ---------- printing ----------

  const RELATIONS := Query(None, None, false)
  const SECTIONS := Query(None, None, true)

  lemma {:induction false} SkipToRelation(children: seq<Tree>, from: nat, level: nat)
    requires from <= |children|
    ensures RelationLines(children[from..], level) == RelationLines(children[NextMatch(children, RELATIONS, from)..], level)
    decreases |children| - from
  {
    if from < |children| && children[from].value.None? {
      SkipToRelation(children, from + 1, level);
      RelationLinesFrom(children, from, level);
    }
  }

  lemma {:induction false} SkipToSection(children: seq<Tree>, from: nat, level: nat)
    requires from <= |children|
    ensures SectionLines(children[from..], level) == SectionLines(children[NextMatch(children, SECTIONS, from)..], level)
    decreases |children| - from
  {
    if from < |children| && children[from].value.Some? {
      SkipToSection(children, from + 1, level);
      SectionLinesFrom(children, from, level);
    }
  }

  // What the loops print for one match, and what is left to print after it.
  lemma PrintedRelation(children: seq<Tree>, from: nat, level: nat)
    requires from <= |children|
    ensures var at := NextMatch(children, RELATIONS, from);
            if at == |children| then RelationLines(children[from..], level) == []
            else
              var next := NextMatch(children, RELATIONS, at + 1);
              && children[at].value.Some?
              && RelationLines(children[from..], level)
                 == [RelationLine(level, children[at].name, children[at].value.value)] + RelationLines(children[next..], level)
              && (next == |children| ==> RelationLines(children[next..], level) == [])
  {
    hide RelationLine;
    var at := NextMatch(children, RELATIONS, from);
    SkipToRelation(children, from, level);
    NoLines(level);
    if at < |children| {
      RelationLinesFrom(children, at, level);
      SkipToRelation(children, at + 1, level);
    }
  }

  lemma PrintedSection(children: seq<Tree>, from: nat, level: nat)
    requires from <= |children|
    ensures var at := NextMatch(children, SECTIONS, from);
            if at == |children| then SectionLines(children[from..], level) == []
            else
              var next := NextMatch(children, SECTIONS, at + 1);
              && SectionLines(children[from..], level) == OneSection(children[at], level) + SectionLines(children[next..], level)
              && (next == |children| ==> SectionLines(children[next..], level) == [])
  {
    hide OneSection;
    var at := NextMatch(children, SECTIONS, from);
    SkipToSection(children, from, level);
    NoLines(level);
    if at < |children| {
      SectionLinesFrom(children, at, level);
      SkipToSection(children, at + 1, level);
    }
  }

  lemma MirroredChild(n: Node, t: Tree, i: nat, nodes: set<Node>)
    requires Mirrors(n, t, nodes) && i < |t.children|
    ensures i < |n.children| && Mirrors(n.children[i], t.children[i], nodes)
    ensures n.children[i].name == t.children[i].name && n.children[i].value == t.children[i].value
  {
  }

  lemma RegroupLines(a: seq<string>, b: seq<string>, c: seq<string>)
    ensures a + b + c == a + (b + c)
  {
  }

  // The first loop of dump_profile.
  method DumpRelations(section: Node, level: nat, ghost t: Tree, ghost nodes: set<Node>) returns (lines: seq<string>)
    requires section in nodes && AllLinked(nodes) && Mirrors(section, t, nodes)
    ensures lines == RelationLines(t.children, level)
  {
    hide AllLinked, Mirrors, NextMatch, RelationLines, RelationLine, Query.Accepts;
    SameLength(section, t, nodes);
    lines := [];
    var state: Node? := null;
    ghost var from := 0;
    assert t.children[0..] == t.children;
    while true
      invariant from <= |t.children|
      invariant if state == null then from == 0 else from < |t.children| && state == section.children[from]
      invariant lines + RelationLines(t.children[from..], level) == RelationLines(t.children, level)
      decreases |t.children| - from
    {
      var code, p, next := FindNode(section, RELATIONS, state, from, t, nodes);
      PrintedRelation(t.children, from, level);
      if code != 0 {
        return;
      }
      ghost var at := NextMatch(t.children, RELATIONS, from);
      MirroredChild(section, t, at, nodes);
      RegroupLines(lines, [RelationLine(level, p.name, p.value.value)],
                   RelationLines(t.children[NextMatch(t.children, RELATIONS, at + 1)..], level));
      lines := lines + [RelationLine(level, p.name, p.value.value)];
      state, from := next, NextMatch(t.children, RELATIONS, at + 1);
      if next == null {
        return;
      }
    }
  }

  // Prints a section: its relations, then its sections with what is in them.
  method DumpProfile(section: Node, level: nat, ghost t: Tree, ghost nodes: set<Node>) returns (lines: seq<string>)
    requires section in nodes && AllLinked(nodes) && Mirrors(section, t, nodes)
    ensures lines == Dump(t, level)
    decreases t, 1
  {
    hide AllLinked, NextMatch, RelationLines, SectionLines, OneSection, Query.Accepts;
    lines := DumpRelations(section, level, t, nodes);
    ghost var relations := lines;
    var state: Node? := null;
    ghost var from := 0;
    assert t.children[0..] == t.children;
    while true
      invariant from <= |t.children|
      invariant if state == null then from == 0 else from < |t.children| && state == section.children[from]
      invariant lines + SectionLines(t.children[from..], level) == relations + SectionLines(t.children, level)
      decreases |t.children| - from
    {
      var code, p, next := FindNode(section, SECTIONS, state, from, t, nodes);
      PrintedSection(t.children, from, level);
      if code != 0 {
        return;
      }
      ghost var at := NextMatch(t.children, SECTIONS, from);
      assert Mirrors(section.children[at], t.children[at], nodes);
      var one := DumpSection(p, level, t.children[at], nodes);
      lines := lines + one;
      state, from := next, NextMatch(t.children, SECTIONS, at + 1);
      if next == null {
        return;
      }
    }
  }

  // Prints one section with its head and its end.
  method DumpSection(p: Node, level: nat, ghost x: Tree, ghost nodes: set<Node>) returns (lines: seq<string>)
    requires p in nodes && AllLinked(nodes) && Mirrors(p, x, nodes)
    ensures lines == OneSection(x, level)
    decreases x, 2
  {
    hide AllLinked, Dump, SectionLine, OpenLine, CloseLine;
    var inner := DumpProfile(p, level + 1, x, nodes);
    if level == 0 {
      lines := [SectionLine(p.name, p.final)] + inner + ["\n"];
    } else {
      lines := [OpenLine(level, p.name)] + inner + [CloseLine(level, p.final)];
    }
  }
}
