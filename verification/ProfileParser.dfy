/** Parsing line by line into linked nodes: the same steps as on the tree that the nodes stand for. */
module ProfileParser {
  import opened Wrappers
  import opened ProfileText
  import opened ProfileLine
  import opened ProfileTree
  import opened ProfileNodes

  // Marks do not matter to the links.
  twostate lemma MarksKeepLinks(nodes: set<Node>)
    requires old(AllLinked(nodes))
    requires forall k :: k in nodes ==>
               && k.children == old(k.children) && k.firstChild == old(k.firstChild) && k.groupLevel == old(k.groupLevel)
               && k.parent == old(k.parent) && k.next == old(k.next) && k.prev == old(k.prev)
    ensures AllLinked(nodes)
  {
    hide Sorted, Labels;
    forall m | m in nodes
      ensures m.Linked(nodes)
    {
      assert old(m.Linked(nodes));
      forall i | 0 <= i < |m.children|
        ensures m.InPlace(m.children, i, nodes)
      {
        assert old(m.InPlace(m.children, i, nodes));
      }
    }
  }

  // Marks a node as final.
  method MarkFinal(node: Node, ghost nodes: set<Node>)
    requires node in nodes && AllLinked(nodes)
    modifies node`final
    ensures node.final && AllLinked(nodes)
  {
    node.final := true;
    MarksKeepLinks(nodes);
  }

  class Parser {
    var mode: Mode
    var groupLevel: nat
    var lineNum: nat
    const root: Node
    var current: Node?
    ghost var nodes: set<Node>

    // The nodes are well linked, and stand for this tree.
    ghost predicate Holds(t: Tree)
      reads `nodes, nodes
    {
      AllLinked(nodes) && Rooted(nodes, root) && Mirrors(root, t, nodes)
    }

    // The parser is in the state in which the lines read so far leave the tree.
    ghost predicate Represents(s: State)
      reads this, nodes
    {
      && mode == s.mode && groupLevel == s.level && lineNum == s.lineNum && Holds(s.root)
      && (if s.path == [] then current == null
          else current != null && current in nodes && Leads(root, s.path, current, nodes))
    }

    constructor ()
      ensures Represents(Start()) && fresh(nodes)
    {
      mode, groupLevel, lineNum, current := InitComment, 0, 0, null;
      root := new Node("(root)", None, null, null, null);
      new;
      nodes := {root};
      LeafLinked(root, nodes);
    }

    twostate lemma RootedStays(new section: Node, new node: Node, nodes: set<Node>)
      requires section in nodes && node !in nodes && root in nodes && old(Rooted(nodes, root))
      requires forall k :: k in nodes ==> k.parent == old(k.parent) && k.groupLevel == old(k.groupLevel)
      requires forall k :: k in nodes && k != section ==> k.children == old(k.children)
      requires (forall c :: c in old(section.children) ==> c in section.children) && node in section.children && node.parent == section
      ensures Rooted(nodes + {node}, root)
    {
    }

    // Adds a child to the section at the end of a path.
    method AddChildNode(section: Node, name: string, value: Option<string>, final: bool, ghost s: State) returns (node: Node)
      requires Holds(s.root) && section in nodes && section.value.None? && Leads(root, s.path, section, nodes)
      modifies `nodes, nodes
      ensures fresh(node) && nodes == old(nodes) + {node} && PathIn(s.root, s.path)
      ensures Holds(AddChild(s, Tree(name, value, final, []))) && Leads(root, s.path, section, nodes)
      ensures Leads(root, s.path + [Position(At(s.root, s.path).children, name)], node, nodes)
    {
      hide AllLinked, Mirrors, Leads, Position, AddChild;
      MirrorAt(root, s.root, s.path, section, nodes);
      ghost var was := nodes;
      SamePositions(section, At(s.root, s.path), nodes, name);
      node := AddMarkedNode(section, name, value, final, nodes);
      nodes := nodes + {node};
      ChildAdded(root, section, s, node, was, nodes);
      RootedStays(section, node, was);
    }

    // Marks the node at the end of a path.
    method Mark(node: Node, ghost s: State)
      requires Holds(s.root) && node in nodes && Leads(root, s.path, node, nodes)
      modifies node`final
      ensures PathIn(s.root, s.path) && Holds(Put(s.root, s.path, At(s.root, s.path).(final := true)))
      ensures Leads(root, s.path, node, nodes)
    {
      hide AllLinked, Mirrors, Leads;
      MirrorAt(root, s.root, s.path, node, nodes);
      ghost var t := At(s.root, s.path);
      MarkFinal(node, nodes);
      MarkedMirrors(node, t, nodes);
      StillLeads(root, s.path, node, nodes, nodes);
      PutMirrors(root, s.root, s.path, node, t.(final := true), nodes, nodes);
      StillRooted();
    }

    twostate lemma StillRooted()
      requires nodes == old(nodes) && old(Rooted(nodes, root))
      requires forall k :: k in nodes ==> k.parent == old(k.parent) && k.groupLevel == old(k.groupLevel) && k.children == old(k.children)
      ensures Rooted(nodes, root)
    {
    }

    // Looks for the first section with a name.
    method FindSectionNode(section: Node, name: string, ghost t: Tree) returns (found: Node?, ghost at: nat)
      requires section in nodes && AllLinked(nodes) && Mirrors(section, t, nodes)
      ensures match FindSection(t.children, name)
              case None => found == null
              case Some(k) => found != null && at == k < |section.children| && found == section.children[k]
    {
      hide Sorted;
      var p := section.firstChild;
      at := 0;
      found := null;
      MirrorLabels(section, t, nodes);
      assert section.Linked(nodes);
      while p != null
        invariant at <= |section.children|
        invariant p == if at < |section.children| then section.children[at] else null
        invariant forall i :: 0 <= i < at ==> t.children[i].name != name || t.children[i].value.Some?
        decreases |section.children| - at
      {
        assert section.InPlace(section.children, at, nodes);
        assert Labels(section.children)[at].name == t.children[at].name;
        if p.name == name && p.value.None? {
          FirstFound(t.children, at, name);
          found := p;
          return;
        }
        p, at := p.next, at + 1;
      }
    }

    // A section line finds the section or adds it.
    method EnterSection(name: string, final: bool, ghost s: State)
      requires Represents(s)
      requires s.root.value.None?
      modifies this, nodes
      ensures fresh(nodes - old(nodes)) && Represents(OpenSection(s, name, final))
    {
      hide Mirrors, Rooted, AllLinked, OpenSection, AddChild, Put, At, Position, FindSection;
      RootFacts(root, s.root, nodes);
      var found;
      ghost var at;
      found, at := FindSectionNode(root, name, s.root);
      if found != null {
        OpenFound(s, name, at, final);
        LeadsDeeper(root, [], root, at, nodes);
        assert [] + [at] == [at];
        ChildOf(root, at, nodes);
        current := found;
        if final {
          Mark(found, s.(path := [at]));
        }
      } else {
        OpenNew(s, name, final);
        assert [] + [Position(s.root.children, name)] == [Position(s.root.children, name)];
        current := AddChildNode(root, name, None, final, s.(path := []));
      }
    }

    // A closing brace goes back to the section around the current one.
    method LeaveSection(final: bool, ghost s: State)
      requires Represents(s) && s.path != [] && s.level > 0 && |s.path| > 1
      modifies this, nodes
      ensures nodes == old(nodes) && PathIn(s.root, s.path)
      ensures var section := At(s.root, s.path);
              Represents(s.(root := Put(s.root, s.path, section.(final := section.final || final)),
                            path := s.path[..|s.path| - 1], level := s.level - 1))
    {
      hide AllLinked, Mirrors, Leads, Put, At, PathIn;
      MirrorAt(root, s.root, s.path, current, nodes);
      if final {
        Mark(current, s);
      } else {
        UnmarkedSame(s);
      }
      LeadsUp(root, s.path, current, nodes);
      current := current.parent;
      groupLevel := groupLevel - 1;
    }

    // A relation, or the beginning of a section inside the current one.
    method AddToCurrent(name: string, value: Option<string>, final: bool, ghost s: State) returns (node: Node)
      requires Represents(s) && s.path != [] && Valid(s)
      modifies `nodes, nodes
      ensures fresh(node) && nodes == old(nodes) + {node} && PathIn(s.root, s.path)
      ensures Represents(s.(root := AddChild(s, Tree(name, value, final, []))))
      ensures Leads(root, s.path + [Position(At(s.root, s.path).children, name)], node, nodes)
    {
      hide AllLinked, Leads, Position, AddChild, Good, SectionsUnique, PathIn;
      MirrorAt(root, s.root, s.path, current, nodes);
      node := AddChildNode(current, name, value, final, s);
    }

    // One line in its buffer, once its meaning is known.
    method ApplyMeaning(meaning: Meaning, ghost line: Buffer, ghost s: State) returns (code: nat)
      requires Represents(s) && s.mode == StdLine && PathIn(s.root, s.path) && s.root.value.None? && meaning == Lexed(line)
      requires Valid(s) || meaning.Section? || meaning.Failure?
      requires !meaning.Overrun? && (FirstChar(line) == '[' ==> s.level == 0)
      modifies this, nodes
      ensures fresh(nodes - old(nodes))
      ensures match Apply(s, line) case Err(c) => code == c case Ok(next) => code == 0 && Represents(next) case Undefined => false
    {
      hide AllLinked, Mirrors, Leads, Rooted, Position, AddChild, OpenSection, Put, Good, SectionsUnique, Lexed, FirstChar;
      match meaning {
        case Nothing =>
          return 0;
        case Failure(error) =>
          return error;
        case Overrun =>
          assert false;
        case Section(name, final) =>
          EnterSection(name, final, s);
          return 0;
        case Close(final) =>
          if groupLevel == 0 {
            return PROF_EXTRA_CBRACE;
          }
          LeaveSection(final, s);
          return 0;
        case Relation(name, value, final) =>
          var _ := AddToCurrent(name, Some(value), final, s);
          return 0;
        case Open(name, final, brace) =>
          current := AddToCurrent(name, None, final, s);
          groupLevel := groupLevel + 1;
          mode := if brace then StdLine else GetObrace;
          return 0;
      }
    }

    // One line in its buffer, in which null characters are written and quoted strings replaced.
    method ParseLine(buf: array<char>, ghost s: State) returns (code: nat)
      requires Valid(s) && Represents(s) && IsBuffer(buf[..]) && Step(s, buf[..]) != Undefined
      modifies this, nodes, buf
      ensures fresh(nodes - old(nodes))
      ensures match Step(s, old(buf[..])) case Err(c) => code == c case Ok(next) => code == 0 && Represents(next) case Undefined => false
    {
      hide AllLinked, Mirrors, Leads, Rooted, Good, SectionsUnique, At, Lexed, Blanks, StrippedLine, Apply;
      lineNum := lineNum + 1;
      if mode == GetObrace {
        var cp := SkipBlanks(buf, 0);
        if buf[cp] != '{' {
          return PROF_MISSING_OBRACE;
        }
        mode := StdLine;
        return 0;
      }
      if mode == InitComment {
        if buf[0] != '[' {
          return 0;
        }
        mode := StdLine;
      }
      if buf[0] == '\0' {
        return 0;
      }
      code := ParseText(buf, s.(lineNum := s.lineNum + 1, mode := StdLine));
    }

    // The rest of a line that is not skipped.
    method ParseText(buf: array<char>, ghost s: State) returns (code: nat)
      requires Represents(s) && s.mode == StdLine && PathIn(s.root, s.path) && s.root.value.None?
      requires IsBuffer(buf[..]) && Apply(s, buf[..]) != Undefined && (Valid(s) || buf[0] == '[')
      modifies this, nodes, buf
      ensures fresh(nodes - old(nodes))
      ensures match Apply(s, old(buf[..])) case Err(c) => code == c case Ok(next) => code == 0 && Represents(next) case Undefined => false
    {
      hide AllLinked, Mirrors, Leads, Rooted, Valid, Lexed, Blanks, StrippedLine;
      ghost var line := buf[..];
      StripLine(buf);
      var cp := SkipBlanks(buf, 0);
      if buf[cp] == '[' && groupLevel > 0 {
        return PROF_SECTION_NOTOP;
      }
      var meaning := ReadStripped(buf, line, cp);
      code := ApplyMeaning(meaning, line, s);
    }
  }

  lemma RootFacts(root: Node, t: Tree, nodes: set<Node>)
    requires Rooted(nodes, root) && Mirrors(root, t, nodes)
    ensures root in nodes && root.value == t.value
  {
  }

  lemma UnmarkedSame(s: State)
    requires PathIn(s.root, s.path)
    ensures Put(s.root, s.path, At(s.root, s.path).(final := At(s.root, s.path).final || false)) == s.root
  {
    PutSame(s.root, s.path);
    var t := At(s.root, s.path);
    assert t.(final := t.final || false) == t;
  }

  lemma OpenFound(s: State, name: string, k: nat, final: bool)
    requires FindSection(s.root.children, name) == Some(k)
    ensures PathIn(s.root, [k])
    ensures OpenSection(s, name, final)
            == s.(root := if final then Put(s.root, [k], At(s.root, [k]).(final := true)) else s.root, path := [k])
  {
    assert [] + [k] == [k];
    Deeper(s.root, [], k, s.root.children[k].(final := true));
    assert s.root.children[k].(final := s.root.children[k].final) == s.root.children[k];
    assert s.root.children[k := s.root.children[k]] == s.root.children;
  }

  lemma OpenNew(s: State, name: string, final: bool)
    requires FindSection(s.root.children, name).None?
    ensures var top := s.(path := []);
            && At(top.root, top.path) == s.root
            && OpenSection(s, name, final)
               == s.(root := AddChild(top, Tree(name, None, final, [])), path := [Position(s.root.children, name)])
  {
  }

  lemma FirstFound(children: seq<Tree>, at: nat, name: string)
    requires at < |children| && children[at].name == name && children[at].value.None?
    requires forall i :: 0 <= i < at ==> children[i].name != name || children[i].value.Some?
    ensures FindSection(children, name) == Some(at)
  {
  }

  // Adds a node, and marks it if it is to be final.
  method AddMarkedNode(section: Node, name: string, value: Option<string>, final: bool, ghost nodes: set<Node>) returns (node: Node)
    requires section in nodes && AllLinked(nodes) && section.value.None?
    modifies nodes
    ensures fresh(node) && node.name == name && node.value == value && node.final == final && node.children == []
    ensures node.parent == section && AllLinked(nodes + {node})
    ensures section.children == Inserted(old(section.children), Position(Labels(old(section.children)), name), node)
    ensures forall k :: k in nodes ==> Kept(k, section)
  {
    hide AllLinked, Position, Labels;
    var _, added := AddNode(section, name, value, nodes);
    node := added;
    ParentOfAdded(section, Position(Labels(old(section.children)), name), nodes + {node});
    if final {
      MarkFinal(node, nodes + {node});
    }
  }

  lemma ParentOfAdded(section: Node, at: nat, nodes: set<Node>)
    requires section in nodes && AllLinked(nodes) && at < |section.children|
    ensures section.children[at].parent == section
  {
    ChildOf(section, at, nodes);
  }

  lemma SamePositions(section: Node, t: Tree, nodes: set<Node>, name: string)
    requires Mirrors(section, t, nodes)
    ensures Position(Labels(section.children), name) == Position(t.children, name)
  {
    MirrorLabels(section, t, nodes);
    SamePosition(Labels(section.children), t.children, name);
  }

  // What adding a child does to the tree that the root stands for.
  twostate lemma ChildAdded(new root: Node, new section: Node, new s: State, new node: Node, nodes: set<Node>, new more: set<Node>)
    requires section in nodes && root in nodes && node !in nodes && more == nodes + {node}
    requires old(AllLinked(nodes)) && AllLinked(more)
    requires forall k :: k in nodes ==> Kept(k, section)
    requires old(Mirrors(root, s.root, nodes)) && old(Leads(root, s.path, section, nodes))
    requires node.children == [] && PathIn(s.root, s.path) && old(Mirrors(section, At(s.root, s.path), nodes))
    requires var at := Position(At(s.root, s.path).children, node.name);
             at <= |old(section.children)| && section.children == Inserted(old(section.children), at, node)
    ensures Mirrors(root, AddChild(s, Tree(node.name, node.value, node.final, [])), more) && Leads(root, s.path, section, more)
    ensures Leads(root, s.path + [Position(At(s.root, s.path).children, node.name)], node, more)
  {
    hide AllLinked, Mirrors, Leads, Position, Added;
    var t := At(s.root, s.path);
    AddedMirrors(section, t, node, nodes, more);
    StillLeads(root, s.path, section, nodes, more);
    PutMirrors(root, s.root, s.path, section, t.(children := Added(t.children, Tree(node.name, node.value, node.final, []))), nodes, more);
    LeadsDeeper(root, s.path, section, Position(t.children, node.name), more);
  }
}
