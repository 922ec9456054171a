/** The tree that the lines of a configuration file build, as a value. */
module ProfileTree {
  import opened Wrappers
  import opened ProfileText
  import opened ProfileLine

  const PROF_EXTRA_CBRACE := 17
  const PROF_MISSING_OBRACE := 18

  // A relation has a value; a section has none, but may have children.
  datatype Tree = Tree(name: string, value: Option<string>, final: bool, children: seq<Tree>)

  // ---------- the order of names ----------

  // strcmp(a, b) > 0
  predicate Greater(a: string, b: string)
  {
    if a == "" then false
    else if b == "" then true
    else if a[0] != b[0] then a[0] > b[0]
    else Greater(a[1..], b[1..])
  }

  // They agree up to n, and there b ends or has the smaller character.
  ghost predicate GreaterAt(a: string, b: string, n: nat)
  {
    n < |a| && n <= |b| && a[..n] == b[..n] && (n == |b| || a[n] > b[n])
  }

  // The order of strcmp: the first place where they differ decides, or the longer one is greater.
  lemma {:induction false} GreaterExactly(a: string, b: string)
    ensures Greater(a, b)
            <==> exists n: nat :: GreaterAt(a, b, n)
  {
    if a != "" {
      if b == "" {
        assert GreaterAt(a, b, 0);
      } else if a[0] != b[0] {
        assert a[0] > b[0] ==> GreaterAt(a, b, 0);
        forall n: nat | 0 < n < |a| && n <= |b|
          ensures a[..n] != b[..n]
        {
          assert a[..n][0] == a[0] && b[..n][0] == b[0];
        }
      } else {
        GreaterExactly(a[1..], b[1..]);
        ShiftedPrefix(a, b);
      }
    }
  }

  lemma ShiftedPrefix(a: string, b: string)
    requires a != "" && b != "" && a[0] == b[0]
    ensures (exists n: nat :: GreaterAt(a, b, n)) <==> exists n: nat :: GreaterAt(a[1..], b[1..], n)
  {
    if n: nat :| GreaterAt(a, b, n) {
      assert n > 0;
      assert a[..n][1..] == a[1..][..n - 1] && b[..n][1..] == b[1..][..n - 1];
      assert GreaterAt(a[1..], b[1..], n - 1);
    }
    if n: nat :| GreaterAt(a[1..], b[1..], n) {
      assert a[..n + 1] == [a[0]] + a[1..][..n] && b[..n + 1] == [b[0]] + b[1..][..n];
      assert GreaterAt(a, b, n + 1);
    }
  }

  lemma {:induction false} GreaterTotal(a: string, b: string)
    ensures !(Greater(a, b) && Greater(b, a))
    ensures !Greater(a, b) && !Greater(b, a) <==> a == b
  {
    if a != "" && b != "" && a[0] == b[0] {
      GreaterTotal(a[1..], b[1..]);
      assert a == [a[0]] + a[1..] && b == [b[0]] + b[1..];
    }
  }

  lemma {:induction false} GreaterTransitive(a: string, b: string, c: string)
    requires !Greater(a, b) && !Greater(b, c)
    ensures !Greater(a, c)
  {
    if a != "" && b != "" && c != "" && a[0] == c[0] {
      if a[0] == b[0] {
        GreaterTransitive(a[1..], b[1..], c[1..]);
      }
    }
  }

  // ---------- children in order ----------

  ghost predicate Sorted(children: seq<Tree>)
  {
    forall i, j :: 0 <= i < j < |children| ==> !Greater(children[i].name, children[j].name)
  }

  // Where a new child goes: before the first child with a greater name.
  function Position(children: seq<Tree>, name: string): (at: nat)
    ensures at <= |children|
    ensures forall i :: 0 <= i < at ==> !Greater(children[i].name, name)
    ensures at < |children| ==> Greater(children[at].name, name)
  {
    if children == [] || Greater(children[0].name, name) then 0 else 1 + Position(children[1..], name)
  }

  function Added(children: seq<Tree>, child: Tree): (more: seq<Tree>)
    ensures |more| == |children| + 1 && more[Position(children, child.name)] == child
  {
    var at := Position(children, child.name);
    children[..at] + [child] + children[at..]
  }

  lemma AfterPosition(children: seq<Tree>, name: string, i: nat)
    requires Sorted(children) && Position(children, name) <= i < |children|
    ensures Greater(children[i].name, name)
  {
    hide Greater, Position;
    var at := Position(children, name);
    if at < i && !Greater(children[i].name, name) {
      GreaterTransitive(children[at].name, children[i].name, name);
    }
  }

  lemma AddedSorted(children: seq<Tree>, child: Tree)
    requires Sorted(children)
    ensures Sorted(Added(children, child))
  {
    var at, more := Position(children, child.name), Added(children, child);
    forall i, j | 0 <= i < j < |more|
      ensures !Greater(more[i].name, more[j].name)
    {
      if i == at {
        AfterPosition(children, child.name, j - 1);
        GreaterTotal(child.name, children[j - 1].name);
      }
    }
  }

  // ---------- places in the tree ----------

  predicate PathIn(t: Tree, path: seq<nat>)
  {
    path == [] || (path[0] < |t.children| && PathIn(t.children[path[0]], path[1..]))
  }

  function At(t: Tree, path: seq<nat>): Tree
    requires PathIn(t, path)
  {
    if path == [] then t else At(t.children[path[0]], path[1..])
  }

  function Put(t: Tree, path: seq<nat>, x: Tree): Tree
    requires PathIn(t, path)
  {
    if path == [] then x else t.(children := t.children[path[0] := Put(t.children[path[0]], path[1..], x)])
  }

  lemma {:induction false} PutAt(t: Tree, path: seq<nat>, x: Tree)
    requires PathIn(t, path)
    ensures PathIn(Put(t, path, x), path) && At(Put(t, path, x), path) == x
  {
    if path != [] {
      PutAt(t.children[path[0]], path[1..], x);
    }
  }

  lemma {:induction false} PutPut(t: Tree, path: seq<nat>, x: Tree, y: Tree)
    requires PathIn(t, path)
    ensures PathIn(Put(t, path, x), path) && Put(Put(t, path, x), path, y) == Put(t, path, y)
  {
    PutAt(t, path, x);
    if path != [] {
      PutPut(t.children[path[0]], path[1..], x, y);
    }
  }

  lemma {:induction false} PutSame(t: Tree, path: seq<nat>)
    requires PathIn(t, path)
    ensures Put(t, path, At(t, path)) == t
  {
    if path != [] {
      PutSame(t.children[path[0]], path[1..]);
    }
  }

  lemma {:induction false} Deeper(t: Tree, path: seq<nat>, k: nat, x: Tree)
    requires PathIn(t, path) && k < |At(t, path).children|
    ensures PathIn(t, path + [k]) && At(t, path + [k]) == At(t, path).children[k]
    ensures Put(t, path + [k], x) == Put(t, path, At(t, path).(children := At(t, path).children[k := x]))
  {
    if path != [] {
      Deeper(t.children[path[0]], path[1..], k, x);
      assert (path + [k])[1..] == path[1..] + [k];
    } else {
      assert (path + [k])[1..] == [];
    }
  }

  lemma {:induction false} Shallower(t: Tree, path: seq<nat>)
    requires PathIn(t, path) && path != []
    ensures PathIn(t, path[..|path| - 1])
    ensures path[|path| - 1] < |At(t, path[..|path| - 1]).children|
  {
    var init := path[..|path| - 1];
    if |path| > 1 {
      Shallower(t.children[path[0]], path[1..]);
      assert init[1..] == path[1..][..|path| - 2];
    }
  }

  // ---------- parsing ----------

  datatype Mode = InitComment | StdLine | GetObrace

  datatype State = State(mode: Mode, level: nat, root: Tree, path: seq<nat>, lineNum: nat)

  // Undefined is for lines with a quoted string of which reading does not end within the buffer.
  datatype Result = Ok(state: State) | Err(code: nat) | Undefined

  const EMPTY := Tree("(root)", None, false, [])

  function Start(): State
  {
    State(InitComment, 0, EMPTY, [], 0)
  }

  // The first section with this name.
  function FindSection(children: seq<Tree>, name: string): (at: Option<nat>)
    ensures match at
            case None => forall i :: 0 <= i < |children| ==> children[i].name != name || children[i].value.Some?
            case Some(k) => k < |children| && children[k].name == name && children[k].value.None?
                            && forall i :: 0 <= i < k ==> children[i].name != name || children[i].value.Some?
  {
    if children == [] then None
    else if children[0].name == name && children[0].value.None? then Some(0)
    else match FindSection(children[1..], name)
      case None => None
      case Some(k) => Some(k + 1)
  }

  function OpenSection(s: State, name: string, final: bool): State
  {
    match FindSection(s.root.children, name)
    case Some(k) =>
      var child := s.root.children[k];
      s.(root := s.root.(children := s.root.children[k := child.(final := child.final || final)]), path := [k])
    case None =>
      s.(root := s.root.(children := Added(s.root.children, Tree(name, None, final, []))),
         path := [Position(s.root.children, name)])
  }

  // Adds a child to the current section.
  function AddChild(s: State, child: Tree): Tree
    requires PathIn(s.root, s.path)
  {
    var section := At(s.root, s.path);
    Put(s.root, s.path, section.(children := Added(section.children, child)))
  }

  function Apply(s: State, line: Buffer): Result
    requires PathIn(s.root, s.path)
  {
    if FirstChar(line) == '[' && s.level > 0 then Err(PROF_SECTION_NOTOP)
    else match Lexed(line)
      case Nothing => Ok(s)
      case Overrun => Undefined
      case Failure(code) => Err(code)
      case Section(name, final) => Ok(OpenSection(s, name, final))
      case Close(final) =>
        if s.level == 0 || s.path == [] then Err(PROF_EXTRA_CBRACE)
        else
          var section := At(s.root, s.path);
          Ok(s.(root := Put(s.root, s.path, section.(final := section.final || final)),
                path := s.path[..|s.path| - 1], level := s.level - 1))
      case Relation(name, value, final) => Ok(s.(root := AddChild(s, Tree(name, Some(value), final, []))))
      case Open(name, final, brace) =>
        Ok(s.(root := AddChild(s, Tree(name, None, final, [])), path := s.path + [Position(At(s.root, s.path).children, name)],
              level := s.level + 1, mode := if brace then StdLine else GetObrace))
  }

  // One line, in its buffer.
  function Step(s0: State, line: Buffer): Result
    requires PathIn(s0.root, s0.path)
  {
    var s := s0.(lineNum := s0.lineNum + 1);
    if s.mode == GetObrace then
      if line[Blanks(line, 0)] != '{' then Err(PROF_MISSING_OBRACE) else Ok(s.(mode := StdLine))
    else if s.mode == InitComment && line[0] != '[' then Ok(s)
    else if line[0] == '\0' then Ok(s)
    else Apply(s.(mode := StdLine), line)
  }

  // ---------- what every line keeps ----------

  // A node with a value has no children; the children are in order; and so on below.
  ghost predicate Good(t: Tree)
  {
    && (t.value.Some? ==> t.children == [])
    && Sorted(t.children)
    && forall i :: 0 <= i < |t.children| ==> Good(t.children[i])
  }

  // Every child of the root is a section, and no two have the same name.
  ghost predicate SectionsUnique(children: seq<Tree>)
  {
    && (forall i :: 0 <= i < |children| ==> children[i].value.None?)
    && (forall i, j :: 0 <= i < j < |children| ==> children[i].name != children[j].name)
  }

  // The level of the current section, counted from the root, is one more than the group level.
  ghost predicate Valid(s: State)
  {
    && Good(s.root) && s.root.value.None? && SectionsUnique(s.root.children)
    && PathIn(s.root, s.path) && At(s.root, s.path).value.None?
    && (if s.mode == InitComment then s.path == [] && s.level == 0 && s.root == EMPTY else |s.path| == s.level + 1)
  }

  lemma {:induction false} GoodAt(t: Tree, path: seq<nat>)
    requires Good(t) && PathIn(t, path)
    ensures Good(At(t, path))
  {
    if path != [] {
      GoodAt(t.children[path[0]], path[1..]);
    }
  }

  // Replacing a node by one with the same name keeps the tree good.
  lemma {:induction false} GoodPut(t: Tree, path: seq<nat>, x: Tree)
    requires Good(t) && PathIn(t, path) && Good(x) && x.name == At(t, path).name
    ensures Good(Put(t, path, x)) && Put(t, path, x).name == t.name
    ensures path != [] ==> Put(t, path, x).value == t.value && |Put(t, path, x).children| == |t.children|
  {
    if path != [] {
      GoodPut(t.children[path[0]], path[1..], x);
    }
  }

  lemma GoodAdded(section: Tree, child: Tree)
    requires Good(section) && section.value.None? && Good(child)
    ensures Good(section.(children := Added(section.children, child)))
  {
    AddedSorted(section.children, child);
  }

  // Putting a node with the same name and value somewhere below does not change the list of sections.
  lemma PutKeepsSections(root: Tree, path: seq<nat>, x: Tree)
    requires SectionsUnique(root.children) && PathIn(root, path) && path != []
    requires x.name == At(root, path).name && x.value == At(root, path).value
    ensures SectionsUnique(Put(root, path, x).children)
  {
    PutKeepsName(root.children[path[0]], path[1..], x);
  }

  lemma {:induction false} PutKeepsName(t: Tree, path: seq<nat>, x: Tree)
    requires PathIn(t, path) && x.name == At(t, path).name && x.value == At(t, path).value
    ensures Put(t, path, x).name == t.name && Put(t, path, x).value == t.value
  {
  }

  lemma {:induction false} AboveIsSection(t: Tree, path: seq<nat>)
    requires Good(t) && PathIn(t, path) && path != []
    ensures PathIn(t, path[..|path| - 1]) && At(t, path[..|path| - 1]).value.None?
  {
    Shallower(t, path);
    GoodAt(t, path[..|path| - 1]);
  }

  lemma OpenSectionValid(s: State, name: string, final: bool)
    requires s.mode == StdLine && s.level == 0 && Good(s.root) && SectionsUnique(s.root.children) && s.root.value.None?
    ensures Valid(OpenSection(s, name, final))
  {
    match FindSection(s.root.children, name)
    case Some(k) =>
      MarkedSections(s.root, k, final);
    case None =>
      AddedSections(s.root, name, final);
  }

  lemma MarkedSections(root: Tree, k: nat, final: bool)
    requires Good(root) && SectionsUnique(root.children) && k < |root.children|
    ensures var child := root.children[k];
            var more := root.children[k := child.(final := child.final || final)];
            Good(root.(children := more)) && SectionsUnique(more)
  {
    var child := root.children[k];
    var more := root.children[k := child.(final := child.final || final)];
    assert Good(child.(final := child.final || final)) && Sorted(more);
  }

  // With unique names the section with a name is where that name is.
  lemma FoundAt(children: seq<Tree>, k: nat, name: string)
    requires SectionsUnique(children) && k < |children| && children[k].name == name
    ensures FindSection(children, name) == Some(k)
  {
  }

  lemma NotFound(children: seq<Tree>, name: string)
    requires forall i :: 0 <= i < |children| ==> children[i].name != name
    ensures FindSection(children, name) == None
  {
  }

  lemma AddedSections(root: Tree, name: string, final: bool)
    requires Good(root) && root.value.None? && SectionsUnique(root.children) && FindSection(root.children, name).None?
    ensures var more := Added(root.children, Tree(name, None, final, []));
            Good(root.(children := more)) && SectionsUnique(more)
  {
    GoodAdded(root, Tree(name, None, final, []));
  }

  lemma AddChildValid(s: State, child: Tree)
    requires Valid(s) && s.mode != InitComment && Good(child)
    ensures Good(AddChild(s, child)) && AddChild(s, child).value.None? && SectionsUnique(AddChild(s, child).children)
    ensures PathIn(AddChild(s, child), s.path)
    ensures At(AddChild(s, child), s.path) == At(s.root, s.path).(children := Added(At(s.root, s.path).children, child))
  {
    var section := At(s.root, s.path);
    var fuller := section.(children := Added(section.children, child));
    GoodAt(s.root, s.path);
    GoodAdded(section, child);
    GoodPut(s.root, s.path, fuller);
    PutKeepsSections(s.root, s.path, fuller);
    PutAt(s.root, s.path, fuller);
  }

  lemma CloseValid(s: State, final: bool)
    requires Valid(s) && s.mode == StdLine && s.level > 0
    ensures var section := At(s.root, s.path);
            Valid(s.(root := Put(s.root, s.path, section.(final := section.final || final)),
                     path := s.path[..|s.path| - 1], level := s.level - 1))
  {
    var section := At(s.root, s.path);
    var marked := section.(final := section.final || final);
    GoodAt(s.root, s.path);
    GoodPut(s.root, s.path, marked);
    PutKeepsSections(s.root, s.path, marked);
    PutAt(s.root, s.path, marked);
    AboveIsSection(Put(s.root, s.path, marked), s.path);
  }

  // Every line that is accepted keeps the children of every node in order, the top-level sections
  // unique, and the group level one below the level of the current section.
  lemma StepKeepsValid(s: State, line: Buffer)
    requires Valid(s) && Step(s, line).Ok?
    ensures Valid(Step(s, line).state)
  {
    hide Lexed, FirstChar, Good, SectionsUnique, OpenSection, Put, Blanks;
    if s.mode == GetObrace || line[0] == '\0' || (s.mode == InitComment && line[0] != '[') {
      return;
    }
    var s' := s.(lineNum := s.lineNum + 1, mode := StdLine);
    match Lexed(line)
    case Nothing =>
    case Failure(_) =>
    case Overrun =>
    case Section(name, final) => OpenSectionValid(s', name, final);
    case Close(final) => CloseValid(s', final);
    case Relation(name, value, final) => AddChildValid(s', Tree(name, Some(value), final, []));
    case Open(name, final, _) =>
      var child := Tree(name, None, final, []);
      AddChildValid(s', child);
      Deeper(AddChild(s', child), s.path, Position(At(s.root, s.path).children, name), child);
  }

  // Error codes are not zero, which stands for success.
  lemma ErrorsAreNotZero(s: State, line: Buffer)
    requires PathIn(s.root, s.path) && Step(s, line).Err?
    ensures Step(s, line).code != 0
  {
    CodesAreNotZero(line);
  }

  lemma StartValid()
    ensures Valid(Start())
  {
  }

  // All the lines from a state on.
  ghost function Run(s: State, lines: seq<Buffer>): (r: Result)
    requires Valid(s)
    ensures r.Ok? ==> Valid(r.state)
    decreases |lines|
  {
    if lines == [] then Ok(s)
    else match Step(s, lines[0])
      case Err(code) => Err(code)
      case Undefined => Undefined
      case Ok(next) =>
        StepKeepsValid(s, lines[0]);
        Run(next, lines[1..])
  }

  lemma {:induction false} RunAppend(s: State, a: seq<Buffer>, b: seq<Buffer>)
    requires Valid(s) && Run(s, a).Ok?
    ensures Run(s, a + b) == Run(Run(s, a).state, b)
    decreases |a|
  {
    hide Step;
    if a == [] {
      assert a + b == b;
    } else {
      StepKeepsValid(s, a[0]);
      RunAppend(Step(s, a[0]).state, a[1..], b);
      assert (a + b)[1..] == a[1..] + b;
    }
  }

  // A whole file.
  ghost function Parse(lines: seq<Buffer>): (r: Result)
    ensures r.Ok? ==> Valid(r.state)
  {
    StartValid();
    Run(Start(), lines)
  }
}
