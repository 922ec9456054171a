/** The tree of a configuration file as the source keeps it: nodes in doubly linked lists of children. */
module ProfileNodes {
  import opened Wrappers
  import opened ProfileTree

  const PROF_ADD_NOT_SECTION := 5

  class Node {
    const name: string
    const value: Option<string>
    var groupLevel: nat
    var final: bool
    var firstChild: Node?
    var parent: Node?
    var next: Node?
    var prev: Node?

    // The children, which firstChild and the links between them make up.
    ghost var children: seq<Node>

    // A node without children, one level below its parent.
    constructor (name: string, value: Option<string>, parent: Node?, prev: Node?, next: Node?)
      ensures this.name == name && this.value == value && !final && children == [] && firstChild == null
      ensures this.parent == parent && this.prev == prev && this.next == next
      ensures groupLevel == if parent == null then 0 else parent.groupLevel + 1
    {
      this.name, this.value, this.parent, this.prev, this.next := name, value, parent, prev, next;
      groupLevel := if parent == null then 0 else parent.groupLevel + 1;
      final, firstChild, children := false, null, [];
    }

    // What profile_verify_node checks of a node and its children, and that they are in order.
    ghost predicate Linked(nodes: set<Node>)
      reads this, nodes
    {
      && (value.Some? ==> children == [])
      && firstChild == (if children == [] then null else children[0])
      && (forall i :: 0 <= i < |children| ==> InPlace(children, i, nodes))
      && (forall i, j :: 0 <= i < j < |children| ==> children[i] != children[j])
      && Sorted(Labels(children))
    }

    ghost predicate InPlace(children: seq<Node>, i: nat, nodes: set<Node>)
      requires i < |children|
      reads this, nodes
    {
      var c := children[i];
      && c in nodes && c.parent == this && c.groupLevel == groupLevel + 1
      && c.prev == (if i == 0 then null else children[i - 1])
      && c.next == (if i + 1 == |children| then null else children[i + 1])
    }
  }

  // Names and values of nodes, as trees without children.
  ghost function Labels(nodes: seq<Node>): (labels: seq<Tree>)
    ensures |labels| == |nodes|
    ensures forall i :: 0 <= i < |nodes| ==> labels[i] == Tree(nodes[i].name, nodes[i].value, false, [])
  {
    seq(|nodes|, i requires 0 <= i < |nodes| => Tree(nodes[i].name, nodes[i].value, false, []))
  }

  ghost predicate AllLinked(nodes: set<Node>)
    reads nodes
  {
    forall n :: n in nodes ==> n.Linked(nodes)
  }

  ghost function Inserted<T>(children: seq<T>, at: nat, child: T): (more: seq<T>)
    requires at <= |children|
    ensures |more| == |children| + 1
  {
    children[..at] + [child] + children[at..]
  }

  lemma InsertedBeside<T>(children: seq<T>, at: nat, child: T, i: nat)
    requires at <= |children| && i <= |children| && i != at
    ensures Inserted(children, at, child)[i] == children[if i < at then i else i - 1]
  {
  }

  // Where profile_add_node stops: the first child with a greater name, and the one before it.
  method FindPlace(section: Node, name: string, ghost nodes: set<Node>) returns (p: Node?, last: Node?, ghost at: nat)
    requires section.Linked(nodes)
    ensures at == Position(Labels(section.children), name) <= |section.children|
    ensures p == if at < |section.children| then section.children[at] else null
    ensures last == if at > 0 then section.children[at - 1] else null
    ensures (p != null ==> p in nodes) && (last != null ==> last in nodes)
  {
    p, last, at := section.firstChild, null, 0;
    ghost var labels := Labels(section.children);
    while p != null
      invariant at <= |section.children|
      invariant p == if at < |section.children| then section.children[at] else null
      invariant last == if at > 0 then section.children[at - 1] else null
      invariant forall i :: 0 <= i < at ==> !Greater(labels[i].name, name)
      decreases |section.children| - at
    {
      if Greater(p.name, name) {
        break;
      }
      assert section.InPlace(section.children, at, nodes);
      last, p, at := p, p.next, at + 1;
    }
    PositionIs(labels, name, at);
    assert p != null ==> section.InPlace(section.children, at, nodes);
    assert last != null ==> section.InPlace(section.children, at - 1, nodes);
  }

  lemma {:induction false} PositionIs(labels: seq<Tree>, name: string, at: nat)
    requires at <= |labels| && (forall i :: 0 <= i < at ==> !Greater(labels[i].name, name))
    requires at < |labels| ==> Greater(labels[at].name, name)
    ensures Position(labels, name) == at
  {
  }

  // What adding a node to a section leaves alone: all but the children of the section and the links of
  // their neighbours.
  twostate predicate Kept(n: Node, new section: Node)
    reads n
  {
    && n.final == old(n.final) && n.groupLevel == old(n.groupLevel) && n.parent == old(n.parent)
    && (n != section ==> n.children == old(n.children) && n.firstChild == old(n.firstChild))
    && (old(n.parent) != section ==> n.next == old(n.next) && n.prev == old(n.prev))
  }

  // The sections whose children keep their links stay linked when other nodes are added.
  twostate lemma OthersLinked(new section: Node, nodes: set<Node>, new more: set<Node>)
    requires nodes <= more && old(AllLinked(nodes))
    requires forall m :: m in nodes ==> Kept(m, section)
    ensures forall m :: m in nodes && m != section ==> m.Linked(more)
  {
    hide Sorted, Labels;
    forall m | m in nodes && m != section
      ensures m.Linked(more)
    {
      assert old(m.Linked(nodes));
      forall i | 0 <= i < |m.children|
        ensures m.InPlace(m.children, i, more)
      {
        assert old(m.InPlace(m.children, i, nodes));
      }
    }
  }

  lemma LabelsInserted(children: seq<Node>, at: nat, child: Node)
    requires at == Position(Labels(children), child.name) <= |children|
    ensures Labels(Inserted(children, at, child)) == Added(Labels(children), Tree(child.name, child.value, false, []))
  {
  }

  lemma InsertedDistinct(children: seq<Node>, at: nat, child: Node)
    requires at <= |children| && child !in children && forall i, j :: 0 <= i < j < |children| ==> children[i] != children[j]
    ensures var all := Inserted(children, at, child); forall i, j :: 0 <= i < j < |all| ==> all[i] != all[j]
  {
    var all := Inserted(children, at, child);
    forall i, j | 0 <= i < j < |all|
      ensures all[i] != all[j]
    {
      assert i != at ==> all[i] == children[if i < at then i else i - 1];
      assert j != at ==> all[j] == children[if j < at then j else j - 1];
    }
  }

  // The new node stands between its neighbours, in a list that was in place before.
  ghost predicate Spliced(section: Node, children: seq<Node>, at: nat, child: Node, nodes: set<Node>)
    reads nodes, section, child
  {
    && at <= |children| && section.children == Inserted(children, at, child) && section.firstChild == section.children[0]
    && child.parent == section && child.groupLevel == section.groupLevel + 1
    && child.prev == (if at == 0 then null else children[at - 1])
    && child.next == (if at == |children| then null else children[at])
    && forall i :: 0 <= i < |children| ==> Relinked(section, children, at, child, nodes, i)
  }

  ghost predicate Relinked(section: Node, children: seq<Node>, at: nat, child: Node, nodes: set<Node>, i: nat)
    requires i < |children|
    reads nodes, section
  {
    && children[i] in nodes && children[i].parent == section && children[i].groupLevel == section.groupLevel + 1
    && children[i].prev == (if i == at then child else if i == 0 then null else children[i - 1])
    && children[i].next == (if i + 1 == at then child else if i + 1 == |children| then null else children[i + 1])
  }

  lemma ChildrenInPlace(section: Node, children: seq<Node>, at: nat, child: Node, nodes: set<Node>)
    requires Spliced(section, children, at, child, nodes)
    ensures forall i :: 0 <= i < |section.children| ==> section.InPlace(section.children, i, nodes + {child})
  {
    var all := section.children;
    assert |all| == |children| + 1 && all[at] == child;
    assert forall k :: 0 <= k < at ==> all[k] == children[k];
    assert forall k :: at < k < |all| ==> all[k] == children[k - 1];
    forall i | 0 <= i < |all|
      ensures section.InPlace(all, i, nodes + {child})
    {
      if i < at {
        assert Relinked(section, children, at, child, nodes, i);
      } else if i > at {
        assert Relinked(section, children, at, child, nodes, i - 1);
      }
    }
  }

  // So the section is linked again.
  lemma SectionLinked(section: Node, children: seq<Node>, at: nat, child: Node, nodes: set<Node>)
    requires section.value.None? && child !in nodes && Spliced(section, children, at, child, nodes)
    requires at == Position(Labels(children), child.name) && Sorted(Labels(children))
    requires forall i, j :: 0 <= i < j < |children| ==> children[i] != children[j]
    ensures section.Linked(nodes + {child})
  {
    ChildrenInPlace(section, children, at, child, nodes);
    forall k | 0 <= k < |children|
      ensures children[k] != child
    {
      assert Relinked(section, children, at, child, nodes, k);
    }
    LabelsInserted(children, at, child);
    AddedSorted(Labels(children), Tree(child.name, child.value, false, []));
    InsertedDistinct(children, at, child);
    hide Sorted, Position, Greater, Node.InPlace;
  }

  lemma LeafLinked(leaf: Node, nodes: set<Node>)
    requires leaf.children == [] && leaf.firstChild == null
    ensures leaf.Linked(nodes)
  {
  }

  // Makes the neighbours of a new node point to it.
  method Splice(section: Node, child: Node, p: Node?, last: Node?, ghost at: nat, ghost nodes: set<Node>)
    requires section in nodes && section.Linked(nodes) && child !in nodes && at <= |section.children|
    requires p == if at < |section.children| then section.children[at] else null
    requires last == if at > 0 then section.children[at - 1] else null
    requires (p != null ==> p in nodes) && (last != null ==> last in nodes)
    requires child.parent == section && child.groupLevel == section.groupLevel + 1 && child.prev == last && child.next == p
    modifies nodes
    ensures Spliced(section, old(section.children), at, child, nodes)
    ensures forall n :: n in nodes ==> Kept(n, section)
  {
    hide Sorted, Labels;
    ghost var children := section.children;
    assert p != null ==> section.InPlace(children, at, nodes);
    assert last != null ==> section.InPlace(children, at - 1, nodes);
    if p != null {
      p.prev := child;
    }
    if last != null {
      last.next := child;
    } else {
      section.firstChild := child;
    }
    section.children := Inserted(children, at, child);
    assert section.children[0] == if at == 0 then child else children[0];
    forall i | 0 <= i < |children|
      ensures Relinked(section, children, at, child, nodes, i)
    {
      assert old(section.InPlace(children, i, nodes));
      assert at < |children| && i != at ==> children[i] != children[at];
      assert at > 0 && i != at - 1 ==> children[i] != children[at - 1];
    }
  }

  // Adds a node to a section, after the last child whose name is not greater.
  method AddNode(section: Node, name: string, value: Option<string>, ghost nodes: set<Node>) returns (code: nat, node: Node?)
    requires section in nodes && AllLinked(nodes)
    modifies nodes
    ensures section.value.Some? ==> code == PROF_ADD_NOT_SECTION && node == null && unchanged(nodes)
    ensures section.value.None? ==>
              && code == 0 && node != null && fresh(node) && node.name == name && node.value == value && !node.final
              && node.children == [] && AllLinked(nodes + {node})
              && section.children == Inserted(old(section.children), Position(Labels(old(section.children)), name), node)
              && forall n :: n in nodes ==> Kept(n, section)
  {
    if section.value.Some? {
      return PROF_ADD_NOT_SECTION, null;
    }
    var p, last;
    ghost var at;
    p, last, at := FindPlace(section, name, nodes);
    ghost var children := section.children;
    hide Sorted, Position, Labels, Relinked;
    var child := new Node(name, value, section, last, p);
    Splice(section, child, p, last, at, nodes);
    SectionLinked(section, children, at, child, nodes);
    LeafLinked(child, nodes + {child});
    OthersLinked(section, nodes, nodes + {child});
    return 0, child;
  }

  // ---------- the nodes and the tree they stand for ----------

  ghost predicate Rooted(nodes: set<Node>, root: Node)
    reads nodes
  {
    && root in nodes && root.parent == null && root.groupLevel == 0
    && forall n :: n in nodes && n != root ==> n.parent != null && n.parent in nodes && n in n.parent.children
  }

  ghost predicate Mirrors(n: Node, t: Tree, nodes: set<Node>)
    reads nodes
    decreases t
  {
    && n in nodes && n.name == t.name && n.value == t.value && n.final == t.final && |n.children| == |t.children|
    && forall i :: 0 <= i < |t.children| ==> Mirrors(n.children[i], t.children[i], nodes)
  }

  // The node at the end of a path.
  ghost predicate Leads(n: Node, path: seq<nat>, end: Node, nodes: set<Node>)
    reads nodes
  {
    if path == [] then n == end
    else n in nodes && path[0] < |n.children| && Leads(n.children[path[0]], path[1..], end, nodes)
  }

  // m is n, or its parent, or the parent of that, and so on.
  ghost predicate OnChain(n: Node, m: Node, nodes: set<Node>)
    requires n in nodes
    reads nodes
    decreases n.groupLevel
  {
    || n == m
    || (n.parent != null && n.parent in nodes && n.parent.groupLevel < n.groupLevel && OnChain(n.parent, m, nodes))
  }

  lemma {:induction false} ChainUp(n: Node, m: Node, nodes: set<Node>)
    requires n in nodes && m in nodes && OnChain(n, m, nodes)
    requires m.parent != null && m.parent in nodes && m.parent.groupLevel < m.groupLevel
    ensures OnChain(n, m.parent, nodes)
    decreases n.groupLevel
  {
    if n != m {
      ChainUp(n.parent, m, nodes);
    }
  }

  lemma {:induction false} ChainLevel(n: Node, m: Node, nodes: set<Node>)
    requires n in nodes && m in nodes && OnChain(n, m, nodes)
    ensures m.groupLevel <= n.groupLevel && (m.groupLevel == n.groupLevel ==> m == n)
    decreases n.groupLevel
  {
    if n != m {
      ChainLevel(n.parent, m, nodes);
    }
  }

  lemma {:induction false} ChainUnique(n: Node, a: Node, b: Node, nodes: set<Node>)
    requires n in nodes && a in nodes && b in nodes && OnChain(n, a, nodes) && OnChain(n, b, nodes)
    requires a.groupLevel == b.groupLevel
    ensures a == b
    decreases n.groupLevel
  {
    if n == a {
      ChainLevel(n, b, nodes);
    } else if n == b {
      ChainLevel(n, a, nodes);
    } else {
      ChainUnique(n.parent, a, b, nodes);
    }
  }

  lemma ChildOf(n: Node, i: nat, nodes: set<Node>)
    requires n in nodes && AllLinked(nodes) && i < |n.children|
    ensures var c := n.children[i]; c in nodes && c.parent == n && c.groupLevel == n.groupLevel + 1
    ensures forall j :: 0 <= j < |n.children| && j != i ==> n.children[j] != n.children[i]
  {
    hide Sorted, Labels;
    assert n.Linked(nodes);
    assert n.InPlace(n.children, i, nodes);
  }

  lemma {:induction false} LeadsChain(n: Node, path: seq<nat>, end: Node, nodes: set<Node>)
    requires n in nodes && AllLinked(nodes) && Leads(n, path, end, nodes)
    ensures end in nodes && OnChain(end, n, nodes) && end.groupLevel == n.groupLevel + |path|
  {
    if path != [] {
      hide AllLinked;
      ChildOf(n, path[0], nodes);
      LeadsChain(n.children[path[0]], path[1..], end, nodes);
      ChainUp(end, n.children[path[0]], nodes);
    }
  }

  // Where the end of a path is not below a node, it is not below a child of that node either.
  lemma OffChain(end: Node, m: Node, i: nat, nodes: set<Node>)
    requires end in nodes && m in nodes && AllLinked(nodes) && i < |m.children| && !OnChain(end, m, nodes)
    ensures m.children[i] in nodes && !OnChain(end, m.children[i], nodes)
  {
    hide AllLinked;
    ChildOf(m, i, nodes);
    if OnChain(end, m.children[i], nodes) {
      ChainUp(end, m.children[i], nodes);
    }
  }

  lemma SiblingOffChain(n: Node, path: seq<nat>, end: Node, i: nat, nodes: set<Node>)
    requires n in nodes && AllLinked(nodes) && path != [] && Leads(n, path, end, nodes) && i < |n.children| && i != path[0]
    ensures end in nodes && n.children[i] in nodes && !OnChain(end, n.children[i], nodes)
  {
    hide AllLinked;
    LeadsChain(n, path, end, nodes);
    ChildOf(n, i, nodes);
    ChildOf(n, path[0], nodes);
    LeadsChain(n.children[path[0]], path[1..], end, nodes);
    if OnChain(end, n.children[i], nodes) {
      ChainUnique(end, n.children[i], n.children[path[0]], nodes);
    }
  }

  // ---------- changing one node ----------

  // Only one node has other children, or another mark, than before.
  twostate predicate SameBut(m: Node, new changed: Node)
    reads m
  {
    m != changed ==> m.final == old(m.final) && m.children == old(m.children)
  }

  // What does not have the changed node below it stands for the same tree.
  twostate lemma Unaffected(new m: Node, new t: Tree, new changed: Node, nodes: set<Node>, new more: set<Node>)
    requires nodes <= more && AllLinked(more) && changed in more
    requires forall k :: k in nodes ==> SameBut(k, changed)
    requires m in nodes && old(Mirrors(m, t, nodes)) && !OnChain(changed, m, more)
    ensures Mirrors(m, t, more)
    decreases t
  {
    hide AllLinked;
    forall i | 0 <= i < |t.children|
      ensures Mirrors(m.children[i], t.children[i], more)
    {
      OffChain(changed, m, i, more);
      Unaffected(m.children[i], t.children[i], changed, nodes, more);
    }
  }

  twostate lemma OldLevel(new n: Node, new path: seq<nat>, new end: Node, nodes: set<Node>)
    requires n in nodes && end in nodes && old(AllLinked(nodes)) && old(Leads(n, path, end, nodes))
    ensures old(end.groupLevel) == old(n.groupLevel) + |path|
    decreases |path|
  {
    if path != [] {
      hide Sorted, Labels;
      assert old(n.InPlace(n.children, path[0], nodes));
      OldLevel(old(n.children)[path[0]], path[1..], end, nodes);
    }
  }

  // A path to the changed node still leads there.
  twostate lemma StillLeads(new n: Node, new path: seq<nat>, new changed: Node, nodes: set<Node>, new more: set<Node>)
    requires nodes <= more && old(AllLinked(nodes)) && n in nodes && changed in nodes
    requires forall k :: k in nodes ==> SameBut(k, changed)
    requires old(Leads(n, path, changed, nodes))
    ensures Leads(n, path, changed, more)
    decreases |path|
  {
    if path != [] {
      OldLevel(n, path, changed, nodes);
      hide Sorted, Labels;
      assert old(n.InPlace(n.children, path[0], nodes));
      hide AllLinked;
      StillLeads(old(n.children)[path[0]], path[1..], changed, nodes, more);
    }
  }

  // When the changed node stands for x, what is above it stands for the tree with x put in its place.
  twostate lemma PutMirrors(new n: Node, new t: Tree, new path: seq<nat>, new changed: Node, new x: Tree, nodes: set<Node>, new more: set<Node>)
    requires nodes <= more && AllLinked(more) && changed in more
    requires forall k :: k in nodes ==> SameBut(k, changed)
    requires n in nodes && old(Mirrors(n, t, nodes)) && Leads(n, path, changed, more) && Mirrors(changed, x, more)
    ensures PathIn(t, path) && Mirrors(n, Put(t, path, x), more)
    decreases |path|
  {
    hide AllLinked;
    if path != [] {
      LeadsChain(n, path, changed, more);
      var k := path[0];
      PutMirrors(n.children[k], t.children[k], path[1..], changed, x, nodes, more);
      forall i | 0 <= i < |t.children| && i != k
        ensures Mirrors(n.children[i], t.children[i], more)
      {
        SiblingOffChain(n, path, changed, i, more);
        Unaffected(n.children[i], t.children[i], changed, nodes, more);
      }
    }
  }

  // The children of the changed node stand for what they stood for.
  twostate lemma ChildUnaffected(new c: Node, new t: Tree, new changed: Node, nodes: set<Node>, new more: set<Node>)
    requires nodes <= more && AllLinked(more) && changed in more
    requires forall k :: k in nodes ==> SameBut(k, changed)
    requires c in nodes && old(Mirrors(c, t, nodes)) && c.parent == changed && c.groupLevel == changed.groupLevel + 1
    ensures Mirrors(c, t, more)
  {
    if OnChain(changed, c, more) {
      ChainLevel(changed, c, more);
    }
    Unaffected(c, t, changed, nodes, more);
  }

  lemma SamePosition(a: seq<Tree>, b: seq<Tree>, name: string)
    requires |a| == |b| && forall i :: 0 <= i < |a| ==> a[i].name == b[i].name
    ensures Position(a, name) == Position(b, name)
  {
    PositionIs(a, name, Position(b, name));
  }

  // The tree that a node stands for has the names and values of its children.
  lemma MirrorLabels(n: Node, t: Tree, nodes: set<Node>)
    requires Mirrors(n, t, nodes)
    ensures |n.children| == |t.children|
    ensures forall i :: 0 <= i < |t.children| ==>
              Labels(n.children)[i].name == t.children[i].name && Labels(n.children)[i].value == t.children[i].value
  {
    forall i | 0 <= i < |t.children|
      ensures n.children[i].name == t.children[i].name && n.children[i].value == t.children[i].value
    {
      assert Mirrors(n.children[i], t.children[i], nodes);
    }
  }

  lemma AddedIsInserted(children: seq<Tree>, x: Tree)
    ensures Added(children, x) == Inserted(children, Position(children, x.name), x)
  {
  }

  // Adding a node to a section is adding a child to the tree it stands for.
  twostate lemma AddedMirrors(new section: Node, new t: Tree, new node: Node, nodes: set<Node>, new more: set<Node>)
    requires section in nodes && node !in nodes && more == nodes + {node} && AllLinked(more)
    requires forall k :: k in nodes ==> SameBut(k, section)
    requires old(Mirrors(section, t, nodes)) && section.final == old(section.final)
    requires section.children == Inserted(old(section.children), Position(t.children, node.name), node)
    requires node.children == []
    ensures Mirrors(section, t.(children := Added(t.children, Tree(node.name, node.value, node.final, []))), more)
  {
    var x := Tree(node.name, node.value, node.final, []);
    hide AllLinked, Position, SameBut, Inserted;
    var at, all := Position(t.children, node.name), Added(t.children, x);
    assert all == Inserted(t.children, at, x) by { AddedIsInserted(t.children, x); }
    forall i | 0 <= i < |all|
      ensures Mirrors(section.children[i], all[i], more)
    {
      ChildOf(section, i, more);
      if i == at {
        assert section.children[i] == node;
      } else {
        var j := if i < at then i else i - 1;
        InsertedBeside(old(section.children), at, node, i);
        InsertedBeside(t.children, at, x, i);
        assert old(Mirrors(section.children[j], t.children[j], nodes));
        ChildUnaffected(section.children[i], t.children[j], section, nodes, more);
      }
    }
  }

  // Marking a node marks the tree it stands for.
  twostate lemma MarkedMirrors(new n: Node, new t: Tree, nodes: set<Node>)
    requires n in nodes && AllLinked(nodes)
    requires forall k :: k in nodes ==> SameBut(k, n)
    requires old(Mirrors(n, t, nodes)) && n.children == old(n.children)
    ensures Mirrors(n, t.(final := n.final), nodes)
  {
    hide AllLinked;
    forall i | 0 <= i < |t.children|
      ensures Mirrors(n.children[i], t.children[i], nodes)
    {
      ChildOf(n, i, nodes);
      ChildUnaffected(n.children[i], t.children[i], n, nodes, nodes);
    }
  }

  lemma {:induction false} MirrorAt(n: Node, t: Tree, path: seq<nat>, end: Node, nodes: set<Node>)
    requires Mirrors(n, t, nodes) && Leads(n, path, end, nodes)
    ensures PathIn(t, path) && Mirrors(end, At(t, path), nodes)
  {
    if path != [] {
      MirrorAt(n.children[path[0]], t.children[path[0]], path[1..], end, nodes);
    }
  }

  lemma {:induction false} LeadsDeeper(n: Node, path: seq<nat>, end: Node, k: nat, nodes: set<Node>)
    requires Leads(n, path, end, nodes) && end in nodes && k < |end.children|
    ensures Leads(n, path + [k], end.children[k], nodes)
  {
    if path == [] {
      assert ([] + [k])[1..] == [] && (path + [k])[1..] == [];
      assert Leads(end.children[k], [], end.children[k], nodes);
    } else {
      LeadsDeeper(n.children[path[0]], path[1..], end, k, nodes);
      assert (path + [k])[1..] == path[1..] + [k];
    }
  }

  lemma {:induction false} LeadsUp(n: Node, path: seq<nat>, end: Node, nodes: set<Node>)
    requires n in nodes && AllLinked(nodes) && Leads(n, path, end, nodes) && path != []
    ensures end in nodes && end.parent != null && end.parent in nodes && Leads(n, path[..|path| - 1], end.parent, nodes)
  {
    hide AllLinked;
    ChildOf(n, path[0], nodes);
    if |path| > 1 {
      LeadsUp(n.children[path[0]], path[1..], end, nodes);
      assert path[1..][..|path[1..]| - 1] == path[..|path| - 1][1..];
    } else {
      assert path[1..] == [] && path[..0] == [];
    }
  }
}
