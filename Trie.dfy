/** The feasibility trie of the column builder: per shape sequence, what the builder has
    learned about laying out that sequence's prefixes. */
module Trie {
  import opened Geometry

  datatype Feasibility = Feasible | Infeasible | Unknown

  /** One level of the trie: for each shape, the node reached by placing it next. */
  datatype Creation = Creation(nodes: map<Shape, Node>)

  /** A node is either FEASIBLE with the next level, or INFEASIBLE with none; no other
      pairing is ever stored, so the datatype carries that invariant. */
  datatype Node = FeasibleNode(child: Creation) | InfeasibleNode

  datatype Option<T> = None | Some(value: T)

  /** The level of a freshly made Creation. */
  const Empty: Creation := Creation(map[])

  /** The level holds an infeasible node for s. */
  predicate MarkedInfeasible(c: Creation, s: Shape) {
    s in c.nodes && c.nodes[s].InfeasibleNode?
  }

  function Status(n: Node): (f: Feasibility)
    ensures f != Unknown
    ensures f == Feasible <==> n.FeasibleNode?
  {
    if n.FeasibleNode? then Feasible else Infeasible
  }

  /** checkFeasibility: follow shapes[i..] through the trie; UNKNOWN where a node is
      missing, the node's mark at the last shape, INFEASIBLE at the first infeasible
      node before it. The caller supplies an index inside the sequence. */
  function CheckFeasibility(c: Creation, shapes: seq<Shape>, i: nat): Feasibility
    requires i < |shapes|
    decreases |shapes| - i
  {
    if shapes[i] !in c.nodes then Unknown
    else
      var node := c.nodes[shapes[i]];
      if i == |shapes| - 1 then Status(node)
      else if node.InfeasibleNode? then Infeasible
      else CheckFeasibility(node.child, shapes, i + 1)
  }

  // ---------------------------------------------------------------------------
  // Reference reading of the trie: paths and the marks stored at their ends

  /** The level reached from c by following q through feasible nodes, if any. */
  function Subtrie(c: Creation, q: seq<Shape>): Option<Creation>
    decreases |q|
  {
    if q == [] then Some(c)
    else
      match Subtrie(c, q[..|q| - 1])
      case None => None
      case Some(t) =>
        var s := q[|q| - 1];
        if s in t.nodes && t.nodes[s].FeasibleNode? then Some(t.nodes[s].child) else None
  }

  /** The mark stored for the non-empty path p, if the path leads to a node. */
  function Mark(c: Creation, p: seq<Shape>): Option<Feasibility>
    requires |p| > 0
  {
    match Subtrie(c, p[..|p| - 1])
    case None => None
    case Some(t) =>
      var s := p[|p| - 1];
      if s in t.nodes then Some(Status(t.nodes[s])) else None
  }

  /** Once a path runs out of feasible nodes, every longer path does too. */
  lemma {:induction false} SubtrieNoneExtends(c: Creation, p: seq<Shape>, a: nat, b: nat)
    requires a <= b <= |p|
    requires Subtrie(c, p[..a]) == None
    ensures Subtrie(c, p[..b]) == None
    decreases b - a
  {
    if a < b {
      assert p[..a + 1][..a] == p[..a];
      SubtrieNoneExtends(c, p, a + 1, b);
    }
  }

  /** A path that leaves the trie at position j leads to no node from there on. */
  lemma MarksAfterMissing(c0: Creation, p: seq<Shape>, j: nat, t: Creation)
    requires j < |p|
    requires Subtrie(c0, p[..j]) == Some(t)
    requires p[j] !in t.nodes
    ensures forall m :: j < m <= |p| ==> Mark(c0, p[..m]) == None
  {
    assert p[..j + 1][..j] == p[..j];
    assert Subtrie(c0, p[..j + 1]) == None;
    forall m | j < m <= |p|
      ensures Mark(c0, p[..m]) == None
    {
      if m > j + 1 {
        SubtrieNoneExtends(c0, p, j + 1, m - 1);
        assert p[..m][..m - 1] == p[..m - 1];
      }
    }
  }

  /** A path through an infeasible node at position j is marked infeasible there, and
      no longer path is marked at all. */
  lemma MarksAfterInfeasible(c0: Creation, p: seq<Shape>, j: nat, t: Creation)
    requires j < |p|
    requires Subtrie(c0, p[..j]) == Some(t)
    requires p[j] in t.nodes && t.nodes[p[j]].InfeasibleNode?
    ensures Mark(c0, p[..j + 1]) == Some(Infeasible)
    ensures j + 1 < |p| ==> Mark(c0, p) == None
  {
    assert p[..j + 1][..j] == p[..j];
    if j + 1 < |p| {
      assert Subtrie(c0, p[..j + 1]) == None;
      SubtrieNoneExtends(c0, p, j + 1, |p| - 1);
      assert p[..|p|][..|p| - 1] == p[..|p| - 1];
      assert p[..|p|] == p;
    }
  }

  /** checkFeasibility from position j, starting at the level that p[..j] leads to. */
  lemma {:induction false} CheckFeasibilityFrom(c0: Creation, p: seq<Shape>, j: nat, t: Creation)
    requires j < |p|
    requires Subtrie(c0, p[..j]) == Some(t)
    ensures CheckFeasibility(t, p, j) == Infeasible
        <==> exists m :: j < m <= |p| && Mark(c0, p[..m]) == Some(Infeasible)
    ensures CheckFeasibility(t, p, j) == Feasible <==> Mark(c0, p) == Some(Feasible)
    decreases |p| - j
  {
    var s := p[j];
    assert p[..|p|] == p;
    if s !in t.nodes {
      MarksAfterMissing(c0, p, j, t);
      assert Mark(c0, p[..|p|]) == None;
    } else if t.nodes[s].InfeasibleNode? {
      MarksAfterInfeasible(c0, p, j, t);
    } else {
      assert p[..j + 1][..j] == p[..j];
      assert Mark(c0, p[..j + 1]) == Some(Feasible);
      if j + 1 < |p| {
        assert Subtrie(c0, p[..j + 1]) == Some(t.nodes[s].child);
        CheckFeasibilityFrom(c0, p, j + 1, t.nodes[s].child);
        if exists m :: j < m <= |p| && Mark(c0, p[..m]) == Some(Infeasible) {
          var m :| j < m <= |p| && Mark(c0, p[..m]) == Some(Infeasible);
          assert m != j + 1;
        }
      }
    }
  }

  /** checkFeasibility(p, 0) reads the marks along p: INFEASIBLE exactly when some
      prefix of p is marked infeasible, FEASIBLE exactly when p itself is marked
      feasible, UNKNOWN otherwise. */
  lemma CheckFeasibilityPaths(c: Creation, p: seq<Shape>)
    requires |p| > 0
    ensures CheckFeasibility(c, p, 0) == Infeasible
        <==> exists m :: 0 < m <= |p| && Mark(c, p[..m]) == Some(Infeasible)
    ensures CheckFeasibility(c, p, 0) == Feasible <==> Mark(c, p) == Some(Feasible)
  {
    assert p[..0] == [];
    CheckFeasibilityFrom(c, p, 0, c);
  }

  // ---------------------------------------------------------------------------
  // How the trie may change: it only grows, and an infeasible node stays infeasible

  /** u keeps every node of t; an infeasible node stays infeasible, and a feasible one
      either becomes infeasible or keeps a child that extends the old child. */
  ghost predicate Extends(t: Creation, u: Creation)
    decreases t
  {
    forall s :: s in t.nodes ==> s in u.nodes && NodeExtends(t.nodes[s], u.nodes[s])
  }

  ghost predicate NodeExtends(n: Node, m: Node)
    decreases n
  {
    match n
    case InfeasibleNode => m.InfeasibleNode?
    case FeasibleNode(ch) => m.InfeasibleNode? || (m.FeasibleNode? && Extends(ch, m.child))
  }

  lemma {:induction false} ExtendsReflexive(t: Creation)
    ensures Extends(t, t)
    decreases t
  {
    forall s | s in t.nodes
      ensures NodeExtends(t.nodes[s], t.nodes[s])
    {
      NodeExtendsReflexive(t.nodes[s]);
    }
  }

  lemma {:induction false} NodeExtendsReflexive(n: Node)
    ensures NodeExtends(n, n)
    decreases n
  {
    if n.FeasibleNode? {
      ExtendsReflexive(n.child);
    }
  }

  lemma {:induction false} ExtendsTransitive(a: Creation, b: Creation, c: Creation)
    requires Extends(a, b) && Extends(b, c)
    ensures Extends(a, c)
    decreases a
  {
    forall s | s in a.nodes
      ensures s in c.nodes && NodeExtends(a.nodes[s], c.nodes[s])
    {
      NodeExtendsTransitive(a.nodes[s], b.nodes[s], c.nodes[s]);
    }
  }

  lemma {:induction false} NodeExtendsTransitive(n: Node, m: Node, o: Node)
    requires NodeExtends(n, m) && NodeExtends(m, o)
    ensures NodeExtends(n, o)
    decreases n
  {
    if n.FeasibleNode? && m.FeasibleNode? && o.FeasibleNode? {
      ExtendsTransitive(n.child, m.child, o.child);
    }
  }

  /** Replacing one node by an extension of it (or adding a node) extends the level. */
  lemma ExtendsUpdate(t: Creation, s: Shape, m: Node)
    requires s in t.nodes ==> NodeExtends(t.nodes[s], m)
    ensures Extends(t, Creation(t.nodes[s := m]))
  {
    forall s' | s' in t.nodes && s' != s
      ensures NodeExtends(t.nodes[s'], t.nodes[s'])
    {
      NodeExtendsReflexive(t.nodes[s']);
    }
  }

  /** An extended trie never retracts a verdict of infeasibility. */
  lemma {:induction false} ExtendsKeepsInfeasible(t: Creation, u: Creation, p: seq<Shape>, i: nat)
    requires Extends(t, u)
    requires i < |p|
    requires CheckFeasibility(t, p, i) == Infeasible
    ensures CheckFeasibility(u, p, i) == Infeasible
    decreases |p| - i
  {
    var s := p[i];
    var n := t.nodes[s];
    assert NodeExtends(n, u.nodes[s]);
    if n.FeasibleNode? && u.nodes[s].FeasibleNode? {
      ExtendsKeepsInfeasible(n.child, u.nodes[s].child, p, i + 1);
    }
  }

  /** The root level is sound for a sheet when every shape it marks infeasible fits
      on no empty sheet in either orientation: at the root the column is empty. */
  ghost predicate Sound(sheet: Sheet, t: Creation) {
    forall s :: s in t.nodes && t.nodes[s].InfeasibleNode? ==> !FitsAlone(sheet, s)
  }

  /** On a sound root, a shape that fits alone is never reported infeasible on its own. */
  lemma SoundSingleton(sheet: Sheet, t: Creation, s: Shape)
    requires Sound(sheet, t)
    requires FitsAlone(sheet, s)
    ensures CheckFeasibility(t, [s], 0) != Infeasible
  {
  }
}
