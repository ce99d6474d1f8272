/** The column builder: randomized depth-first placement of exploded shape sequences,
    remembering in a feasibility trie which shape prefixes found room. */
module Builder {
  import opened Geometry
  import opened Columns
  import opened Trie
  import opened Explode

  /** A successful build of shapes[i..] on top of the placements entry: entry is kept as
      a prefix, the placements added hold exactly the shapes shapes[i..] in order, and
      each sits at a location possibleLocs offered when it was placed. */
  ghost predicate Built(sheet: Sheet, ps: seq<Placement>, entry: seq<Placement>, shapes: seq<Shape>, i: nat) {
    && |ps| >= |entry| && ps[..|entry|] == entry
    && Shapes(ps) == Shapes(entry) + Suffix(shapes, i)
    && PlacedAtOffered(sheet, ps, |entry|)
  }

  /** A placement of shapes[i] at an offered location, followed by a successful build of
      shapes[i + 1..], is a successful build of shapes[i..]. */
  lemma PlacedAfter(sheet: Sheet, entry: seq<Placement>, p: Placement, ps: seq<Placement>, shapes: seq<Shape>, i: nat)
    requires i < |shapes| && p.shape == shapes[i]
    requires p.loc in Offered(sheet, entry, p.shape)
    requires Built(sheet, ps, entry + [p], shapes, i + 1)
    ensures Built(sheet, ps, entry, shapes, i)
  {
    ShapesAfter(entry, p, ps, shapes, i);
    OfferedAfter(sheet, entry, p, ps);
  }

  lemma ShapesAfter(entry: seq<Placement>, p: Placement, ps: seq<Placement>, shapes: seq<Shape>, i: nat)
    requires i < |shapes| && p.shape == shapes[i]
    requires |ps| >= |entry| + 1 && ps[..|entry| + 1] == entry + [p]
    requires Shapes(ps) == Shapes(entry + [p]) + Suffix(shapes, i + 1)
    ensures |ps| >= |entry| && ps[..|entry|] == entry
    ensures Shapes(ps) == Shapes(entry) + Suffix(shapes, i)
  {
    var front, rest := Shapes(entry), Suffix(shapes, i + 1);
    ShapesAppend(entry, p);
    assert Suffix(shapes, i) == [shapes[i]] + rest;
    assert (front + [shapes[i]]) + rest == front + ([shapes[i]] + rest);
    assert ps[..|entry|] == ps[..|entry| + 1][..|entry|];
  }

  lemma OfferedAfter(sheet: Sheet, entry: seq<Placement>, p: Placement, ps: seq<Placement>)
    requires p.loc in Offered(sheet, entry, p.shape)
    requires |ps| >= |entry| + 1 && ps[..|entry| + 1] == entry + [p]
    requires PlacedAtOffered(sheet, ps, |entry| + 1)
    ensures PlacedAtOffered(sheet, ps, |entry|)
  {
    assert ps[..|entry|] == (entry + [p])[..|entry|] == entry;
    assert ps[|entry|] == (entry + [p])[|entry|] == p;
    PlacedAtOfferedStep(sheet, ps, |entry|);
  }

  /** Every sequence exploded from a one-type request starts with that type, and the
      one-copy sequence is among them. */
  lemma SingleRequestLeads(rs: seq<RequiredShape>, size: Shape -> int)
    requires |rs| == 1
    ensures [rs[0].shape] in ExplodedOrdered(rs, size)
    ensures forall e :: e in ExplodedOrdered(rs, size) ==> |e| > 0 && e[0] == rs[0].shape
  {
    assert rs == [rs[0]];
    SingleTypeYield(rs[0], size);
    forall e | e in ExplodedOrdered(rs, size)
      ensures |e| > 0 && e[0] == rs[0].shape
    {
      assert e[0] in e;
    }
  }

  class ColumnBuilder {
    /** The root of the trie; it lives as long as the builder, across requests. */
    var root: Creation

    constructor ()
      ensures root == Empty
    {
      root := Empty;
    }

    /** buildColumn: place shapes[i..] into the column, the trie level for shapes[i]
        being creation; the updated level is returned. */
    static method BuildColumn(creation: Creation, column: Column, shapes: seq<Shape>, i: nat)
      returns (ok: bool, next: Creation)
      modifies column
      ensures i >= |shapes| ==> ok && next == creation
      ensures !ok ==> column.placements == old(column.placements)
      ensures ok ==> Built(column.sheet, column.placements, old(column.placements), shapes, i)
      ensures old(column.Valid()) ==> column.Valid()
      ensures Extends(creation, next)
      ensures i < |shapes| ==> forall s :: s in creation.nodes && s != shapes[i] ==> s in next.nodes && next.nodes[s] == creation.nodes[s]
      ensures i < |shapes| ==> shapes[i] in next.nodes
      ensures i < |shapes| ==> (next.nodes[shapes[i]].InfeasibleNode? <==>
        || MarkedInfeasible(creation, shapes[i])
        || |Offered(column.sheet, old(column.placements), shapes[i])| == 0)
      ensures i < |shapes| && CheckFeasibility(creation, shapes, i) == Infeasible ==> !ok
      ensures i < |shapes| && ok ==> CheckFeasibility(next, shapes, i) == Feasible
      ensures i < |shapes| && old(column.placements) == [] && !FitsAlone(column.sheet, shapes[i]) ==> !ok
      ensures old(column.placements) == [] && Sound(column.sheet, creation) ==> Sound(column.sheet, next)
      ensures i + 1 == |shapes| && old(column.placements) == [] ==>
        (FitsAlone(column.sheet, shapes[i]) && !MarkedInfeasible(creation, shapes[i]) ==> ok)
      decreases |shapes| - i, 3
    {
      if i >= |shapes| {
        ExtendsReflexive(creation);
        assert Suffix(shapes, i) == [];
        return true, creation;
      }
      var s := shapes[i];
      if s in creation.nodes && creation.nodes[s].InfeasibleNode? {
        ExtendsReflexive(creation);
        return false, creation;
      }
      ok, next := Descend(creation, column, shapes, i);
    }

    /** The part of buildColumn for a shape not yet marked INFEASIBLE at this level: with
        no possible location the shape is marked INFEASIBLE, otherwise its node becomes
        FEASIBLE and the locations are tried one level further down. */
    static method Descend(creation: Creation, column: Column, shapes: seq<Shape>, i: nat)
      returns (ok: bool, next: Creation)
      requires i < |shapes| && !MarkedInfeasible(creation, shapes[i])
      modifies column
      ensures !ok ==> column.placements == old(column.placements)
      ensures ok ==> Built(column.sheet, column.placements, old(column.placements), shapes, i)
      ensures old(column.Valid()) ==> column.Valid()
      ensures Extends(creation, next)
      ensures forall s :: s in creation.nodes && s != shapes[i] ==> s in next.nodes && next.nodes[s] == creation.nodes[s]
      ensures shapes[i] in next.nodes
      ensures next.nodes[shapes[i]].InfeasibleNode? <==> |Offered(column.sheet, old(column.placements), shapes[i])| == 0
      ensures CheckFeasibility(creation, shapes, i) == Infeasible ==> !ok
      ensures ok ==> CheckFeasibility(next, shapes, i) == Feasible
      ensures old(column.placements) == [] && !FitsAlone(column.sheet, shapes[i]) ==> !ok
      ensures old(column.placements) == [] && Sound(column.sheet, creation) ==> Sound(column.sheet, next)
      ensures i + 1 == |shapes| && old(column.placements) == [] && FitsAlone(column.sheet, shapes[i]) ==> ok
      decreases |shapes| - i, 2
    {
      var s := shapes[i];
      var locs := column.PossibleLocs(s);
      if |locs| > 0 {
        var child := if s in creation.nodes then creation.nodes[s].child else Empty;
        ok, child := TryLocations(child, column, shapes, i, locs);
        next := Creation(creation.nodes[s := FeasibleNode(child)]);
        ExtendsUpdate(creation, s, FeasibleNode(child));
      } else {
        next := Creation(creation.nodes[s := InfeasibleNode]);
        ExtendsUpdate(creation, s, InfeasibleNode);
        ok := false;
      }
    }

    /** The loop of buildColumn over the possible locations of shapes[i], in random order,
        until one of them leads to a complete column. */
    static method TryLocations(child: Creation, column: Column, shapes: seq<Shape>, i: nat, locs: seq<Loc>)
      returns (ok: bool, next: Creation)
      requires i < |shapes|
      requires forall l :: l in locs ==> Admissible(column.sheet, column.placements, l, shapes[i])
      requires forall l :: l in locs ==> l in Offered(column.sheet, column.placements, shapes[i])
      modifies column
      ensures !ok ==> column.placements == old(column.placements)
      ensures ok ==> Built(column.sheet, column.placements, old(column.placements), shapes, i)
      ensures old(column.Valid()) ==> column.Valid()
      ensures Extends(child, next)
      ensures i + 1 < |shapes| && CheckFeasibility(child, shapes, i + 1) == Infeasible ==> !ok
      ensures i + 1 < |shapes| && ok ==> CheckFeasibility(next, shapes, i + 1) == Feasible
      ensures i + 1 == |shapes| && |locs| > 0 ==> ok
      decreases |shapes| - i, 1
    {
      next := child;
      ExtendsReflexive(child);
      var pending := Positions(|locs|);
      while pending != {}
        invariant column.placements == old(column.placements)
        invariant forall k :: k in pending ==> 0 <= k < |locs|
        invariant Extends(child, next)
        invariant i + 1 < |shapes| && CheckFeasibility(child, shapes, i + 1) == Infeasible
          ==> CheckFeasibility(next, shapes, i + 1) == Infeasible
        invariant i + 1 == |shapes| ==> pending == Positions(|locs|)
        decreases pending
      {
        var k :| k in pending;
        pending := pending - {k};
        ghost var level := next;
        ok, next := TryAt(next, column, shapes, i, locs[k]);
        ExtendsTransitive(child, level, next);
        if ok {
          return;
        }
      }
      if |locs| > 0 {
        assert 0 in Positions(|locs|);
      }
      return false, next;
    }

    /** One round of that loop: put shapes[i] at l, recurse one trie level down, and take
        the placement back on failure. */
    static method TryAt(level: Creation, column: Column, shapes: seq<Shape>, i: nat, l: Loc)
      returns (ok: bool, next: Creation)
      requires i < |shapes|
      requires Admissible(column.sheet, column.placements, l, shapes[i])
      requires l in Offered(column.sheet, column.placements, shapes[i])
      modifies column
      ensures !ok ==> column.placements == old(column.placements)
      ensures ok ==> Built(column.sheet, column.placements, old(column.placements), shapes, i)
      ensures old(column.Valid()) ==> column.Valid()
      ensures Extends(level, next)
      ensures i + 1 < |shapes| && CheckFeasibility(level, shapes, i + 1) == Infeasible
        ==> !ok && CheckFeasibility(next, shapes, i + 1) == Infeasible
      ensures i + 1 < |shapes| && ok ==> CheckFeasibility(next, shapes, i + 1) == Feasible
      ensures i + 1 == |shapes| ==> ok
      decreases |shapes| - i, 0
    {
      ghost var entry := column.placements;
      var added := column.Add(l, shapes[i]);
      assert added;
      ok, next := BuildColumn(level, column, shapes, i + 1);
      if i + 1 < |shapes| && CheckFeasibility(level, shapes, i + 1) == Infeasible {
        ExtendsKeepsInfeasible(level, next, shapes, i + 1);
      }
      ghost var placed := entry + [Placement(l, shapes[i])];
      if ok {
        PlacedAfter(column.sheet, entry, Placement(l, shapes[i]), column.placements, shapes, i);
      } else {
        column.placements := column.placements[..|column.placements| - 1];
        assert placed[..|entry|] == entry;
      }
    }

    /** The body of the loop of buildColumns for one sequence: skip it when the trie
        already knows it to be infeasible, otherwise build a fresh column from the root. */
    method TrySequence(sheet: Sheet, ss: seq<Shape>) returns (c: Column?)
      requires |ss| > 0
      modifies this
      ensures Extends(old(root), root)
      ensures Sound(sheet, old(root)) ==> Sound(sheet, root)
      ensures CheckFeasibility(old(root), ss, 0) == Infeasible ==> c == null
      ensures c != null ==> fresh(c) && c.sheet == sheet && c.Valid() && Shapes(c.placements) == ss
      ensures c != null ==> PlacedAtOffered(sheet, c.placements, 0)
      ensures !FitsAlone(sheet, ss[0]) ==> c == null
      ensures |ss| == 1 && FitsAlone(sheet, ss[0]) && Sound(sheet, old(root)) ==> c != null
    {
      var f := CheckFeasibility(root, ss, 0);
      if f == Infeasible {
        ExtendsReflexive(root);
        return null;
      }
      var column := new Column(sheet);
      var ok;
      ok, root := BuildColumn(root, column, ss, 0);
      if ok {
        assert Suffix(ss, 0) == ss;
        return column;
      }
      return null;
    }

    /** buildColumns: explode the request into its ordered shape sequences and build at
        most one column per sequence. */
    method BuildColumns(sheet: Sheet, rs: seq<RequiredShape>, size: Shape -> int) returns (cs: seq<Column>, ghost idx: seq<nat>)
      requires |rs| > 0
      modifies this
      ensures Extends(old(root), root)
      ensures Sound(sheet, old(root)) ==> Sound(sheet, root)
      ensures |cs| <= Product(rs)
      ensures forall c :: c in cs ==> fresh(c) && c.sheet == sheet && c.Valid()
      ensures forall c :: c in cs ==> Shapes(c.placements) in ExplodedOrdered(rs, size)
      ensures |idx| == |cs| && Increasing(idx)
      ensures forall m :: 0 <= m < |cs| ==> idx[m] < |ExplodedOrdered(rs, size)| && Shapes(cs[m].placements) == ExplodedOrdered(rs, size)[idx[m]]
      ensures forall m :: 0 <= m < |cs| ==>
        && idx[m] < |ExplodedOrdered(rs, size)| && |ExplodedOrdered(rs, size)[idx[m]]| > 0
        && CheckFeasibility(old(root), ExplodedOrdered(rs, size)[idx[m]], 0) != Infeasible
      ensures forall m :: 0 <= m < |cs| ==> PlacedAtOffered(sheet, cs[m].placements, 0)
      ensures |rs| == 1 && Sound(sheet, old(root)) ==> (|cs| > 0 <==> FitsAlone(sheet, rs[0].shape))
    {
      var ess := ExplodeRequiredShapes(rs, size);
      assert |ess| == Product(rs) by {
        ExplodedOrderedCount(rs, size);
      }
      assert forall e :: e in ess ==> |e| > 0 by {
        ExplodedOrderedElements(rs, size);
      }
      cs, idx := BuildEach(sheet, ess);
      if |rs| == 1 {
        var lead := rs[0].shape;
        SingleRequestLeads(rs, size);
        var single :| 0 <= single < |ess| && ess[single] == [lead];
        if Sound(sheet, old(root)) && FitsAlone(sheet, lead) {
          assert |ess[single]| == 1 && FitsAlone(sheet, ess[single][0]);
        }
        if |cs| > 0 {
          var j :| 0 <= j < |ess| && FitsAlone(sheet, ess[j][0]);
          assert ess[j] in ess;
          assert FitsAlone(sheet, lead);
        }
      }
    }

    /** The loop of buildColumns: try each sequence in turn, skipping those the trie
        already knows to be infeasible. Column m comes from sequence idx[m]. */
    method BuildEach(sheet: Sheet, ess: seq<seq<Shape>>) returns (cs: seq<Column>, ghost idx: seq<nat>)
      requires forall e :: e in ess ==> |e| > 0
      modifies this
      ensures Extends(old(root), root)
      ensures Sound(sheet, old(root)) ==> Sound(sheet, root)
      ensures |cs| <= |ess|
      ensures forall c :: c in cs ==> fresh(c) && Yielded(c, sheet, ess)
      ensures |idx| == |cs| && Increasing(idx)
      ensures forall m :: 0 <= m < |cs| ==> idx[m] < |ess| && Shapes(cs[m].placements) == ess[idx[m]]
      ensures forall m :: 0 <= m < |cs| ==> idx[m] < |ess| && CheckFeasibility(old(root), ess[idx[m]], 0) != Infeasible
      ensures forall m :: 0 <= m < |cs| ==> PlacedAtOffered(sheet, cs[m].placements, 0)
      ensures |cs| > 0 ==> exists j :: 0 <= j < |ess| && FitsAlone(sheet, ess[j][0])
      ensures Sound(sheet, old(root)) && (exists j :: 0 <= j < |ess| && |ess[j]| == 1 && FitsAlone(sheet, ess[j][0]))
        ==> |cs| > 0
    {
      ExtendsReflexive(root);
      cs, idx := [], [];
      for k := 0 to |ess|
        invariant Extends(old(root), root)
        invariant Sound(sheet, old(root)) ==> Sound(sheet, root)
        invariant |cs| <= k
        invariant |idx| == |cs| && Increasing(idx)
        invariant forall m :: 0 <= m < |cs| ==>
          && fresh(cs[m]) && cs[m].sheet == sheet && cs[m].Valid()
          && idx[m] < k && Shapes(cs[m].placements) == ess[idx[m]]
          && CheckFeasibility(old(root), ess[idx[m]], 0) != Infeasible
          && PlacedAtOffered(sheet, cs[m].placements, 0)
        invariant |cs| > 0 ==> exists j :: 0 <= j < k && FitsAlone(sheet, ess[j][0])
        invariant Sound(sheet, old(root)) && (exists j :: 0 <= j < k && |ess[j]| == 1 && FitsAlone(sheet, ess[j][0]))
          ==> |cs| > 0
      {
        var ss := ess[k];
        assert ss in ess;
        ghost var before := root;
        var c := TrySequence(sheet, ss);
        ExtendsTransitive(old(root), before, root);
        if c != null {
          if CheckFeasibility(old(root), ss, 0) == Infeasible {
            ExtendsKeepsInfeasible(old(root), before, ss, 0);
          }
          cs, idx := cs + [c], idx + [k];
        }
      }
      forall c | c in cs
        ensures fresh(c) && Yielded(c, sheet, ess)
      {
        var m :| 0 <= m < |cs| && cs[m] == c;
        assert ess[idx[m]] in ess;
      }
    }

    /** Strictly increasing indices: no sequence is used twice. */
    static ghost predicate Increasing(idx: seq<nat>) {
      forall a, b :: 0 <= a < b < |idx| ==> idx[a] < idx[b]
    }

    /** A column as buildColumns returns it: on the sheet, laid out validly, holding
        exactly the shapes of one of the sequences tried. */
    static ghost predicate Yielded(c: Column, sheet: Sheet, ess: seq<seq<Shape>>)
      reads c
    {
      c.sheet == sheet && c.Valid() && Shapes(c.placements) in ess
    }
  }
}
