/** A column: one sheet layout, built by inserting and removing placements. */
module Columns {
  import opened Geometry

  /** The shapes from index i on; empty when i is past the end. */
  function Suffix(ss: seq<Shape>, i: nat): seq<Shape> {
    if i <= |ss| then ss[i..] else []
  }

  /** The positions 0 .. n-1 of a sequence of length n. */
  function Positions(n: nat): (r: set<nat>)
    ensures forall k: int :: k in r <==> 0 <= k < n
  {
    if n == 0 then {} else Positions(n - 1) + {n - 1}
  }

  lemma ShapesAppend(ps: seq<Placement>, p: Placement)
    ensures Shapes(ps + [p]) == Shapes(ps) + [p.shape]
  {
  }

  lemma ModAddStep(a: int, b: int)
    ensures (a % Modulus + b) % Modulus == (a + b) % Modulus
  {
    var q := a / Modulus;
    assert a == q * Modulus + a % Modulus;
    assert a + b == (a % Modulus + b) + q * Modulus;
  }

  class Column {
    /** The problem parameters the layout is checked against. */
    const sheet: Sheet
    /** The location-to-shape map, one entry per placement, in insertion order. */
    var placements: seq<Placement>

    /** Every placed rectangle is on the sheet and every pair is kerf-separated. */
    ghost predicate Valid()
      reads this
    {
      ValidLayout(sheet, placements)
    }

    constructor (sheet: Sheet)
      ensures this.sheet == sheet && placements == []
      ensures Valid()
    {
      this.sheet := sheet;
      placements := [];
    }

    /** The copy constructor: same sheet, same placements. */
    constructor Copy(that: Column)
      ensures sheet == that.sheet && placements == that.placements
    {
      sheet := that.sheet;
      placements := that.placements;
    }

    /** check: the location is non-negative, the shape stays on the sheet in the
        chosen orientation, and no placed rectangle has all four gaps below the kerf. */
    method Check(l: Loc, s: Shape) returns (ok: bool)
      ensures ok == Admissible(sheet, placements, l, s)
    {
      if l.x < 0 || l.y < 0 {
        return false;
      }
      if l.x + (if l.turn then s.height else s.width) > sheet.resourceWidth
        || l.y + (if l.turn then s.width else s.height) > sheet.resourceHeight
      {
        return false;
      }
      var k := 0;
      while k < |placements|
        invariant 0 <= k <= |placements|
        invariant forall j :: 0 <= j < k ==> !Clash(sheet, l, s, placements[j].loc, placements[j].shape)
      {
        var l2 := placements[k].loc;
        var s2 := placements[k].shape;
        if l2.x - l.x - (if l.turn then s.height else s.width) < sheet.cuttingLoss
          && l.x - l2.x - (if l2.turn then s2.height else s2.width) < sheet.cuttingLoss
          && l2.y - l.y - (if l.turn then s.width else s.height) < sheet.cuttingLoss
          && l.y - l2.y - (if l2.turn then s2.width else s2.height) < sheet.cuttingLoss
        {
          return false;
        }
        k := k + 1;
      }
      return true;
    }

    /** add: a guarded insert. */
    method Add(l: Loc, s: Shape) returns (added: bool)
      modifies this
      ensures added == old(Admissible(sheet, placements, l, s))
      ensures placements == if added then old(placements) + [Placement(l, s)] else old(placements)
      ensures old(Valid()) ==> Valid()
    {
      added := Check(l, s);
      if added {
        if Valid() {
          AdmissibleExtends(sheet, placements, l, s);
        }
        placements := placements + [Placement(l, s)];
      }
    }

    /** The helper possibleLocs(l, s, locs): keep the candidate when it passes check. */
    method Offer(l: Loc, s: Shape, locs: seq<Loc>) returns (locs': seq<Loc>)
      ensures locs' == if Admissible(sheet, placements, l, s) then locs + [l] else locs
    {
      var ok := Check(l, s);
      locs' := if ok then locs + [l] else locs;
    }

    /** Offer each candidate of cs in turn, as the source's run of helper calls does. */
    method OfferEach(cs: seq<Loc>, s: Shape, locs: seq<Loc>) returns (locs': seq<Loc>)
      ensures locs' == locs + AdmissibleOf(sheet, placements, cs, s)
    {
      locs' := locs;
      for c := 0 to |cs|
        invariant locs' == locs + AdmissibleOf(sheet, placements, cs[..c], s)
      {
        assert cs[..c + 1] == cs[..c] + [cs[c]];
        AdmissibleOfSnoc(sheet, placements, cs[..c], cs[c], s);
        locs' := Offer(cs[c], s, locs');
      }
      assert cs[..|cs|] == cs;
    }

    /** possibleLocs: the eight sheet corners, then the flush offsets around every placed
        rectangle, each kept only if it passes check; the column itself is not changed. */
    method PossibleLocs(s: Shape) returns (locs: seq<Loc>)
      ensures locs == AdmissibleOf(sheet, placements, Candidates(sheet, placements, s), s)
      ensures forall l :: l in locs ==> Admissible(sheet, placements, l, s)
      ensures placements == [] ==> (|locs| > 0 <==> FitsAlone(sheet, s))
    {
      locs := OfferEach(Corners(sheet, s), s, []);
      locs := OfferAround(s, locs);
      AdmissibleOfMembers(sheet, placements, Candidates(sheet, placements, s), s);
      if placements == [] {
        EmptySheetLocs(sheet, s);
      }
    }

    /** The second half of possibleLocs: the offsets around each placed rectangle in turn. */
    method OfferAround(s: Shape, corners: seq<Loc>) returns (locs: seq<Loc>)
      requires corners == AdmissibleOf(sheet, placements, Corners(sheet, s), s)
      ensures locs == AdmissibleOf(sheet, placements, Candidates(sheet, placements, s), s)
    {
      locs := corners;
      assert placements[..0] == [];
      for j := 0 to |placements|
        invariant locs == AdmissibleOf(sheet, placements, Candidates(sheet, placements[..j], s), s)
      {
        var prior := Candidates(sheet, placements[..j], s);
        var around := Around(sheet, placements[j], s);
        locs := OfferEach(around, s, locs);
        AdmissibleOfAppend(sheet, placements, prior, around, s);
        assert placements[..j + 1][..j] == placements[..j];
      }
      assert placements[..|placements|] == placements;
    }

    /** The recursive construct: place ss[i], ss[i+1], ... one after another, trying the
        possible locations of each and undoing a placement whose continuation fails. */
    static method Construct(c: Column, ss: seq<Shape>, i: nat) returns (ok: bool)
      modifies c
      ensures !ok ==> c.placements == old(c.placements)
      ensures ok ==> |c.placements| >= old(|c.placements|)
      ensures ok ==> c.placements[..old(|c.placements|)] == old(c.placements)
      ensures ok ==> Shapes(c.placements) == Shapes(old(c.placements)) + Suffix(ss, i)
      ensures old(c.Valid()) ==> c.Valid()
      decreases |ss| - i, 1
    {
      if i < |ss| {
        var locs := c.PossibleLocs(ss[i]);
        ok := TryEach(c, ss, i, locs);
        return;
      }
      assert Suffix(ss, i) == [];
      return true;
    }

    /** The loop of construct over the possible locations of ss[i], in arbitrary order. */
    static method TryEach(c: Column, ss: seq<Shape>, i: nat, locs: seq<Loc>) returns (ok: bool)
      requires i < |ss|
      requires forall l :: l in locs ==> Admissible(c.sheet, c.placements, l, ss[i])
      modifies c
      ensures !ok ==> c.placements == old(c.placements)
      ensures ok ==> |c.placements| >= old(|c.placements|)
      ensures ok ==> c.placements[..old(|c.placements|)] == old(c.placements)
      ensures ok ==> Shapes(c.placements) == Shapes(old(c.placements)) + Suffix(ss, i)
      ensures old(c.Valid()) ==> c.Valid()
      decreases |ss| - i, 0
    {
      ghost var entry := c.placements;
      var pending := Positions(|locs|);
      while pending != {}
        invariant c.placements == entry
        invariant forall k :: k in pending ==> 0 <= k < |locs|
        decreases pending
      {
        var k :| k in pending;
        pending := pending - {k};
        var l := locs[k];
        ghost var next := entry + [Placement(l, ss[i])];
        assert Admissible(c.sheet, entry, l, ss[i]);
        if c.Valid() {
          AdmissibleExtends(c.sheet, entry, l, ss[i]);
        }
        c.placements := c.placements + [Placement(l, ss[i])];
        ok := Construct(c, ss, i + 1);
        if ok {
          ShapesAppend(entry, Placement(l, ss[i]));
          assert [ss[i]] + Suffix(ss, i + 1) == Suffix(ss, i);
          assert Shapes(c.placements) == Shapes(entry) + Suffix(ss, i);
          assert c.placements[..|entry|] == next[..|entry|] == entry;
          return;
        }
        c.placements := c.placements[..|c.placements| - 1];
        assert next[..|entry|] == entry;
      }
      return false;
    }

    /** The static construct: try the orderings of the shapes (supplied by the caller,
        in the order visited) until one can be laid out completely; null when none can.
        The source's run-time check that every shape of the ordering was placed holds. */
    static method ConstructAny(sheet: Sheet, shapes: seq<Shape>, orderings: seq<seq<Shape>>) returns (c: Column?)
      ensures c != null ==> fresh(c) && c.sheet == sheet && c.Valid()
      ensures c != null ==> exists k :: 0 <= k < |orderings| && Shapes(c.placements) == orderings[k]
      ensures c != null ==>
        (forall k :: 0 <= k < |orderings| ==> multiset(orderings[k]) == multiset(shapes)) ==>
        multiset(Shapes(c.placements)) == multiset(shapes)
    {
      for k := 0 to |orderings| {
        var ss := orderings[k];
        c := new Column(sheet);
        var ok := Construct(c, ss, 0);
        if !ok {
          continue;
        }
        assert Shapes(c.placements) == ss;
        assert forall s :: s in ss ==> HasShape(c.placements, s) by {
          forall s | s in ss ensures HasShape(c.placements, s) {
            var j :| 0 <= j < |ss| && ss[j] == s;
            assert Shapes(c.placements)[j] == s;
          }
        }
        return c;
      }
      return null;
    }

    /** equals: the two columns contain each other's shapes. */
    predicate Equals(that: Column)
      reads this, that
      ensures Equals(that) <==> ShapeSet(placements) == ShapeSet(that.placements)
    {
      ColumnEqualsIffSameShapeSet(placements, that.placements);
      ColumnEquals(placements, that.placements)
    }

    /** hashCode: a fixed seed plus 42 times each placed shape's hash, in 32-bit arithmetic. */
    method HashCode() returns (hc: int)
      ensures hc == ColumnHash(placements)
      ensures 0 <= hc < Modulus
    {
      hc := 489343;
      assert placements[..0] == [] && Shapes([]) == [];
      for j := 0 to |placements|
        invariant hc == (489343 + 42 * HashSum(Shapes(placements[..j]))) % Modulus
      {
        var s := placements[j].shape;
        assert placements[..j + 1] == placements[..j] + [placements[j]];
        ShapesAppend(placements[..j], placements[j]);
        assert Shapes(placements[..j + 1])[..j] == Shapes(placements[..j]);
        ModAddStep(489343 + 42 * HashSum(Shapes(placements[..j])), 42 * ShapeHash(s));
        hc := (hc + 42 * ShapeHash(s)) % Modulus;
      }
      assert placements[..|placements|] == placements;
    }
  }
}
