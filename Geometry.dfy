/** The geometric vocabulary of one sheet layout ("column"): shapes, locations,
    placements, the sheet, the kerf test, the candidate locations that the
    constructor probes, and the shape-only equality and hash of a column. */
module Geometry {

  /** A shape type. The problem reader numbers shapes 1, 2, ... in line order,
      so a shape value is identified by its id exactly as a Shape object is
      identified by reference. */
  datatype Shape = Shape(id: int, width: int, height: int)

  /** Where a shape sits: its lower-left corner, and whether it is turned by 90 degrees. */
  datatype Loc = Loc(x: int, y: int, turn: bool)

  /** One entry of a column's location-to-shape map. */
  datatype Placement = Placement(loc: Loc, shape: Shape)

  /** The problem parameters a column reads: kerf and sheet size. */
  datatype Sheet = Sheet(cuttingLoss: int, resourceWidth: int, resourceHeight: int)

  /** Horizontal extent of a shape placed at l (width and height swap when turned). */
  function ExtentX(l: Loc, s: Shape): int {
    if l.turn then s.height else s.width
  }

  /** Vertical extent of a shape placed at l. */
  function ExtentY(l: Loc, s: Shape): int {
    if l.turn then s.width else s.height
  }

  /** The location is non-negative and the turned-or-not rectangle stays on the sheet. */
  predicate InBounds(sheet: Sheet, l: Loc, s: Shape) {
    && 0 <= l.x && 0 <= l.y
    && l.x + ExtentX(l, s) <= sheet.resourceWidth
    && l.y + ExtentY(l, s) <= sheet.resourceHeight
  }

  /** The four-gap test: the new shape s at l clashes with s2 at l2 when every one of
      the four directional gaps between them is below the kerf. */
  predicate Clash(sheet: Sheet, l: Loc, s: Shape, l2: Loc, s2: Shape) {
    && l2.x - l.x - ExtentX(l, s) < sheet.cuttingLoss
    && l.x - l2.x - ExtentX(l2, s2) < sheet.cuttingLoss
    && l2.y - l.y - ExtentY(l, s) < sheet.cuttingLoss
    && l.y - l2.y - ExtentY(l2, s2) < sheet.cuttingLoss
  }

  /** What check decides: s fits at l on a sheet already holding ps. */
  predicate Admissible(sheet: Sheet, ps: seq<Placement>, l: Loc, s: Shape) {
    && InBounds(sheet, l, s)
    && forall k :: 0 <= k < |ps| ==> !Clash(sheet, l, s, ps[k].loc, ps[k].shape)
  }

  /** The placement invariant of an accepted column: every placed rectangle is on
      the sheet and every two of them are kerf-separated. */
  ghost predicate ValidLayout(sheet: Sheet, ps: seq<Placement>) {
    && (forall k :: 0 <= k < |ps| ==> InBounds(sheet, ps[k].loc, ps[k].shape))
    && (forall a, b :: 0 <= a < |ps| && 0 <= b < |ps| && a != b ==>
          !Clash(sheet, ps[a].loc, ps[a].shape, ps[b].loc, ps[b].shape))
  }

  /** The layout was accepted one placement at a time, each admissible on top of the
      placements made before it. */
  ghost predicate AcceptedInOrder(sheet: Sheet, ps: seq<Placement>) {
    forall k :: 0 <= k < |ps| ==> Admissible(sheet, ps[..k], ps[k].loc, ps[k].shape)
  }

  /** The shape fits on an empty sheet in at least one orientation. */
  predicate FitsAlone(sheet: Sheet, s: Shape) {
    || (s.width <= sheet.resourceWidth && s.height <= sheet.resourceHeight)
    || (s.height <= sheet.resourceWidth && s.width <= sheet.resourceHeight)
  }

  /** Swapping the two rectangles permutes the four gaps, so clashing is symmetric. */
  lemma ClashSymmetric(sheet: Sheet, l: Loc, s: Shape, l2: Loc, s2: Shape)
    ensures Clash(sheet, l, s, l2, s2) <==> Clash(sheet, l2, s2, l, s)
  {
  }

  /** A location outside the non-negative quadrant never passes the test. */
  lemma NegativeLocationRejected(sheet: Sheet, ps: seq<Placement>, l: Loc, s: Shape)
    requires l.x < 0 || l.y < 0
    ensures !Admissible(sheet, ps, l, s)
  {
  }

  /** A shape that overflows the sheet in its chosen orientation never passes the test. */
  lemma OverflowRejected(sheet: Sheet, ps: seq<Placement>, l: Loc, s: Shape)
    requires l.x + (if l.turn then s.height else s.width) > sheet.resourceWidth
          || l.y + (if l.turn then s.width else s.height) > sheet.resourceHeight
    ensures !Admissible(sheet, ps, l, s)
  {
  }

  /** Anything that is in bounds somewhere fits on an empty sheet, in the orientation
      the location chooses. */
  lemma InBoundsFitsAlone(sheet: Sheet, l: Loc, s: Shape)
    requires InBounds(sheet, l, s)
    ensures ExtentX(l, s) <= sheet.resourceWidth && ExtentY(l, s) <= sheet.resourceHeight
    ensures FitsAlone(sheet, s)
  {
  }

  /** Adding an admissible placement to a valid layout keeps it valid. */
  lemma AdmissibleExtends(sheet: Sheet, ps: seq<Placement>, l: Loc, s: Shape)
    requires ValidLayout(sheet, ps)
    requires Admissible(sheet, ps, l, s)
    ensures ValidLayout(sheet, ps + [Placement(l, s)])
  {
    var qs := ps + [Placement(l, s)];
    forall a, b | 0 <= a < |qs| && 0 <= b < |qs| && a != b
      ensures !Clash(sheet, qs[a].loc, qs[a].shape, qs[b].loc, qs[b].shape)
    {
      if a == |ps| {
        assert !Clash(sheet, l, s, ps[b].loc, ps[b].shape);
      } else if b == |ps| {
        assert !Clash(sheet, l, s, ps[a].loc, ps[a].shape);
        ClashSymmetric(sheet, l, s, ps[a].loc, ps[a].shape);
      }
    }
  }

  /** Order does not matter: accepting placements one at a time, each checked only
      against the earlier ones, yields exactly the layouts that are valid as a whole. */
  lemma {:induction false} AcceptedInOrderIffValid(sheet: Sheet, ps: seq<Placement>)
    ensures AcceptedInOrder(sheet, ps) <==> ValidLayout(sheet, ps)
  {
    if ps != [] {
      var n := |ps| - 1;
      var init := ps[..n];
      assert ps == init + [ps[n]];
      AcceptedInOrderIffValid(sheet, init);
      if AcceptedInOrder(sheet, ps) {
        assert AcceptedInOrder(sheet, init) by {
          forall k | 0 <= k < |init|
            ensures Admissible(sheet, init[..k], init[k].loc, init[k].shape)
          {
            assert init[..k] == ps[..k];
          }
        }
        assert ps[..n] == init;
        AdmissibleExtends(sheet, init, ps[n].loc, ps[n].shape);
      }
      if ValidLayout(sheet, ps) {
        assert ValidLayout(sheet, init);
        forall k | 0 <= k < |ps|
          ensures Admissible(sheet, ps[..k], ps[k].loc, ps[k].shape)
        {
          forall j | 0 <= j < k
            ensures !Clash(sheet, ps[k].loc, ps[k].shape, ps[..k][j].loc, ps[..k][j].shape)
          {
            assert ps[..k][j] == ps[j];
          }
        }
      }
    }
  }

  // ---------------------------------------------------------------------------
  // Candidate locations (Column.possibleLocs)

  /** The eight sheet-corner alignments: four corners, each in both orientations. */
  function Corners(sheet: Sheet, s: Shape): (r: seq<Loc>)
    ensures |r| == 8
  {
    var xmax := sheet.resourceWidth - s.width;
    var xmaxt := sheet.resourceWidth - s.height;
    var ymax := sheet.resourceHeight - s.height;
    var ymaxt := sheet.resourceHeight - s.width;
    [ Loc(0, 0, false), Loc(0, 0, true), Loc(xmax, 0, false), Loc(xmaxt, 0, true),
      Loc(0, ymax, false), Loc(0, ymaxt, true), Loc(xmax, ymax, false), Loc(xmaxt, ymaxt, true) ]
  }

  /** The flush offsets for s around one placed rectangle p: its corners and sides at
      kerf distance, then the sheet edges level with its kerf lines, both orientations. */
  function Around(sheet: Sheet, p: Placement, s: Shape): (r: seq<Loc>)
    ensures |r| == 40
  {
    var l := p.loc;
    var k := sheet.cuttingLoss;
    var ow := ExtentX(l, p.shape);
    var oh := ExtentY(l, p.shape);
    var xmax := sheet.resourceWidth - s.width;
    var xmaxt := sheet.resourceWidth - s.height;
    var ymax := sheet.resourceHeight - s.height;
    var ymaxt := sheet.resourceHeight - s.width;
    var x1 := l.x - s.width - k;
    var x1t := l.x - s.height - k;
    var x2 := l.x;
    var x3 := l.x + ow - s.width;
    var x3t := l.x + ow - s.height;
    var x4 := l.x + ow + k;
    var y1 := l.y - s.height - k;
    var y1t := l.y - s.width - k;
    var y2 := l.y;
    var y3 := l.y + oh - s.height;
    var y3t := l.y + oh - s.width;
    var y4 := l.y + oh + k;
    [ Loc(x1, y2, false), Loc(x1t, y2, true),     // a
      Loc(x1, y1, false), Loc(x1t, y1t, true),    // b
      Loc(x2, y1, false), Loc(x2, y1t, true),     // c
      Loc(x3, y1, false), Loc(x3t, y1t, true),    // d
      Loc(x4, y1, false), Loc(x4, y1t, true),     // e
      Loc(x4, y2, false), Loc(x4, y2, true),      // f
      Loc(x4, y3, false), Loc(x4, y3t, true),     // g
      Loc(x4, y4, false), Loc(x4, y4, true),      // h
      Loc(x3, y4, false), Loc(x3t, y4, true),     // i
      Loc(x2, y4, false), Loc(x2, y4, true),      // j
      Loc(x1, y4, false), Loc(x1t, y4, true),     // k
      Loc(x1, y3, false), Loc(x1t, y3t, true),    // l
      Loc(0, y1, false), Loc(0, y1t, true),
      Loc(0, y4, false), Loc(0, y4, true),
      Loc(xmax, y1, false), Loc(xmaxt, y1t, true),
      Loc(xmax, y4, false), Loc(xmaxt, y4, true),
      Loc(x1, 0, false), Loc(x1t, 0, true),
      Loc(x4, 0, false), Loc(x4, 0, true),
      Loc(x1, ymax, false), Loc(x1t, ymaxt, true),
      Loc(x4, ymax, false), Loc(x4, ymaxt, true) ]
  }

  /** Every location probed for s on a sheet holding ps, in probing order. */
  function Candidates(sheet: Sheet, ps: seq<Placement>, s: Shape): (r: seq<Loc>)
    ensures |r| == 8 + 40 * |ps|
  {
    if ps == [] then Corners(sheet, s)
    else Candidates(sheet, ps[..|ps| - 1], s) + Around(sheet, ps[|ps| - 1], s)
  }

  /** The candidates in cs that pass the test against ps, in order. */
  function AdmissibleOf(sheet: Sheet, ps: seq<Placement>, cs: seq<Loc>, s: Shape): seq<Loc> {
    if cs == [] then []
    else
      var r0 := AdmissibleOf(sheet, ps, cs[..|cs| - 1], s);
      var l := cs[|cs| - 1];
      if Admissible(sheet, ps, l, s) then r0 + [l] else r0
  }

  /** The locations possibleLocs offers for s on top of ps. */
  function Offered(sheet: Sheet, ps: seq<Placement>, s: Shape): seq<Loc> {
    AdmissibleOf(sheet, ps, Candidates(sheet, ps, s), s)
  }

  /** Every placement from position n on sits at a location that possibleLocs offered
      for its shape on top of the placements before it. */
  ghost predicate PlacedAtOffered(sheet: Sheet, ps: seq<Placement>, n: nat) {
    forall k :: n <= k < |ps| ==> ps[k].loc in Offered(sheet, ps[..k], ps[k].shape)
  }

  /** Placing one more offered location in front of an offered suffix. */
  lemma PlacedAtOfferedStep(sheet: Sheet, ps: seq<Placement>, n: nat)
    requires n < |ps| && PlacedAtOffered(sheet, ps, n + 1)
    requires ps[n].loc in Offered(sheet, ps[..n], ps[n].shape)
    ensures PlacedAtOffered(sheet, ps, n)
  {
  }

  /** A layout made only at offered locations is a valid layout: every offer passed the
      test against the placements made before it. */
  lemma OfferedLayoutValid(sheet: Sheet, ps: seq<Placement>)
    requires PlacedAtOffered(sheet, ps, 0)
    ensures ValidLayout(sheet, ps)
  {
    forall k | 0 <= k < |ps|
      ensures Admissible(sheet, ps[..k], ps[k].loc, ps[k].shape)
    {
      AdmissibleOfMembers(sheet, ps[..k], Candidates(sheet, ps[..k], ps[k].shape), ps[k].shape);
    }
    AcceptedInOrderIffValid(sheet, ps);
  }

  /** Filtering keeps exactly the candidates that pass the test. */
  lemma {:induction false} AdmissibleOfMembers(sheet: Sheet, ps: seq<Placement>, cs: seq<Loc>, s: Shape)
    ensures forall l :: l in AdmissibleOf(sheet, ps, cs, s) <==> l in cs && Admissible(sheet, ps, l, s)
  {
    if cs != [] {
      var n := |cs| - 1;
      assert cs == cs[..n] + [cs[n]];
      AdmissibleOfMembers(sheet, ps, cs[..n], s);
    }
  }

  /** Filtering one more candidate appends it exactly when it passes the test. */
  lemma AdmissibleOfSnoc(sheet: Sheet, ps: seq<Placement>, cs: seq<Loc>, l: Loc, s: Shape)
    ensures AdmissibleOf(sheet, ps, cs + [l], s)
         == AdmissibleOf(sheet, ps, cs, s) + (if Admissible(sheet, ps, l, s) then [l] else [])
  {
    assert (cs + [l])[..|cs|] == cs;
  }

  lemma {:induction false} AdmissibleOfAppend(sheet: Sheet, ps: seq<Placement>, a: seq<Loc>, b: seq<Loc>, s: Shape)
    ensures AdmissibleOf(sheet, ps, a + b, s) == AdmissibleOf(sheet, ps, a, s) + AdmissibleOf(sheet, ps, b, s)
  {
    if b == [] {
      assert a + b == a;
    } else {
      var n := |b| - 1;
      assert a + b == (a + b[..n]) + [b[n]];
      assert b == b[..n] + [b[n]];
      AdmissibleOfAppend(sheet, ps, a, b[..n], s);
      AdmissibleOfSnoc(sheet, ps, a + b[..n], b[n], s);
      AdmissibleOfSnoc(sheet, ps, b[..n], b[n], s);
    }
  }

  /** On an empty sheet some corner is admissible exactly when the shape fits alone. */
  lemma EmptySheetCorners(sheet: Sheet, s: Shape)
    ensures (exists l :: l in Corners(sheet, s) && Admissible(sheet, [], l, s)) <==> FitsAlone(sheet, s)
  {
    var cs := Corners(sheet, s);
    if s.width <= sheet.resourceWidth && s.height <= sheet.resourceHeight {
      assert cs[0] in cs && Admissible(sheet, [], cs[0], s);
    } else if s.height <= sheet.resourceWidth && s.width <= sheet.resourceHeight {
      assert cs[1] in cs && Admissible(sheet, [], cs[1], s);
    }
    if exists l :: l in cs && Admissible(sheet, [], l, s) {
      var l :| l in cs && Admissible(sheet, [], l, s);
      InBoundsFitsAlone(sheet, l, s);
    }
  }

  /** On an empty sheet some candidate location survives exactly when the shape fits
      alone. */
  lemma EmptySheetLocs(sheet: Sheet, s: Shape)
    ensures |AdmissibleOf(sheet, [], Candidates(sheet, [], s), s)| > 0 <==> FitsAlone(sheet, s)
  {
    var cs := Corners(sheet, s);
    assert Candidates(sheet, [], s) == cs;
    EmptySheetCorners(sheet, s);
    AdmissibleOfMembers(sheet, [], cs, s);
    var r := AdmissibleOf(sheet, [], cs, s);
    if |r| > 0 {
      assert r[0] in r;
    }
  }

  // ---------------------------------------------------------------------------
  // Column equality and hash: both look at the placed shapes only

  /** The shapes of a column, one per placement. */
  function Shapes(ps: seq<Placement>): (r: seq<Shape>)
    ensures |r| == |ps| && forall k :: 0 <= k < |ps| ==> r[k] == ps[k].shape
  {
    seq(|ps|, k requires 0 <= k < |ps| => ps[k].shape)
  }

  /** Shape.hashCode, as the bit pattern of a 32-bit integer it only matters modulo 2^32. */
  function ShapeHash(s: Shape): int {
    893 + 949363 * s.id + 90 * s.width + 19 * s.height
  }

  /** Sum of the shape hashes, without wrap-around. */
  function HashSum(ss: seq<Shape>): int {
    if ss == [] then 0 else HashSum(ss[..|ss| - 1]) + ShapeHash(ss[|ss| - 1])
  }

  const Modulus: int := 0x1_0000_0000

  /** Column.hashCode as an unsigned 32-bit pattern: Java's int arithmetic wraps, so the
      result is the exact sum taken modulo 2^32. */
  function ColumnHash(ps: seq<Placement>): (h: int)
    ensures 0 <= h < Modulus
  {
    (489343 + 42 * HashSum(Shapes(ps))) % Modulus
  }

  /** s is among the shapes placed in ps. */
  predicate HasShape(ps: seq<Placement>, s: Shape) {
    exists j :: 0 <= j < |ps| && ps[j].shape == s
  }

  /** Column.equals: each column's shapes contain all of the other's. */
  predicate ColumnEquals(ps: seq<Placement>, qs: seq<Placement>) {
    && (forall j :: 0 <= j < |ps| ==> HasShape(qs, ps[j].shape))
    && (forall j :: 0 <= j < |qs| ==> HasShape(ps, qs[j].shape))
  }

  /** The set of shapes placed in a column. */
  function ShapeSet(ps: seq<Placement>): set<Shape> {
    set j | 0 <= j < |ps| :: ps[j].shape
  }

  /** Column equality is equality of the shape sets: locations, order and
      multiplicity play no part. */
  lemma ColumnEqualsIffSameShapeSet(ps: seq<Placement>, qs: seq<Placement>)
    ensures ColumnEquals(ps, qs) <==> ShapeSet(ps) == ShapeSet(qs)
  {
    if ColumnEquals(ps, qs) {
      forall s | s in ShapeSet(ps) ensures s in ShapeSet(qs) {
        var j :| 0 <= j < |ps| && ps[j].shape == s;
        assert HasShape(qs, ps[j].shape);
      }
      forall s | s in ShapeSet(qs) ensures s in ShapeSet(ps) {
        var j :| 0 <= j < |qs| && qs[j].shape == s;
        assert HasShape(ps, qs[j].shape);
      }
    }
    if ShapeSet(ps) == ShapeSet(qs) {
      forall j | 0 <= j < |ps| ensures HasShape(qs, ps[j].shape) {
        assert ps[j].shape in ShapeSet(qs);
      }
      forall j | 0 <= j < |qs| ensures HasShape(ps, qs[j].shape) {
        assert qs[j].shape in ShapeSet(ps);
      }
    }
  }

  lemma {:induction false} HashSumAppend(a: seq<Shape>, b: seq<Shape>)
    ensures HashSum(a + b) == HashSum(a) + HashSum(b)
  {
    if b != [] {
      var n := |b| - 1;
      assert (a + b)[..|a + b| - 1] == a + b[..n];
      HashSumAppend(a, b[..n]);
    } else {
      assert a + b == a;
    }
  }

  /** Taking one shape out of a sequence takes its hash out of the sum. */
  lemma HashSumRemove(b: seq<Shape>, j: nat)
    requires j < |b|
    ensures HashSum(b) == HashSum(b[..j] + b[j + 1..]) + ShapeHash(b[j])
  {
    var x, front, back := b[j], b[..j], b[j + 1..];
    assert b == front + [x] + back;
    HashSumAppend(front + [x], back);
    HashSumAppend(front, [x]);
    HashSumAppend(front, back);
    assert HashSum([x]) == ShapeHash(x) by { assert [x][..0] == []; }
  }

  /** Removing the last element of a and an equal element of b keeps the multisets equal. */
  lemma MultisetRemove(a: seq<Shape>, b: seq<Shape>, j: nat)
    requires |a| > 0 && j < |b| && b[j] == a[|a| - 1]
    requires multiset(a) == multiset(b)
    ensures multiset(a[..|a| - 1]) == multiset(b[..j] + b[j + 1..])
  {
    var n := |a| - 1;
    var x := a[n];
    assert a == a[..n] + [x];
    assert b == b[..j] + [x] + b[j + 1..];
    assert multiset(a[..n]) == multiset(a) - multiset{x};
    assert multiset(b[..j] + b[j + 1..]) == multiset(b) - multiset{x};
  }

  /** The hash sum ignores the order of the shapes. */
  lemma {:induction false} HashSumPermutation(a: seq<Shape>, b: seq<Shape>)
    requires multiset(a) == multiset(b)
    ensures HashSum(a) == HashSum(b)
  {
    if a == [] {
      assert |b| == |multiset(b)| == 0;
    } else {
      var n := |a| - 1;
      var x := a[n];
      assert x in multiset(b) by {
        assert a == a[..n] + [x];
      }
      var j :| 0 <= j < |b| && b[j] == x;
      MultisetRemove(a, b, j);
      HashSumPermutation(a[..n], b[..j] + b[j + 1..]);
      HashSumRemove(b, j);
    }
  }

  /** Two columns holding the same shapes with the same multiplicities, wherever and in
      whatever order they sit, are equal and have the same hash: a hash set of columns
      treats them as duplicates. */
  lemma SameShapesSameColumn(ps: seq<Placement>, qs: seq<Placement>)
    requires multiset(Shapes(ps)) == multiset(Shapes(qs))
    ensures ColumnHash(ps) == ColumnHash(qs)
    ensures ColumnEquals(ps, qs)
  {
    HashSumPermutation(Shapes(ps), Shapes(qs));
    assert ShapeSet(ps) == ShapeSet(qs) by {
      forall s ensures s in ShapeSet(ps) <==> s in multiset(Shapes(ps)) {
        if s in ShapeSet(ps) {
          var j :| 0 <= j < |ps| && ps[j].shape == s;
          assert Shapes(ps)[j] == s;
        }
      }
      forall s ensures s in ShapeSet(qs) <==> s in multiset(Shapes(qs)) {
        if s in ShapeSet(qs) {
          var j :| 0 <= j < |qs| && qs[j].shape == s;
          assert Shapes(qs)[j] == s;
        }
      }
    }
    ColumnEqualsIffSameShapeSet(ps, qs);
  }

  /** Equality and hash disagree on multiplicities: one square and two copies of the
      same square make equal columns with different hashes. */
  lemma EqualsIgnoresMultiplicity()
    ensures exists ps: seq<Placement>, qs: seq<Placement> ::
      && ColumnEquals(ps, qs)
      && multiset(Shapes(ps)) != multiset(Shapes(qs))
      && ColumnHash(ps) != ColumnHash(qs)
  {
    var s := Shape(1, 1, 1);
    var ps := [Placement(Loc(0, 0, false), s)];
    var qs := ps + [Placement(Loc(2, 0, false), s)];
    assert HasShape(qs, s) by { assert qs[0].shape == s; }
    assert HasShape(ps, s) by { assert ps[0].shape == s; }
    assert ColumnEquals(ps, qs);
    assert Shapes(ps) == [s] && Shapes(qs) == [s, s];
    assert multiset(Shapes(ps))[s] == 1 && multiset(Shapes(qs))[s] == 2;
    assert [s, s][..1] == [s] && [s][..0] == [];
    assert HashSum(Shapes(ps)) == 950365;
    assert HashSum(Shapes(qs)) == 1900730;
  }
}
