/** The column-generation driver: one equality row per shape type, one LP column per
    distinct layout found, pricing steered by the duals as the source's dual loop reads
    them (not clamped: see DualsAsWritten), the switch from the fractional to the
    integral phase, and the release of the LP. */
module Solving {
  import opened Geometry
  import opened Columns
  import opened Trie
  import opened Explode
  import opened Builder
  import opened LinearProgram
  import opened Duals

  // ---------------------------------------------------------------------------
  // The LP column of a layout

  /** The number of shapes with id k in ss. */
  function IdCount(ss: seq<Shape>, k: int): nat {
    if ss == [] then 0
    else IdCount(ss[..|ss| - 1], k) + (if ss[|ss| - 1].id == k then 1 else 0)
  }

  /** The coefficient vector of a layout over n shape rows: the cost of one sheet at
      entry 0, then for each row k the number of placed shapes with id k. */
  function CoefficientVector(ps: seq<Placement>, n: nat): (v: seq<int>)
    ensures |v| == n + 1
  {
    seq(n + 1, k requires 0 <= k <= n => if k == 0 then 1 else IdCount(Shapes(ps), k))
  }

  /** The sum of the row entries 1 .. m of a column. */
  function RowSum(v: seq<int>, m: nat): int
    requires m < |v|
  {
    if m == 0 then 0 else RowSum(v, m - 1) + v[m]
  }

  lemma IdCountSnoc(ss: seq<Shape>, x: Shape, k: int)
    ensures IdCount(ss + [x], k) == IdCount(ss, k) + (if x.id == k then 1 else 0)
  {
    assert (ss + [x])[..|ss|] == ss;
  }

  lemma {:induction false} IdCountAppend(a: seq<Shape>, b: seq<Shape>, k: int)
    ensures IdCount(a + b, k) == IdCount(a, k) + IdCount(b, k)
    decreases |b|
  {
    if b == [] {
      assert a + b == a;
    } else {
      var n := |b| - 1;
      assert a + b == (a + b[..n]) + [b[n]];
      assert b == b[..n] + [b[n]];
      IdCountAppend(a, b[..n], k);
      IdCountSnoc(a + b[..n], b[n], k);
      IdCountSnoc(b[..n], b[n], k);
    }
  }

  /** Taking one shape out of a sequence takes it out of the count of its id. */
  lemma IdCountRemove(b: seq<Shape>, j: nat, k: int)
    requires j < |b|
    ensures IdCount(b, k) == IdCount(b[..j] + b[j + 1..], k) + (if b[j].id == k then 1 else 0)
  {
    var x := b[j];
    assert b == (b[..j] + [x]) + b[j + 1..];
    IdCountAppend(b[..j] + [x], b[j + 1..], k);
    IdCountSnoc(b[..j], x, k);
    IdCountAppend(b[..j], b[j + 1..], k);
  }

  /** The count of an id does not depend on the order of the shapes. */
  lemma {:induction false} IdCountPermutation(a: seq<Shape>, b: seq<Shape>, k: int)
    requires multiset(a) == multiset(b)
    ensures IdCount(a, k) == IdCount(b, k)
    decreases |a|
  {
    if a == [] {
      assert |b| == |multiset(b)| == 0;
    } else {
      var n := |a| - 1;
      var x := a[n];
      assert x in multiset(b) by {
        assert a == a[..n] + [x];
      }
      var j :| 0 <= j < |b| && b[j] == x;
      MultisetRemove(a, b, j);
      IdCountPermutation(a[..n], b[..j] + b[j + 1..], k);
      IdCountRemove(b, j, k);
    }
  }

  /** A layout's LP column depends only on which shapes it holds and how often: where
      they sit and in which order they were placed play no part. */
  lemma CoefficientsIgnoreOrder(ps: seq<Placement>, qs: seq<Placement>, n: nat)
    requires multiset(Shapes(ps)) == multiset(Shapes(qs))
    ensures CoefficientVector(ps, n) == CoefficientVector(qs, n)
  {
    forall k | 1 <= k <= n
      ensures IdCount(Shapes(ps), k) == IdCount(Shapes(qs), k)
    {
      IdCountPermutation(Shapes(ps), Shapes(qs), k);
    }
  }

  /** One more placement adds one to the row of its shape's id, if that row is among
      the first m. */
  lemma {:induction false} RowSumSnoc(ps: seq<Placement>, p: Placement, n: nat, m: nat)
    requires m <= n
    ensures RowSum(CoefficientVector(ps + [p], n), m)
      == RowSum(CoefficientVector(ps, n), m) + (if 1 <= p.shape.id <= m then 1 else 0)
    decreases m
  {
    if m > 0 {
      RowSumSnoc(ps, p, n, m - 1);
      ShapesAppend(ps, p);
      IdCountSnoc(Shapes(ps), p.shape, m);
    }
  }

  lemma {:induction false} RowSumEmpty(n: nat, m: nat)
    requires m <= n
    ensures RowSum(CoefficientVector([], n), m) == 0
    decreases m
  {
    if m > 0 {
      RowSumEmpty(n, m - 1);
      assert Shapes([]) == [];
    }
  }

  /** When every placed shape has the id of a row, the rows of its LP column account for
      every placed shape exactly once. */
  lemma {:induction false} CoefficientTotal(ps: seq<Placement>, n: nat)
    requires forall j :: 0 <= j < |ps| ==> 1 <= ps[j].shape.id <= n
    ensures RowSum(CoefficientVector(ps, n), n) == |ps|
    decreases |ps|
  {
    if ps == [] {
      RowSumEmpty(n, n);
    } else {
      var m := |ps| - 1;
      assert ps == ps[..m] + [ps[m]];
      CoefficientTotal(ps[..m], n);
      RowSumSnoc(ps[..m], ps[m], n, n);
    }
  }

  /** The loop of addColumn that fills col[]: a one for the sheet, then one more at the
      id of every placed shape. */
  method CoefficientColumn(ps: seq<Placement>, n: nat) returns (col: seq<int>)
    requires forall j :: 0 <= j < |ps| ==> 1 <= ps[j].shape.id <= n
    ensures col == CoefficientVector(ps, n)
  {
    var a := new int[n + 1](_ => 0);
    a[0] := 1;
    for j := 0 to |ps|
      invariant a[0] == 1
      invariant forall k :: 1 <= k <= n ==> a[k] == IdCount(Shapes(ps[..j]), k)
    {
      var id := ps[j].shape.id;
      a[id] := a[id] + 1;
      assert ps[..j + 1] == ps[..j] + [ps[j]];
      ShapesAppend(ps[..j], ps[j]);
      forall k | 1 <= k <= n
        ensures a[k] == IdCount(Shapes(ps[..j + 1]), k)
      {
        IdCountSnoc(Shapes(ps[..j]), ps[j].shape, k);
      }
    }
    assert ps[..|ps|] == ps;
    col := a[..];
  }

  // ---------------------------------------------------------------------------
  // The set of columns: HashSet<Column> over Column.equals and Column.hashCode

  /** ps would be found as e by a hash set: same hash, and equal. */
  predicate Duplicate(ps: seq<Placement>, e: seq<Placement>) {
    ColumnHash(e) == ColumnHash(ps) && ColumnEquals(ps, e)
  }

  /** columns.contains(c), with c's placements ps. */
  predicate Contains(cols: seq<seq<Placement>>, ps: seq<Placement>) {
    exists j :: 0 <= j < |cols| && Duplicate(ps, cols[j])
  }

  /** A column found in the set is still found once more columns are added. */
  lemma ContainsGrows(cols: seq<seq<Placement>>, more: seq<seq<Placement>>, ps: seq<Placement>)
    requires Contains(cols, ps)
    ensures Contains(cols + more, ps)
  {
    var j :| 0 <= j < |cols| && Duplicate(ps, cols[j]);
    assert (cols + more)[j] == cols[j];
  }

  /** A column just added is found in the set. */
  lemma ContainsAdded(cols: seq<seq<Placement>>, ps: seq<Placement>)
    ensures Contains(cols + [ps], ps)
  {
    assert (cols + [ps])[|cols|] == ps;
    forall j | 0 <= j < |ps|
      ensures HasShape(ps, ps[j].shape)
    {
    }
  }

  /** One offer to the set, seen from the set as it was before a run of offers: the
      earlier columns stay, the offered one is found afterwards, and the set has grown
      past its start exactly when it had already or the offered column was new to it. */
  lemma OfferStep(start: seq<seq<Placement>>, before: seq<seq<Placement>>, after: seq<seq<Placement>>, ps: seq<Placement>)
    requires |before| >= |start| && before[..|start|] == start
    requires after == if Contains(before, ps) then before else before + [ps]
    ensures |after| >= |before| && after[..|before|] == before
    ensures |after| >= |start| && after[..|start|] == start
    ensures after == before + after[|before|..]
    ensures Contains(after, ps)
    ensures |after| > |start| <==> |before| > |start| || !Contains(start, ps)
  {
    if !Contains(before, ps) {
      ContainsAdded(before, ps);
      assert after[..|start|] == before[..|start|];
    }
    if Contains(start, ps) {
      ContainsGrows(start, before[|start|..], ps);
      assert start + before[|start|..] == before;
    }
    if |before| == |start| {
      assert before == start;
    }
  }

  /** A set that now holds a column it did not hold at the start has grown. */
  lemma GrownWhenNew(start: seq<seq<Placement>>, after: seq<seq<Placement>>, ps: seq<Placement>)
    requires |after| >= |start| && after[..|start|] == start
    requires Contains(after, ps) && !Contains(start, ps)
    ensures |after| > |start|
  {
  }

  /** No column was added while an equal one with the same hash was present. */
  ghost predicate Deduplicated(cols: seq<seq<Placement>>) {
    forall a, b {:trigger Duplicate(cols[b], cols[a])} :: 0 <= a < b < |cols| ==> !Duplicate(cols[b], cols[a])
  }

  /** A layout holding the same shapes as a stored column, with the same multiplicities,
      is found in the set, wherever its shapes sit. */
  lemma SameShapesContained(cols: seq<seq<Placement>>, ps: seq<Placement>, j: nat)
    requires j < |cols|
    requires multiset(Shapes(ps)) == multiset(Shapes(cols[j]))
    ensures Contains(cols, ps)
  {
    SameShapesSameColumn(ps, cols[j]);
  }

  /** Hence no two columns of a deduplicated set hold the same shapes with the same
      multiplicities. */
  lemma DistinctPatterns(cols: seq<seq<Placement>>)
    requires Deduplicated(cols)
    ensures forall a, b :: 0 <= a < b < |cols| ==> multiset(Shapes(cols[a])) != multiset(Shapes(cols[b]))
  {
    forall a, b | 0 <= a < b < |cols|
      ensures multiset(Shapes(cols[a])) != multiset(Shapes(cols[b]))
    {
      assert !Duplicate(cols[b], cols[a]);
      if multiset(Shapes(cols[a])) == multiset(Shapes(cols[b])) {
        SameShapesSameColumn(cols[b], cols[a]);
        assert false;
      }
    }
  }

  /** The shapes of a selection of the problem's demands, in the order of the indices. */
  function Select(shapes: seq<RequiredShape>, sub: seq<nat>): (ss: seq<RequiredShape>)
    requires forall k :: 0 <= k < |sub| ==> sub[k] < |shapes|
    ensures |ss| == |sub| && forall k :: 0 <= k < |sub| ==> ss[k] == shapes[sub[k]]
  {
    seq(|sub|, k requires 0 <= k < |sub| => shapes[sub[k]])
  }

  /** A column built for a selection of demands only holds shapes whose ids are rows. */
  lemma BuiltIdsInRange(shapes: seq<RequiredShape>, sub: seq<nat>, size: Shape -> int, ps: seq<Placement>)
    requires forall i :: 0 <= i < |shapes| ==> shapes[i].shape.id == i + 1
    requires forall k :: 0 <= k < |sub| ==> sub[k] < |shapes|
    requires Shapes(ps) in ExplodedOrdered(Select(shapes, sub), size)
    ensures forall j :: 0 <= j < |ps| ==> 1 <= ps[j].shape.id <= |shapes|
  {
    var ss := Select(shapes, sub);
    ExplodedOrderedElements(ss, size);
    forall j | 0 <= j < |ps|
      ensures 1 <= ps[j].shape.id <= |shapes|
    {
      assert Shapes(ps)[j] in Shapes(ps);
      var i :| 0 <= i < |ss| && ss[i].shape == ps[j].shape;
      assert ss[i] == shapes[sub[i]];
    }
  }

  /** Every column of the set is a valid layout on the sheet. */
  ghost predicate AllLayoutsValid(sheet: Sheet, cols: seq<seq<Placement>>) {
    cols == [] || (AllLayoutsValid(sheet, cols[..|cols| - 1]) && ValidLayout(sheet, cols[|cols| - 1]))
  }

  lemma AllLayoutsValidSnoc(sheet: Sheet, cols: seq<seq<Placement>>, ps: seq<Placement>)
    requires AllLayoutsValid(sheet, cols) && ValidLayout(sheet, ps)
    ensures AllLayoutsValid(sheet, cols + [ps])
  {
    assert (cols + [ps])[..|cols|] == cols;
  }

  /** A layout the set does not contain can be appended without creating a duplicate. */
  lemma DeduplicatedSnoc(cols: seq<seq<Placement>>, ps: seq<Placement>)
    requires Deduplicated(cols) && !Contains(cols, ps)
    ensures Deduplicated(cols + [ps])
  {
    var more := cols + [ps];
    forall a, b | 0 <= a < b < |more|
      ensures !Duplicate(more[b], more[a])
    {
      if b == |cols| {
        assert more[a] == cols[a];
      } else {
        assert more[a] == cols[a] && more[b] == cols[b];
      }
    }
  }

  /** Appending a layout and its coefficient vector keeps the LP columns in step with
      the set. */
  lemma MirroredSnoc(vs: seq<seq<int>>, cols: seq<seq<Placement>>, ps: seq<Placement>, n: nat)
    requires |vs| == |cols| && forall j :: 0 <= j < |cols| ==> vs[j] == CoefficientVector(cols[j], n)
    ensures forall j :: 0 <= j < |cols| + 1 ==>
      (vs + [CoefficientVector(ps, n)])[j] == CoefficientVector((cols + [ps])[j], n)
  {
  }

  /** Any column looked up in such a set is a valid layout. */
  lemma {:induction false} StoredLayoutValid(sheet: Sheet, cols: seq<seq<Placement>>, j: nat)
    requires AllLayoutsValid(sheet, cols) && j < |cols|
    ensures ValidLayout(sheet, cols[j])
    decreases |cols|
  {
    if j < |cols| - 1 {
      StoredLayoutValid(sheet, cols[..|cols| - 1], j);
    }
  }

  /** Some column of the set holds copies of s and nothing else. */
  ghost predicate Seeded(cols: seq<seq<Placement>>, s: Shape) {
    exists j :: 0 <= j < |cols| && ShapeSet(cols[j]) == {s}
  }

  lemma SeededGrows(a: seq<seq<Placement>>, b: seq<seq<Placement>>, s: Shape)
    requires |b| >= |a| && b[..|a|] == a
    requires Seeded(a, s)
    ensures Seeded(b, s)
  {
    var j :| 0 <= j < |a| && ShapeSet(a[j]) == {s};
    assert b[j] == a[j];
  }

  /** A layout of copies of s that the set contains shows that the set holds a column of
      copies of s: equal columns have equal shape sets. */
  lemma SeededByContained(cols: seq<seq<Placement>>, ps: seq<Placement>, s: Shape)
    requires Contains(cols, ps)
    requires |ps| > 0 && forall k :: 0 <= k < |ps| ==> ps[k].shape == s
    ensures Seeded(cols, s)
  {
    var j :| 0 <= j < |cols| && Duplicate(ps, cols[j]);
    ColumnEqualsIffSameShapeSet(ps, cols[j]);
    assert ShapeSet(ps) == {s} by {
      assert ps[0].shape in ShapeSet(ps);
    }
  }

  /** The placements of the given columns, in order. */
  ghost function Layouts(cs: seq<Column>): (r: seq<seq<Placement>>)
    reads set c | c in cs
    ensures |r| == |cs| && forall m :: 0 <= m < |cs| ==> r[m] == cs[m].placements
  {
    seq(|cs|, m requires 0 <= m < |cs| reads set c | c in cs => cs[m].placements)
  }

  /** The set after the first k of the offers: it began as start, it holds every offer
      made so far, and every column added since start is one of the offers. */
  ghost predicate OfferedSoFar(start: seq<seq<Placement>>, cols: seq<seq<Placement>>, offers: seq<seq<Placement>>, k: nat) {
    && k <= |offers|
    && |cols| >= |start| && cols[..|start|] == start
    && (forall m :: 0 <= m < k ==> Contains(cols, offers[m]))
    && (forall j :: |start| <= j < |cols| ==> cols[j] in offers)
  }

  /** Columns drawn from built columns hold the shapes of sequences those were built from. */
  lemma DrawnFromBuilt(start: seq<seq<Placement>>, cols: seq<seq<Placement>>, cs: seq<Column>, es: seq<seq<Shape>>)
    requires forall j :: |start| <= j < |cols| ==> cols[j] in Layouts(cs)
    requires forall c :: c in cs ==> Shapes(c.placements) in es
    ensures forall j :: |start| <= j < |cols| ==> Shapes(cols[j]) in es
  {
    forall j | |start| <= j < |cols|
      ensures Shapes(cols[j]) in es
    {
      var offers := Layouts(cs);
      assert cols[j] in offers;
      var m :| 0 <= m < |offers| && offers[m] == cols[j];
      assert cs[m] in cs;
    }
  }

  /** After all offers the set holds each of them, and it grew if one of them was new. */
  lemma AllOffersContained(start: seq<seq<Placement>>, cols: seq<seq<Placement>>, offers: seq<seq<Placement>>)
    requires OfferedSoFar(start, cols, offers, |offers|)
    ensures forall m :: 0 <= m < |offers| ==> Contains(cols, offers[m])
    ensures (exists m :: 0 <= m < |offers| && !Contains(start, offers[m])) ==> |cols| > |start|
  {
    if m :| 0 <= m < |offers| && !Contains(start, offers[m]) {
      GrownWhenNew(start, cols, offers[m]);
    }
  }

  /** One addColumns step: the offer is added unless the set contains it. */
  lemma OfferedSoFarStep(start: seq<seq<Placement>>, before: seq<seq<Placement>>, after: seq<seq<Placement>>,
                         offers: seq<seq<Placement>>, k: nat)
    requires OfferedSoFar(start, before, offers, k) && k < |offers|
    requires after == if Contains(before, offers[k]) then before else before + [offers[k]]
    ensures OfferedSoFar(start, after, offers, k + 1)
    ensures |after| > |start| <==> |before| > |start| || !Contains(start, offers[k])
  {
    OfferStep(start, before, after, offers[k]);
    forall m | 0 <= m < k
      ensures Contains(after, offers[m])
    {
      ContainsGrows(before, after[|before|..], offers[m]);
    }
    forall j | |start| <= j < |after|
      ensures after[j] in offers
    {
      if j < |before| {
        assert after[j] == before[j];
      } else {
        assert after[j] == offers[k];
      }
    }
    if !Contains(start, offers[k]) {
      GrownWhenNew(start, after, offers[k]);
    }
  }

  /** The layout holds between one and max(count, 1) copies of r's shape and nothing
      else: what a layout built for r alone can hold. */
  ghost predicate CopiesOf(ps: seq<Placement>, r: RequiredShape) {
    1 <= |ps| <= Bound(r.count) && forall k :: 0 <= k < |ps| ==> ps[k].shape == r.shape
  }

  /** A layout whose shapes are a sequence yielded for r alone is a run of copies of r. */
  lemma SeedCopies(ps: seq<Placement>, r: RequiredShape, size: Shape -> int)
    requires Shapes(ps) in ExplodedOrdered([r], size)
    ensures CopiesOf(ps, r)
  {
    SingleTypeYield(r, size);
    SingleTypeBound(r, size);
    forall k | 0 <= k < |ps|
      ensures ps[k].shape == r.shape
    {
      assert Shapes(ps)[k] in Shapes(ps);
    }
  }

  /** What the constructor reports: a ready solver, or the first shape that fits on no
      sheet (the RuntimeException "No way to fit ..."). */
  datatype Outcome = Ready(solver: Solver) | NoFit(index: nat)

  class Solver {
    const sheet: Sheet
    /** problem.shapes: shape i has id i + 1 and row i + 1. */
    const shapes: seq<RequiredShape>
    /** Shape::getSize, the key of the size sort. */
    const size: Shape -> int
    /** The index subsets that shapeOrderings runs through, in some order each round. */
    const subsets: seq<seq<nat>>
    const builder: ColumnBuilder
    const lp: Lp
    /** The placements of the columns in the set, in the order they became LP columns. */
    var columns: seq<seq<Placement>>
    var duals: seq<real>
    var integral: bool
    var closed: bool

    /** The problem as the reader delivers it: ids 1, 2, ... in order, and subsets of
        indices of its shapes. */
    ghost predicate Problem() {
      && (forall i :: 0 <= i < |shapes| ==> shapes[i].shape.id == i + 1)
      && (forall j, k :: 0 <= j < |subsets| && 0 <= k < |subsets[j]| ==> subsets[j][k] < |shapes|)
    }

    /** Row i + 1 demands exactly the count of shape i. */
    ghost predicate RowsSet()
      reads lp
    {
      && lp.Valid() && lp.nrows == |shapes|
      && forall i :: 0 <= i < |shapes| ==> lp.equality[i] && lp.rhs[i] == shapes[i].count
    }

    /** LP column j + 1 is the coefficient vector of the j-th column of the set, binary
        exactly in the integral phase. */
    ghost predicate Mirrored()
      reads this, lp
    {
      && |lp.columns| == |columns|
      && (forall j :: 0 <= j < |columns| ==> lp.columns[j] == CoefficientVector(columns[j], |shapes|))
      && (forall j :: 0 <= j < |lp.binary| ==> lp.binary[j] == integral)
    }

    ghost predicate Valid()
      reads this, lp, builder
    {
      && Problem()
      && RowsSet()
      && Mirrored()
      && Deduplicated(columns)
      && AllLayoutsValid(sheet, columns)
      && (|duals| == 0 || |duals| == |shapes|)
      && lp.deleted == closed
      && Sound(sheet, builder.root)
    }

    /** The layout holds the shapes of one of the sequences built for an index subset
        whose dual sum under d reaches one. */
    ghost predicate Priced(d: seq<real>, ps: seq<Placement>) {
      exists k :: 0 <= k < |subsets| && Problem() && |d| == |shapes|
        && DualSum(d, subsets[k]) >= 1.0
        && Shapes(ps) in ExplodedOrdered(Select(shapes, subsets[k]), size)
    }

    /** The layout is a run of copies of some demanded shape. */
    ghost predicate Initial(ps: seq<Placement>) {
      exists t :: 0 <= t < |shapes| && CopiesOf(ps, shapes[t])
    }

    /** Columns added for demand i alone keep every column of the set initial. */
    lemma InitialAfter(before: seq<seq<Placement>>, after: seq<seq<Placement>>, i: nat)
      requires i < |shapes|
      requires |after| >= |before| && after[..|before|] == before
      requires forall j :: 0 <= j < |before| ==> Initial(before[j])
      requires forall j :: |before| <= j < |after| ==> CopiesOf(after[j], shapes[i])
      ensures forall j :: 0 <= j < |after| ==> Initial(after[j])
    {
      forall j | 0 <= j < |after|
        ensures Initial(after[j])
      {
        if j < |before| {
          assert after[j] == before[j];
        }
      }
    }

    /** The first half of Solver(problem): make the LP with one row per shape and set
        each row to an equality with the shape's count on the right-hand side. */
    constructor (sheet: Sheet, shapes: seq<RequiredShape>, size: Shape -> int, subsets: seq<seq<nat>>)
      requires forall i :: 0 <= i < |shapes| ==> shapes[i].shape.id == i + 1
      requires forall j, k :: 0 <= j < |subsets| && 0 <= k < |subsets[j]| ==> subsets[j][k] < |shapes|
      ensures Valid() && fresh(lp) && fresh(builder)
      ensures this.sheet == sheet && this.shapes == shapes && this.size == size && this.subsets == subsets
      ensures columns == [] && duals == [] && !integral && !closed
    {
      this.sheet := sheet;
      this.shapes := shapes;
      this.size := size;
      this.subsets := subsets;
      builder := new ColumnBuilder();
      lp := new Lp(|shapes|);
      columns := [];
      duals := [];
      integral := false;
      closed := false;
      new;
      SetRows();
    }

    /** The row loop of Solver(problem): row i + 1 becomes an equality whose right-hand
        side is the count of shape i. */
    method SetRows()
      requires lp.Valid() && lp.nrows == |shapes| && !lp.deleted
      modifies lp
      ensures RowsSet() && !lp.deleted
      ensures lp.columns == old(lp.columns) && lp.binary == old(lp.binary)
    {
      for i := 0 to |shapes|
        invariant lp.Valid() && lp.nrows == |shapes| && !lp.deleted
        invariant lp.columns == old(lp.columns) && lp.binary == old(lp.binary)
        invariant forall r :: 0 <= r < i ==> lp.equality[r] && lp.rhs[r] == shapes[r].count
      {
        lp.SetEquality(i + 1);
        lp.SetRh(i + 1, shapes[i].count);
      }
    }

    /** Solver(problem): set up the rows, then give every shape a first column of its
        own; a shape that yields none stops the construction. */
    static method Create(sheet: Sheet, shapes: seq<RequiredShape>, size: Shape -> int, subsets: seq<seq<nat>>)
      returns (r: Outcome)
      requires forall i :: 0 <= i < |shapes| ==> shapes[i].shape.id == i + 1
      requires forall j, k :: 0 <= j < |subsets| && 0 <= k < |subsets[j]| ==> subsets[j][k] < |shapes|
      ensures r.Ready? <==> forall i :: 0 <= i < |shapes| ==> FitsAlone(sheet, shapes[i].shape)
      ensures r.NoFit? ==> r.index < |shapes| && !FitsAlone(sheet, shapes[r.index].shape)
      ensures r.NoFit? ==> forall i :: 0 <= i < r.index ==> FitsAlone(sheet, shapes[i].shape)
      ensures r.Ready? ==> fresh(r.solver) && fresh(r.solver.lp) && fresh(r.solver.builder)
      ensures r.Ready? ==> r.solver.Valid() && !r.solver.closed && !r.solver.integral
      ensures r.Ready? ==> r.solver.sheet == sheet && r.solver.shapes == shapes && r.solver.duals == []
      ensures r.Ready? ==> r.solver.subsets == subsets && r.solver.size == size
      ensures r.Ready? ==> forall i :: 0 <= i < |shapes| ==> Seeded(r.solver.columns, shapes[i].shape)
      ensures r.Ready? ==> forall j :: 0 <= j < |r.solver.columns| ==> r.solver.Initial(r.solver.columns[j])
    {
      var s := new Solver(sheet, shapes, size, subsets);
      var failed := s.AddAllInitial();
      if failed < |shapes| {
        return NoFit(failed);
      }
      s.lp.Solve();
      return Ready(s);
    }

    /** The loop of Solver(problem) that adds the initial columns shape by shape; it
        stops at the first shape that yields none, and reports |shapes| when none did. */
    method AddAllInitial() returns (failed: nat)
      requires Valid() && !closed && !integral && duals == [] && columns == []
      modifies this, lp, builder
      ensures Valid() && !closed && !integral && duals == []
      ensures failed <= |shapes|
      ensures forall j :: 0 <= j < failed ==> FitsAlone(sheet, shapes[j].shape)
      ensures failed < |shapes| ==> !FitsAlone(sheet, shapes[failed].shape)
      ensures failed == |shapes| ==> forall j :: 0 <= j < |shapes| ==> Seeded(columns, shapes[j].shape)
      ensures forall j :: 0 <= j < |columns| ==> Initial(columns[j])
    {
      for i := 0 to |shapes|
        invariant Valid() && !closed && !integral && duals == []
        invariant forall j :: 0 <= j < i ==> FitsAlone(sheet, shapes[j].shape)
        invariant forall j :: 0 <= j < i ==> Seeded(columns, shapes[j].shape)
        invariant forall j :: 0 <= j < |columns| ==> Initial(columns[j])
      {
        ghost var before := columns;
        var added := AddInitial(i);
        if !added {
          return i;
        }
        InitialAfter(before, columns, i);
        forall j | 0 <= j < i
          ensures Seeded(columns, shapes[j].shape)
        {
          SeededGrows(before, columns, shapes[j].shape);
        }
      }
      return |shapes|;
    }

    /** One round of the constructor's loop: build the columns for shape i alone and add
        them; false when there are none. */
    method AddInitial(i: nat) returns (found: bool)
      requires Valid() && !closed && i < |shapes|
      modifies this, lp, builder
      ensures Valid() && closed == old(closed) && integral == old(integral) && duals == old(duals)
      ensures found <==> FitsAlone(sheet, shapes[i].shape)
      ensures |columns| >= |old(columns)| && columns[..|old(columns)|] == old(columns)
      ensures !found ==> columns == old(columns)
      ensures found ==> Seeded(columns, shapes[i].shape)
      ensures forall j :: |old(columns)| <= j < |columns| ==> CopiesOf(columns[j], shapes[i])
    {
      assert Select(shapes, [i]) == [shapes[i]];
      var cs := Build([i]);
      if |cs| == 0 {
        return false;
      }
      var _ := AddColumns(cs);
      DrawnFromBuilt(old(columns), columns, cs, ExplodedOrdered([shapes[i]], size));
      forall j | |old(columns)| <= j < |columns|
        ensures CopiesOf(columns[j], shapes[i])
      {
        SeedCopies(columns[j], shapes[i], size);
      }
      SeedCopies(cs[0].placements, shapes[i], size);
      SeededByContained(columns, cs[0].placements, shapes[i].shape);
      return true;
    }

    /** addColumn: a column not yet in the set becomes a new LP column, binary in the
        integral phase; null or an equal column changes nothing. */
    method AddColumn(c: Column?) returns (added: bool)
      requires Valid() && !closed
      requires c != null ==> forall j :: 0 <= j < |c.placements| ==> 1 <= c.placements[j].shape.id <= |shapes|
      requires c != null ==> ValidLayout(sheet, c.placements)
      modifies this, lp
      ensures Valid()
      ensures added <==> c != null && !Contains(old(columns), c.placements)
      ensures added ==> columns == old(columns) + [c.placements]
      ensures added ==> lp.columns == old(lp.columns) + [CoefficientVector(c.placements, |shapes|)]
      ensures added ==> lp.binary == old(lp.binary) + [integral]
      ensures !added ==> columns == old(columns) && unchanged(lp)
      ensures duals == old(duals) && integral == old(integral) && closed == old(closed)
    {
      if c == null || Contains(columns, c.placements) {
        return false;
      }
      AllLayoutsValidSnoc(sheet, columns, c.placements);
      Insert(c.placements);
      return true;
    }

    /** The tail of addColumn for a layout not yet in the set: count the shapes of each
        type into a new LP column, give it the phase's binary flag, and record it. */
    method Insert(ps: seq<Placement>)
      requires Valid() && !closed && !Contains(columns, ps)
      requires forall j :: 0 <= j < |ps| ==> 1 <= ps[j].shape.id <= |shapes|
      requires AllLayoutsValid(sheet, columns + [ps])
      modifies this, lp
      ensures Valid()
      ensures columns == old(columns) + [ps]
      ensures lp.columns == old(lp.columns) + [CoefficientVector(ps, |shapes|)]
      ensures lp.binary == old(lp.binary) + [integral]
      ensures duals == old(duals) && integral == old(integral) && closed == old(closed)
    {
      var col := CoefficientColumn(ps, |shapes|);
      lp.AddColumn(col);
      lp.SetBinary(|lp.columns|, integral);
      DeduplicatedSnoc(columns, ps);
      MirroredSnoc(old(lp.columns), columns, ps, |shapes|);
      columns := columns + [ps];
    }

    /** addColumns: offer every column; true exactly when some offer added one. */
    method AddColumns(cs: seq<Column>) returns (added: bool)
      requires Valid() && !closed
      requires forall c :: c in cs ==> forall j :: 0 <= j < |c.placements| ==> 1 <= c.placements[j].shape.id <= |shapes|
      requires forall c :: c in cs ==> ValidLayout(sheet, c.placements)
      modifies this, lp
      ensures Valid()
      ensures |columns| >= |old(columns)| && columns[..|old(columns)|] == old(columns)
      ensures added <==> |columns| > |old(columns)|
      ensures forall j :: |old(columns)| <= j < |columns| ==> columns[j] in Layouts(cs)
      ensures forall m :: 0 <= m < |cs| ==> Contains(columns, cs[m].placements)
      ensures (exists m :: 0 <= m < |cs| && !Contains(old(columns), cs[m].placements)) ==> added
      ensures duals == old(duals) && integral == old(integral) && closed == old(closed)
    {
      ghost var offers := Layouts(cs);
      added := false;
      for k := 0 to |cs|
        invariant Valid() && !closed
        invariant duals == old(duals) && integral == old(integral)
        invariant OfferedSoFar(old(columns), columns, offers, k)
        invariant added <==> |columns| > |old(columns)|
      {
        ghost var before := columns;
        var a := AddColumn(cs[k]);
        OfferedSoFarStep(old(columns), before, columns, offers, k);
        added := added || a;
      }
      AllOffersContained(old(columns), columns, offers);
    }

    /** The score loop of price: the sum of the duals of the subset's shapes. */
    method Score(sub: seq<nat>) returns (score: real)
      requires |duals| == |shapes|
      requires forall k :: 0 <= k < |sub| ==> sub[k] < |shapes|
      ensures score == DualSum(duals, sub)
    {
      score := 0.0;
      for k := 0 to |sub|
        invariant score == DualSum(duals, sub[..k])
      {
        assert sub[..k + 1][..k] == sub[..k];
        score := score + duals[sub[k]];
      }
      assert sub[..|sub|] == sub;
    }

    /** price: run through the index subsets in some order; for a subset whose score
        reaches one, build its columns, add the new ones and re-solve, and stop at the
        first re-solve that changes the duals. */
    method Price() returns (priced: bool)
      requires Valid() && !closed && |duals| == |shapes|
      modifies this, lp, builder
      ensures Valid() && !closed && |duals| == |shapes| && integral == old(integral)
      ensures |columns| >= |old(columns)| && columns[..|old(columns)|] == old(columns)
      ensures priced ==> |columns| > |old(columns)| && duals != old(duals)
      ensures !priced ==> duals == old(duals)
      ensures forall j :: |old(columns)| <= j < |columns| ==> Priced(old(duals), columns[j])
      ensures (forall j :: 0 <= j < |subsets| ==> DualSum(old(duals), subsets[j]) < 1.0)
        ==> !priced && columns == old(columns) && builder.root == old(builder.root)
      ensures Extends(old(builder.root), builder.root)
    {
      ghost var quiet := forall j :: 0 <= j < |subsets| ==> DualSum(duals, subsets[j]) < 1.0;
      ExtendsReflexive(builder.root);
      var pending := Positions(|subsets|);
      while pending != {}
        invariant Valid() && !closed && |duals| == |shapes| && integral == old(integral)
        invariant |columns| >= |old(columns)| && columns[..|old(columns)|] == old(columns)
        invariant forall k :: k in pending ==> 0 <= k < |subsets|
        invariant duals == old(duals)
        invariant forall j :: |old(columns)| <= j < |columns| ==> Priced(old(duals), columns[j])
        invariant quiet ==> columns == old(columns) && builder.root == old(builder.root)
        invariant Extends(old(builder.root), builder.root)
        decreases pending
      {
        var k :| k in pending;
        pending := pending - {k};
        ghost var before := columns;
        ghost var level := builder.root;
        priced := Attempt(k);
        ExtendsTransitive(old(builder.root), level, builder.root);
        PricedAfter(old(columns), before, columns, old(duals), k);
        if priced {
          return;
        }
      }
      return false;
    }

    /** Columns added for a subset that scored at least one keep every column added
        since start priced. */
    lemma PricedAfter(start: seq<seq<Placement>>, before: seq<seq<Placement>>, after: seq<seq<Placement>>, d: seq<real>, k: nat)
      requires Problem() && |d| == |shapes| && k < |subsets|
      requires |before| >= |start| && before[..|start|] == start
      requires |after| >= |before| && after[..|before|] == before
      requires forall j :: |start| <= j < |before| ==> Priced(d, before[j])
      requires forall j :: |before| <= j < |after| ==>
        DualSum(d, subsets[k]) >= 1.0 && Shapes(after[j]) in ExplodedOrdered(Select(shapes, subsets[k]), size)
      ensures |after| >= |start| && after[..|start|] == start
      ensures forall j :: |start| <= j < |after| ==> Priced(d, after[j])
    {
      assert after[..|start|] == after[..|before|][..|start|];
      forall j | |start| <= j < |after|
        ensures Priced(d, after[j])
      {
        if j < |before| {
          assert after[j] == before[j];
        }
      }
    }

    /** One round of price for the index subset subsets[k]: skip it when its score is
        below one; otherwise build and add its columns, and when that added one, re-solve
        and report whether the duals changed. */
    method Attempt(k: nat) returns (priced: bool)
      requires Valid() && !closed && |duals| == |shapes| && k < |subsets|
      modifies this, lp, builder
      ensures Valid() && !closed && |duals| == |shapes| && integral == old(integral)
      ensures |columns| >= |old(columns)| && columns[..|old(columns)|] == old(columns)
      ensures priced ==> |columns| > |old(columns)| && duals != old(duals)
      ensures !priced ==> duals == old(duals)
      ensures DualSum(old(duals), subsets[k]) < 1.0
        ==> !priced && columns == old(columns) && builder.root == old(builder.root)
      ensures forall j :: |old(columns)| <= j < |columns| ==>
        DualSum(old(duals), subsets[k]) >= 1.0 && Shapes(columns[j]) in ExplodedOrdered(Select(shapes, subsets[k]), size)
      ensures Extends(old(builder.root), builder.root)
    {
      var sub := subsets[k];
      var score := Score(sub);
      if score < 1.0 {
        ExtendsReflexive(builder.root);
        return false;
      }
      var grown := Grow(sub);
      if !grown {
        return false;
      }
      priced := SolveLP();
    }

    /** The call of buildColumns shared by the constructor and price: the columns for
        the demands the index sequence sub selects, with what the solver needs of them. */
    method Build(sub: seq<nat>) returns (cs: seq<Column>)
      requires Valid() && !closed
      requires forall k :: 0 <= k < |sub| ==> sub[k] < |shapes|
      requires |sub| > 0
      modifies builder
      ensures Valid()
      ensures Extends(old(builder.root), builder.root)
      ensures forall c :: c in cs ==> Shapes(c.placements) in ExplodedOrdered(Select(shapes, sub), size)
      ensures forall c :: c in cs ==> ValidLayout(sheet, c.placements)
      ensures forall c :: c in cs ==> forall j :: 0 <= j < |c.placements| ==> 1 <= c.placements[j].shape.id <= |shapes|
      ensures |sub| == 1 ==> (|cs| > 0 <==> FitsAlone(sheet, shapes[sub[0]].shape))
    {
      var ss := SelectShapes(sub);
      ghost var idx;
      cs, idx := builder.BuildColumns(sheet, ss, size);
      forall c | c in cs
        ensures forall j :: 0 <= j < |c.placements| ==> 1 <= c.placements[j].shape.id <= |shapes|
      {
        BuiltIdsInRange(shapes, sub, size, c.placements);
      }
    }

    /** The middle of one round of price, for a subset that scored at least one: gather
        the subset's demands, build columns for them, and add those not yet present. */
    method Grow(sub: seq<nat>) returns (added: bool)
      requires Valid() && !closed
      requires forall k :: 0 <= k < |sub| ==> sub[k] < |shapes|
      requires |sub| > 0
      modifies this, lp, builder
      ensures Valid() && !closed && duals == old(duals) && integral == old(integral)
      ensures |columns| >= |old(columns)| && columns[..|old(columns)|] == old(columns)
      ensures added <==> |columns| > |old(columns)|
      ensures forall j :: |old(columns)| <= j < |columns| ==> Shapes(columns[j]) in ExplodedOrdered(Select(shapes, sub), size)
      ensures Extends(old(builder.root), builder.root)
    {
      var cs := Build(sub);
      if |cs| == 0 {
        return false;
      }
      added := AddColumns(cs);
      DrawnFromBuilt(old(columns), columns, cs, ExplodedOrdered(Select(shapes, sub), size));
    }

    /** The loop of price that looks up the demand of each index of the subset. */
    method SelectShapes(sub: seq<nat>) returns (ss: seq<RequiredShape>)
      requires forall k :: 0 <= k < |sub| ==> sub[k] < |shapes|
      ensures ss == Select(shapes, sub)
    {
      ss := [];
      for j := 0 to |sub|
        invariant ss == Select(shapes, sub[..j])
      {
        assert sub[..j + 1] == sub[..j] + [sub[j]];
        ss := ss + [shapes[sub[j]]];
      }
      assert sub[..|sub|] == sub;
    }

    /** solveLP: solve, then read the duals back as the source's loop does and report
        whether they differ from the previous ones. */
    method SolveLP() returns (changed: bool)
      requires Valid() && !closed
      modifies this, lp
      ensures Valid() && !closed && columns == old(columns) && integral == old(integral)
      ensures |lp.dualValues| == 1 + |shapes| + |columns|
      ensures duals == DualsAsWritten(lp.dualValues, |shapes|)
      ensures changed <==> duals != old(duals)
    {
      lp.Solve();
      var previous := duals;
      duals := ReadDuals(lp.dualValues, |shapes|);
      changed := duals != previous;
    }

    /** The dual loop of solveLP: for each row whose dual is positive, the entry just
        below it in the library's array, and zero otherwise. */
    static method ReadDuals(raw: seq<real>, n: nat) returns (d: seq<real>)
      requires n < |raw|
      ensures d == DualsAsWritten(raw, n)
    {
      var a := new real[n];
      for i := 0 to n
        invariant forall k :: 0 <= k < i ==> a[k] == DualsAsWritten(raw, n)[k]
      {
        a[i] := if raw[i + 1] > 0.0 then raw[i] else 0.0;
      }
      d := a[..];
    }

    /** Repeat price while it reports an improvement, for at most fuel rounds. */
    method PriceRounds(fuel: nat)
      requires Valid() && !closed && |duals| == |shapes|
      modifies this, lp, builder
      ensures Valid() && !closed && |duals| == |shapes| && integral == old(integral)
      ensures |columns| >= |old(columns)| && columns[..|old(columns)|] == old(columns)
    {
      var more := true;
      var f := fuel;
      while more && f > 0
        invariant Valid() && !closed && |duals| == |shapes| && integral == old(integral)
        invariant |columns| >= |old(columns)| && columns[..|old(columns)|] == old(columns)
        decreases f
      {
        more := Price();
        f := f - 1;
      }
    }

    /** The loop of solve that makes every existing LP column binary. */
    method MarkAllBinary()
      requires lp.Valid() && !lp.deleted
      modifies lp
      ensures lp.Valid() && !lp.deleted
      ensures lp.columns == old(lp.columns) && lp.equality == old(lp.equality) && lp.rhs == old(lp.rhs)
      ensures forall j :: 0 <= j < |lp.binary| ==> lp.binary[j]
    {
      for i := 1 to |lp.columns| + 1
        invariant lp.Valid() && !lp.deleted
        invariant lp.columns == old(lp.columns) && lp.equality == old(lp.equality) && lp.rhs == old(lp.rhs)
        invariant forall j :: 0 <= j < i - 1 ==> lp.binary[j]
      {
        lp.SetBinary(i, true);
      }
    }

    /** solve: the fractional phase, then the switch to the integral phase, which makes
        every present and future column binary, then the integral phase. */
    method Solve(fuel: nat)
      requires Valid() && !closed
      modifies this, lp, builder
      ensures Valid() && !closed && integral
      ensures forall j :: 0 <= j < |lp.binary| ==> lp.binary[j]
      ensures |columns| >= |old(columns)| && columns[..|old(columns)|] == old(columns)
    {
      var changed := SolveLP();
      PriceRounds(fuel);
      integral := true;
      MarkAllBinary();
      changed := SolveLP();
      PriceRounds(fuel);
    }

    /** close: release the LP, once. */
    method Close()
      requires Valid()
      modifies this, lp
      ensures Valid() && closed
      ensures old(closed) ==> unchanged(this) && unchanged(lp)
      ensures columns == old(columns) && duals == old(duals) && integral == old(integral)
    {
      if !closed {
        lp.Delete();
        closed := true;
      }
    }
  }
}
