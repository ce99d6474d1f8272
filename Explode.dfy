/** The demand expansion of the column builder: a list of required shapes becomes every
    shape sequence holding 1 .. max(count, 1) copies of each type, each sequence ordered
    by size, the sequences ordered longest first. */
module Explode {
  import opened Geometry

  /** A shape type with its demanded count. */
  datatype RequiredShape = RequiredShape(shape: Shape, count: int)

  /** The most copies of a type a sequence holds: its count, but at least one. */
  function Bound(count: int): (b: nat)
    ensures b >= 1 && b >= count
  {
    if count > 1 then count else 1
  }

  /** The number of exploded sequences: the product of the bounds. */
  function Product(rs: seq<RequiredShape>): (n: nat)
    ensures n >= 1
  {
    if rs == [] then 1 else Product(rs[..|rs| - 1]) * Bound(rs[|rs| - 1].count)
  }

  function Copies(x: Shape, n: nat): (r: seq<Shape>)
    ensures |r| == n && forall k :: 0 <= k < n ==> r[k] == x
  {
    seq(n, _ => x)
  }

  lemma CopiesSucc(x: Shape, n: nat)
    ensures [x] + Copies(x, n) == Copies(x, n + 1)
    ensures Copies(x, n) + [x] == Copies(x, n + 1)
  {
  }

  // ---------------------------------------------------------------------------
  // The sequences, in the order the nested loops build them

  /** Every sequence of sets with n copies of x appended. */
  function Block(sets: seq<seq<Shape>>, x: Shape, n: nat): (r: seq<seq<Shape>>)
    ensures |r| == |sets| && forall k :: 0 <= k < |sets| ==> r[k] == sets[k] + Copies(x, n)
  {
    seq(|sets|, k requires 0 <= k < |sets| => sets[k] + Copies(x, n))
  }

  /** The blocks for 1, 2, ..., n copies of x, one after the other. */
  function Blocks(sets: seq<seq<Shape>>, x: Shape, n: nat): seq<seq<Shape>> {
    if n == 0 then [] else Blocks(sets, x, n - 1) + Block(sets, x, n)
  }

  /** The exploded sequences before sorting. */
  function Exploded(rs: seq<RequiredShape>): seq<seq<Shape>> {
    if rs == [] then [[]]
    else
      var r := rs[|rs| - 1];
      Blocks(Exploded(rs[..|rs| - 1]), r.shape, Bound(r.count))
  }

  // ---------------------------------------------------------------------------
  // Copy-count vectors: the combinations described independently of the loops

  /** Every vector of vs extended by a last entry 1, 2, ..., n, blockwise. */
  function Extend(vs: seq<seq<nat>>, n: nat): seq<seq<nat>> {
    if n == 0 then []
    else Extend(vs, n - 1) + seq(|vs|, k requires 0 <= k < |vs| => vs[k] + [n])
  }

  /** The copy-count vectors, in the order of the exploded sequences. */
  function Combos(rs: seq<RequiredShape>): seq<seq<nat>> {
    if rs == [] then [[]]
    else Extend(Combos(rs[..|rs| - 1]), Bound(rs[|rs| - 1].count))
  }

  /** The sequence that holds v[i] copies of each shape rs[i], type by type. */
  function Materialize(rs: seq<RequiredShape>, v: seq<nat>): seq<Shape>
    requires |v| == |rs|
  {
    if rs == [] then []
    else
      var n := |rs| - 1;
      Materialize(rs[..n], v[..n]) + Copies(rs[n].shape, v[n])
  }

  /** Every copy count lies between 1 and its bound. */
  ghost predicate InRange(rs: seq<RequiredShape>, v: seq<nat>) {
    |v| == |rs| && forall i :: 0 <= i < |rs| ==> 1 <= v[i] <= Bound(rs[i].count)
  }

  ghost predicate Distinct<T>(xs: seq<T>) {
    forall a, b :: 0 <= a < b < |xs| ==> xs[a] != xs[b]
  }

  /** The blockwise extension holds exactly the vectors of vs with a last entry 1 .. n. */
  lemma {:induction false} ExtendMember(vs: seq<seq<nat>>, n: nat, v: seq<nat>)
    ensures v in Extend(vs, n) <==> |v| > 0 && v[..|v| - 1] in vs && 1 <= v[|v| - 1] <= n
  {
    if n > 0 {
      ExtendMember(vs, n - 1, v);
      var blk := seq(|vs|, k requires 0 <= k < |vs| => vs[k] + [n]);
      assert Extend(vs, n) == Extend(vs, n - 1) + blk;
      if |v| > 0 && v[..|v| - 1] in vs && v[|v| - 1] == n {
        var k :| 0 <= k < |vs| && vs[k] == v[..|v| - 1];
        assert v == vs[k] + [n];
        assert blk[k] == v;
      }
      if v in blk {
        var k :| 0 <= k < |blk| && blk[k] == v;
        assert v[..|v| - 1] == vs[k];
      }
    }
  }

  lemma {:induction false} ExtendDistinct(vs: seq<seq<nat>>, n: nat)
    requires Distinct(vs)
    ensures Distinct(Extend(vs, n))
  {
    if n > 0 {
      ExtendDistinct(vs, n - 1);
      var front := Extend(vs, n - 1);
      var blk := seq(|vs|, k requires 0 <= k < |vs| => vs[k] + [n]);
      var all := front + blk;
      forall a, b | 0 <= a < b < |all|
        ensures all[a] != all[b]
      {
        if b < |front| {
          assert all[a] == front[a] && all[b] == front[b];
        } else if a >= |front| {
          var a', b' := a - |front|, b - |front|;
          assert all[a] == vs[a'] + [n] && all[b] == vs[b'] + [n];
          assert vs[a'] != vs[b'];
          assert (vs[a'] + [n])[..|vs[a']|] == vs[a'];
          assert (vs[b'] + [n])[..|vs[b']|] == vs[b'];
        } else {
          assert all[a] == front[a] && front[a] in front;
          ExtendMember(vs, n - 1, front[a]);
          var w := all[b];
          assert w == vs[b - |front|] + [n];
          assert w[|w| - 1] == n;
        }
      }
    }
  }

  /** The copy-count vectors are exactly the in-range vectors. */
  lemma {:induction false} CombosComplete(rs: seq<RequiredShape>)
    ensures forall v :: v in Combos(rs) <==> InRange(rs, v)
  {
    if rs != [] {
      var n := |rs| - 1;
      var init := rs[..n];
      CombosComplete(init);
      forall v
        ensures v in Combos(rs) <==> InRange(rs, v)
      {
        ExtendMember(Combos(init), Bound(rs[n].count), v);
        if |v| == |rs| {
          assert InRange(rs, v) <==> InRange(init, v[..n]) && 1 <= v[n] <= Bound(rs[n].count) by {
            if InRange(init, v[..n]) && 1 <= v[n] <= Bound(rs[n].count) {
              forall i | 0 <= i < |rs|
                ensures 1 <= v[i] <= Bound(rs[i].count)
              {
                if i < n {
                  assert v[..n][i] == v[i] && init[i] == rs[i];
                }
              }
            }
          }
        }
      }
    }
  }

  /** Each combination of copy counts occurs exactly once. */
  lemma {:induction false} CombosDistinct(rs: seq<RequiredShape>)
    ensures Distinct(Combos(rs))
  {
    if rs != [] {
      CombosDistinct(rs[..|rs| - 1]);
      ExtendDistinct(Combos(rs[..|rs| - 1]), Bound(rs[|rs| - 1].count));
    }
  }

  lemma {:induction false} BlocksLength(sets: seq<seq<Shape>>, x: Shape, n: nat)
    ensures |Blocks(sets, x, n)| == n * |sets|
  {
    if n > 0 {
      BlocksLength(sets, x, n - 1);
      assert (n - 1) * |sets| + |sets| == n * |sets|;
    }
  }

  lemma {:induction false} ExtendLength(vs: seq<seq<nat>>, n: nat)
    ensures |Extend(vs, n)| == n * |vs|
  {
    if n > 0 {
      ExtendLength(vs, n - 1);
      assert (n - 1) * |vs| + |vs| == n * |vs|;
    }
  }

  lemma {:induction false} CombosCount(rs: seq<RequiredShape>)
    ensures |Combos(rs)| == Product(rs)
  {
    if rs != [] {
      var n := |rs| - 1;
      var prev := Combos(rs[..n]);
      var b := Bound(rs[n].count);
      CombosCount(rs[..n]);
      ExtendLength(prev, b);
      assert |Combos(rs)| == b * |prev|;
      assert Product(rs) == |prev| * b;
    }
  }

  lemma {:induction false} ExplodedCount(rs: seq<RequiredShape>)
    ensures |Exploded(rs)| == Product(rs)
  {
    if rs != [] {
      var n := |rs| - 1;
      var prev := Exploded(rs[..n]);
      var b := Bound(rs[n].count);
      ExplodedCount(rs[..n]);
      BlocksLength(prev, rs[n].shape, b);
      assert |Exploded(rs)| == b * |prev|;
      assert Product(rs) == |prev| * b;
    }
  }

  /** Blockwise appending copies matches blockwise extending the count vectors. */
  lemma {:induction false} BlocksMatchExtend(rs: seq<RequiredShape>, sets: seq<seq<Shape>>, vs: seq<seq<nat>>, n: nat)
    requires |rs| > 0 && |sets| == |vs|
    requires forall k :: 0 <= k < |vs| ==> |vs[k]| == |rs| - 1
    requires forall k :: 0 <= k < |vs| ==> sets[k] == Materialize(rs[..|rs| - 1], vs[k])
    requires n <= Bound(rs[|rs| - 1].count)
    ensures |Blocks(sets, rs[|rs| - 1].shape, n)| == |Extend(vs, n)|
    ensures forall k :: 0 <= k < |Extend(vs, n)| ==> |Extend(vs, n)[k]| == |rs|
    ensures forall k :: 0 <= k < |Extend(vs, n)| ==>
      Blocks(sets, rs[|rs| - 1].shape, n)[k] == Materialize(rs, Extend(vs, n)[k])
  {
    if n > 0 {
      var m := |rs| - 1;
      var x := rs[m].shape;
      BlocksMatchExtend(rs, sets, vs, n - 1);
      var ev0, es0 := Extend(vs, n - 1), Blocks(sets, x, n - 1);
      var ev := Extend(vs, n);
      var es := Blocks(sets, x, n);
      assert ev == ev0 + seq(|vs|, k requires 0 <= k < |vs| => vs[k] + [n]);
      assert es == es0 + Block(sets, x, n);
      forall k | 0 <= k < |ev|
        ensures |ev[k]| == |rs| && es[k] == Materialize(rs, ev[k])
      {
        if k < |ev0| {
          assert ev[k] == ev0[k] && es[k] == es0[k];
        } else {
          var j := k - |ev0|;
          assert ev[k] == vs[j] + [n] && es[k] == sets[j] + Copies(x, n);
          MaterializeSnoc(rs, vs[j], n);
        }
      }
    }
  }

  lemma MaterializeSnoc(rs: seq<RequiredShape>, v: seq<nat>, n: nat)
    requires |rs| > 0 && |v| == |rs| - 1
    ensures Materialize(rs, v + [n]) == Materialize(rs[..|rs| - 1], v) + Copies(rs[|rs| - 1].shape, n)
  {
    assert (v + [n])[..|rs| - 1] == v;
  }

  /** The k-th exploded sequence holds the k-th copy-count vector's copies. */
  lemma {:induction false} ExplodedMaterialize(rs: seq<RequiredShape>)
    ensures |Exploded(rs)| == |Combos(rs)|
    ensures forall k :: 0 <= k < |Combos(rs)| ==> |Combos(rs)[k]| == |rs|
    ensures forall k :: 0 <= k < |Combos(rs)| ==> Exploded(rs)[k] == Materialize(rs, Combos(rs)[k])
  {
    if rs != [] {
      var n := |rs| - 1;
      ExplodedMaterialize(rs[..n]);
      BlocksMatchExtend(rs, Exploded(rs[..n]), Combos(rs[..n]), Bound(rs[n].count));
    }
  }

  // ---------------------------------------------------------------------------
  // Sorting in descending order of a key (a stable library sort in the source)

  ghost predicate SortedDesc<T>(xs: seq<T>, key: T -> int) {
    forall a, b :: 0 <= a < b < |xs| ==> key(xs[a]) >= key(xs[b])
  }

  function Insert<T>(x: T, xs: seq<T>, key: T -> int): (r: seq<T>)
    ensures multiset(r) == multiset(xs) + multiset{x}
  {
    if xs == [] then [x]
    else if key(x) >= key(xs[0]) then [x] + xs
    else
      assert xs == [xs[0]] + xs[1..];
      [xs[0]] + Insert(x, xs[1..], key)
  }

  /** Inserting below a bound keeps every key below it. */
  lemma {:induction false} InsertBelow<T>(x: T, xs: seq<T>, key: T -> int, k: int)
    requires key(x) <= k
    requires forall i :: 0 <= i < |xs| ==> key(xs[i]) <= k
    ensures forall j :: 0 <= j < |Insert(x, xs, key)| ==> key(Insert(x, xs, key)[j]) <= k
  {
    var r := Insert(x, xs, key);
    if xs == [] {
      assert r == [x];
    } else if key(x) >= key(xs[0]) {
      assert r == [x] + xs;
      forall j | 0 < j < |r| ensures key(r[j]) <= k {
        assert r[j] == xs[j - 1];
      }
    } else {
      var tail := xs[1..];
      forall i | 0 <= i < |tail| ensures key(tail[i]) <= k {
        assert tail[i] == xs[i + 1];
      }
      InsertBelow(x, tail, key, k);
      var rest := Insert(x, tail, key);
      assert r == [xs[0]] + rest;
      forall j | 0 < j < |r| ensures key(r[j]) <= k {
        assert r[j] == rest[j - 1];
      }
    }
  }

  lemma {:induction false} InsertSorted<T>(x: T, xs: seq<T>, key: T -> int)
    requires SortedDesc(xs, key)
    ensures SortedDesc(Insert(x, xs, key), key)
  {
    if xs != [] && key(x) < key(xs[0]) {
      var rest := Insert(x, xs[1..], key);
      InsertSorted(x, xs[1..], key);
      InsertBelow(x, xs[1..], key, key(xs[0]));
      var r := [xs[0]] + rest;
      forall a, b | 0 <= a < b < |r|
        ensures key(r[a]) >= key(r[b])
      {
        if a > 0 {
          assert r[a] == rest[a - 1] && r[b] == rest[b - 1];
        } else {
          assert r[b] == rest[b - 1];
        }
      }
    }
  }

  /** The elements of xs in non-increasing key order. */
  function SortDesc<T>(xs: seq<T>, key: T -> int): (r: seq<T>)
    ensures multiset(r) == multiset(xs)
    ensures SortedDesc(r, key)
  {
    if xs == [] then []
    else
      assert xs == [xs[0]] + xs[1..];
      var rest := SortDesc(xs[1..], key);
      InsertSorted(xs[0], rest, key);
      Insert(xs[0], rest, key)
  }

  /** The elements of xs whose key is v, in their order in xs. */
  function WithKey<T>(xs: seq<T>, key: T -> int, v: int): seq<T> {
    if xs == [] then [] else (if key(xs[0]) == v then [xs[0]] else []) + WithKey(xs[1..], key, v)
  }

  /** Insertion goes before the first element whose key is not larger, so it lands in
      front of every element with the same key. */
  lemma {:induction false} InsertStable<T>(x: T, xs: seq<T>, key: T -> int, v: int)
    ensures WithKey(Insert(x, xs, key), key, v) == (if key(x) == v then [x] else []) + WithKey(xs, key, v)
  {
    if xs == [] || key(x) >= key(xs[0]) {
      InsertStableFront(x, xs, key, v);
    } else {
      InsertStable(x, xs[1..], key, v);
      InsertStableBehind(x, xs, key, v);
    }
  }

  /** When x goes in front, the selection gains x in front exactly when x has key v. */
  lemma InsertStableFront<T>(x: T, xs: seq<T>, key: T -> int, v: int)
    requires xs == [] || key(x) >= key(xs[0])
    ensures WithKey(Insert(x, xs, key), key, v) == (if key(x) == v then [x] else []) + WithKey(xs, key, v)
  {
    assert Insert(x, xs, key) == [x] + xs;
    WithKeyCons(x, xs, key, v);
  }

  /** When x goes behind the head y, y keeps its place in the selection: x and y never
      both have key v, since y's key is larger. */
  lemma InsertStableBehind<T>(x: T, xs: seq<T>, key: T -> int, v: int)
    requires xs != [] && key(x) < key(xs[0])
    requires WithKey(Insert(x, xs[1..], key), key, v) == (if key(x) == v then [x] else []) + WithKey(xs[1..], key, v)
    ensures WithKey(Insert(x, xs, key), key, v) == (if key(x) == v then [x] else []) + WithKey(xs, key, v)
  {
    var y, tail := xs[0], xs[1..];
    assert Insert(x, xs, key) == [y] + Insert(x, tail, key);
    assert xs == [y] + tail;
    SelectBehind(y, Insert(x, tail, key), tail, if key(x) == v then [x] else [], key, v);
  }

  /** Putting y in front of two sequences whose selections differ by a prefix px that is
      empty when y is selected keeps them differing by px. */
  lemma SelectBehind<T>(y: T, rest: seq<T>, tail: seq<T>, px: seq<T>, key: T -> int, v: int)
    requires WithKey(rest, key, v) == px + WithKey(tail, key, v)
    requires key(y) == v ==> px == []
    ensures WithKey([y] + rest, key, v) == px + WithKey([y] + tail, key, v)
  {
    var py, w := if key(y) == v then [y] else [], WithKey(tail, key, v);
    WithKeyCons(y, rest, key, v);
    WithKeyCons(y, tail, key, v);
    if key(y) == v {
      assert px + w == w && px + (py + w) == py + w;
    } else {
      assert py + (px + w) == px + w && py + w == w;
    }
  }

  lemma WithKeyCons<T>(y: T, ys: seq<T>, key: T -> int, v: int)
    ensures WithKey([y] + ys, key, v) == (if key(y) == v then [y] else []) + WithKey(ys, key, v)
  {
    assert ([y] + ys)[0] == y && ([y] + ys)[1..] == ys;
  }

  /** The sort is stable, as the library sort it stands for: elements with equal keys
      keep their relative order. */
  lemma {:induction false} SortDescStable<T>(xs: seq<T>, key: T -> int, v: int)
    ensures WithKey(SortDesc(xs, key), key, v) == WithKey(xs, key, v)
  {
    if xs != [] {
      SortDescStable(xs[1..], key, v);
      InsertStable(xs[0], SortDesc(xs[1..], key), key, v);
    }
  }

  function Length(ss: seq<Shape>): int {
    |ss|
  }

  /** Each sequence sorted by size, largest first. */
  function SortEach(e: seq<seq<Shape>>, size: Shape -> int): (r: seq<seq<Shape>>)
    ensures |r| == |e| && forall k :: 0 <= k < |e| ==> r[k] == SortDesc(e[k], size)
  {
    seq(|e|, k requires 0 <= k < |e| => SortDesc(e[k], size))
  }

  /** What explodeRequiredShapes yields: each sequence sorted by size, largest first,
      and the sequences sorted by length, longest first. */
  function ExplodedOrdered(rs: seq<RequiredShape>, size: Shape -> int): seq<seq<Shape>> {
    SortDesc(SortEach(Exploded(rs), size), Length)
  }

  /** The sorted copy-count materializations, in the order of the vectors. */
  function SortedMaterials(rs: seq<RequiredShape>, size: Shape -> int): seq<seq<Shape>> {
    var cs := Combos(rs);
    seq(|cs|, k requires 0 <= k < |cs| =>
      if |cs[k]| == |rs| then SortDesc(Materialize(rs, cs[k]), size) else [])
  }

  lemma SortEachIsSortedMaterials(rs: seq<RequiredShape>, size: Shape -> int)
    ensures SortEach(Exploded(rs), size) == SortedMaterials(rs, size)
  {
    ExplodedMaterialize(rs);
  }

  /** As many sequences are yielded as the product of the bounds. */
  lemma ExplodedOrderedCount(rs: seq<RequiredShape>, size: Shape -> int)
    ensures |ExplodedOrdered(rs, size)| == Product(rs)
  {
    var m := SortEach(Exploded(rs), size);
    var r := ExplodedOrdered(rs, size);
    ExplodedCount(rs);
    assert |multiset(r)| == |multiset(m)|;
  }

  /** Each yielded sequence is ordered by size, largest first, and the list is ordered
      by length, longest first. */
  lemma ExplodedOrderedSorted(rs: seq<RequiredShape>, size: Shape -> int)
    ensures forall e :: e in ExplodedOrdered(rs, size) ==> SortedDesc(e, size)
    ensures SortedDesc(ExplodedOrdered(rs, size), Length)
  {
    var m := SortEach(Exploded(rs), size);
    forall x | x in ExplodedOrdered(rs, size)
      ensures SortedDesc(x, size)
    {
      assert x in multiset(m);
    }
  }

  /** As a multiset, the yielded sequences are one size-sorted sequence per copy-count
      vector. */
  lemma ExplodedOrderedContent(rs: seq<RequiredShape>, size: Shape -> int)
    ensures multiset(ExplodedOrdered(rs, size)) == multiset(SortedMaterials(rs, size))
  {
    SortEachIsSortedMaterials(rs, size);
  }

  /** A materialized sequence holds at least one copy of each type and only those types. */
  lemma {:induction false} MaterializeShapes(rs: seq<RequiredShape>, v: seq<nat>)
    requires InRange(rs, v)
    ensures |Materialize(rs, v)| >= |rs|
    ensures forall x :: x in Materialize(rs, v) ==> exists i :: 0 <= i < |rs| && rs[i].shape == x
  {
    if rs != [] {
      var n := |rs| - 1;
      assert InRange(rs[..n], v[..n]) by {
        forall i | 0 <= i < n ensures 1 <= v[..n][i] <= Bound(rs[..n][i].count) {
          assert v[..n][i] == v[i];
        }
      }
      MaterializeShapes(rs[..n], v[..n]);
      forall x | x in Materialize(rs, v)
        ensures exists i :: 0 <= i < |rs| && rs[i].shape == x
      {
        if x in Materialize(rs[..n], v[..n]) {
          var i :| 0 <= i < n && rs[..n][i].shape == x;
          assert rs[i].shape == x;
        } else {
          assert x in Copies(rs[n].shape, v[n]);
        }
      }
    }
  }

  /** The k-th sorted materialization is as long as its vector's copies and holds only
      demanded types. */
  lemma SortedMaterialShapes(rs: seq<RequiredShape>, size: Shape -> int, k: nat)
    requires k < |Combos(rs)|
    ensures |SortedMaterials(rs, size)[k]| >= |rs|
    ensures forall x :: x in SortedMaterials(rs, size)[k] ==> exists i :: 0 <= i < |rs| && rs[i].shape == x
  {
    var cs := Combos(rs);
    CombosComplete(rs);
    assert cs[k] in cs;
    assert InRange(rs, cs[k]);
    var mat := Materialize(rs, cs[k]);
    MaterializeShapes(rs, cs[k]);
    var e := SortedMaterials(rs, size)[k];
    assert e == SortDesc(mat, size);
    assert |e| == |multiset(e)| == |multiset(mat)| == |mat|;
    forall x | x in e
      ensures x in mat
    {
      assert x in multiset(e);
    }
  }

  /** Every yielded sequence is a rearrangement of some in-range materialization; for a
      non-empty demand it is non-empty, so the trie lookup at index 0 is in range. */
  lemma ExplodedOrderedElements(rs: seq<RequiredShape>, size: Shape -> int)
    ensures forall e :: e in ExplodedOrdered(rs, size) ==>
      |e| >= |rs| && forall x :: x in e ==> exists i :: 0 <= i < |rs| && rs[i].shape == x
  {
    ExplodedOrderedContent(rs, size);
    var sm := SortedMaterials(rs, size);
    forall e | e in ExplodedOrdered(rs, size)
      ensures |e| >= |rs| && forall x :: x in e ==> exists i :: 0 <= i < |rs| && rs[i].shape == x
    {
      assert e in multiset(sm);
      var k :| 0 <= k < |sm| && sm[k] == e;
      SortedMaterialShapes(rs, size, k);
    }
  }

  /** For a single demanded type every yielded sequence is a non-empty run of that
      type, and the run of one copy is among them. */
  lemma SingleTypeYield(r: RequiredShape, size: Shape -> int)
    ensures [r.shape] in ExplodedOrdered([r], size)
    ensures forall e :: e in ExplodedOrdered([r], size) ==> |e| > 0 && forall x :: x in e ==> x == r.shape
  {
    SingleCopyYielded(r, size);
    ExplodedOrderedElements([r], size);
  }

  /** For a single demanded type every yielded sequence holds at most the bound of
      copies. */
  lemma SingleTypeBound(r: RequiredShape, size: Shape -> int)
    ensures forall e :: e in ExplodedOrdered([r], size) ==> |e| <= Bound(r.count)
  {
    ExplodedOrderedContent([r], size);
    CombosComplete([r]);
    var sm := SortedMaterials([r], size);
    var cs := Combos([r]);
    forall e | e in ExplodedOrdered([r], size)
      ensures |e| <= Bound(r.count)
    {
      assert e in multiset(sm);
      var k :| 0 <= k < |sm| && sm[k] == e;
      assert cs[k] in cs;
      var v := cs[k];
      assert Materialize([r], v) == Copies(r.shape, v[0]) by {
        assert [r][..0] == [] && v[..0] == [];
      }
      assert |e| == |multiset(e)| == |multiset(Materialize([r], v))|;
    }
  }

  /** The first extended vector is the first vector with a last entry of one. */
  lemma {:induction false} ExtendFirst(vs: seq<seq<nat>>, n: nat)
    requires n >= 1 && |vs| > 0
    ensures |Extend(vs, n)| > 0 && Extend(vs, n)[0] == vs[0] + [1]
  {
    if n > 1 {
      ExtendFirst(vs, n - 1);
    }
  }

  /** For a single type the first copy-count vector is the single copy. */
  lemma SingleFirstCombo(r: RequiredShape)
    ensures |Combos([r])| > 0 && Combos([r])[0] == [1]
  {
    assert Combos([r]) == Extend([[]], Bound(r.count)) by {
      assert [r][..0] == [];
    }
    ExtendFirst([[]], Bound(r.count));
  }

  lemma SingleCopyMaterial(r: RequiredShape, size: Shape -> int)
    ensures SortDesc(Materialize([r], [1]), size) == [r.shape]
  {
    assert Materialize([r], [1]) == [r.shape] by {
      assert [r][..0] == [] && [1][..0] == [];
    }
    assert SortDesc([r.shape], size) == [r.shape];
  }

  lemma SingleCopyYielded(r: RequiredShape, size: Shape -> int)
    ensures [r.shape] in ExplodedOrdered([r], size)
  {
    ExplodedOrderedContent([r], size);
    SingleFirstCombo(r);
    SingleCopyMaterial(r, size);
    var sm := SortedMaterials([r], size);
    assert sm[0] == [r.shape];
    assert [r.shape] in multiset(sm);
  }

  lemma PrefixSnoc<T>(s: seq<T>, m: nat)
    requires m < |s|
    ensures s[..m + 1] == s[..m] + [s[m]]
  {
  }

  /** A clone of s with j more copies of x appended one at a time. */
  method CloneWithCopies(s: seq<Shape>, x: Shape, j: nat) returns (clone: seq<Shape>)
    ensures clone == s + Copies(x, j)
  {
    clone := s;
    for k := 0 to j
      invariant clone == s + Copies(x, k)
    {
      CopiesSucc(x, k);
      clone := clone + [x];
    }
  }

  /** The first inner loop: one more copy of x at the end of every sequence. */
  method AppendToEach(sets0: seq<seq<Shape>>, x: Shape) returns (sets: seq<seq<Shape>>)
    ensures sets == Block(sets0, x, 1)
  {
    sets := sets0;
    for k := 0 to |sets|
      invariant |sets| == |sets0|
      invariant forall j :: 0 <= j < k ==> sets[j] == sets0[j] + [x]
      invariant forall j :: k <= j < |sets| ==> sets[j] == sets0[j]
    {
      sets := sets[k := sets[k] + [x]];
    }
    assert Copies(x, 1) == [x];
  }

  lemma SeqAssoc<T>(a: seq<T>, b: seq<T>, c: seq<T>)
    ensures a + (b + c) == (a + b) + c
  {
  }

  lemma BlocksSnoc(sets: seq<seq<Shape>>, x: Shape, n: nat)
    ensures Blocks(sets, x, n + 1) == Blocks(sets, x, n) + Block(sets, x, n + 1)
  {
  }

  /** One pass of the clone loop: a clone of every (already extended) sequence with j
      further copies of x. */
  method CloneBlock(sets0: seq<seq<Shape>>, sets: seq<seq<Shape>>, x: Shape, j: nat) returns (blk: seq<seq<Shape>>)
    requires sets == Block(sets0, x, 1)
    ensures blk == Block(sets0, x, j + 1)
  {
    ghost var target := Block(sets0, x, j + 1);
    blk := [];
    for m := 0 to |sets|
      invariant blk == target[..m]
    {
      var clone := CloneWithCopies(sets[m], x, j);
      assert clone == target[m] by {
        assert sets[m] == sets0[m] + Copies(x, 1);
        assert Copies(x, 1) == [x];
        CopiesSucc(x, j);
        assert clone == sets0[m] + ([x] + Copies(x, j));
      }
      PrefixSnoc(target, m);
      blk := blk + [clone];
    }
    assert target[..|sets|] == target;
  }

  /** The clone loops: for j = 1 .. count-1, the clones with j further copies, block
      after block. */
  method ExtraSets(sets0: seq<seq<Shape>>, sets: seq<seq<Shape>>, x: Shape, count: int) returns (extra: seq<seq<Shape>>)
    requires sets == Block(sets0, x, 1)
    requires count > 1
    ensures sets + extra == Blocks(sets0, x, count)
  {
    assert Blocks(sets0, x, 1) == Block(sets0, x, 1) by {
      assert Blocks(sets0, x, 0) == [];
    }
    extra := [];
    for j := 1 to count
      invariant sets + extra == Blocks(sets0, x, j)
    {
      var blk := CloneBlock(sets0, sets, x, j);
      BlocksSnoc(sets0, x, j);
      SeqAssoc(sets, extra, blk);
      extra := extra + blk;
    }
  }

  /** One round of the outer loop of explodeRequiredShapes: append one copy of x to every
      sequence, then (when count > 1) add the clones with 2 .. count copies. */
  method AddType(sets0: seq<seq<Shape>>, x: Shape, count: int) returns (sets: seq<seq<Shape>>)
    ensures sets == Blocks(sets0, x, Bound(count))
  {
    sets := AppendToEach(sets0, x);
    if count > 1 {
      var extra := ExtraSets(sets0, sets, x, count);
      sets := sets + extra;
    } else {
      assert Blocks(sets0, x, 0) == [];
    }
  }

  /** explodeRequiredShapes: grow the sequences type by type, then apply the two sorts. */
  method ExplodeRequiredShapes(rs: seq<RequiredShape>, size: Shape -> int) returns (r: seq<seq<Shape>>)
    ensures r == ExplodedOrdered(rs, size)
  {
    var sets: seq<seq<Shape>> := [[]];
    for i := 0 to |rs|
      invariant sets == Exploded(rs[..i])
    {
      sets := AddType(sets, rs[i].shape, rs[i].count);
      assert rs[..i + 1][..i] == rs[..i];
    }
    assert rs[..|rs|] == rs;
    r := SortDesc(SortEach(sets, size), Length);
  }
}
