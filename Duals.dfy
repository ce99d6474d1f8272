/** The shadow prices the pricing step works with: one value per shape row, read from
    the library's dual array (entry 0 unused, entry r + 1 for row r + 1, that is for
    shape r). DualsAsWritten is the reading the solver performs: it tests one entry and
    copies the one below it, so a negative value can reach pricing. ClampedDuals is the
    intended reading, each row's own dual clamped at zero; it is defined and proved
    here but the solver does not use it. */
module Duals {

  /** The update exactly as the solver's loop writes it: the sign test looks at entry
      i + 1 of the library's array, but the value copied is entry i. */
  function DualsAsWritten(raw: seq<real>, n: nat): (d: seq<real>)
    requires n < |raw|
    ensures |d| == n
  {
    seq(n, i requires 0 <= i < n => if raw[i + 1] > 0.0 then raw[i] else 0.0)
  }

  /** The clamped duals: shape i gets the dual of its own row when that is positive,
      and zero otherwise. */
  function ClampedDuals(raw: seq<real>, n: nat): (d: seq<real>)
    requires n < |raw|
    ensures |d| == n
    ensures forall i :: 0 <= i < n ==> d[i] >= 0.0 && d[i] >= raw[i + 1]
    ensures forall i :: 0 <= i < n ==> d[i] == raw[i + 1] || d[i] == 0.0
  {
    seq(n, i requires 0 <= i < n => if raw[i + 1] > 0.0 then raw[i + 1] else 0.0)
  }

  /** The loop as written can hand a negative dual to the pricing step: with row 1
      negative and row 2 positive, shape index 1 (row 2) receives the negative dual of
      row 1 where the dual of its own row, 1, is meant. */
  lemma AsWrittenNotClamped()
    ensures DualsAsWritten([0.0, -5.0, 1.0], 2)[1] == -5.0
    ensures ClampedDuals([0.0, -5.0, 1.0], 2)[1] == 1.0
  {
  }

  /** Wherever the guarding entry is positive and differs from its neighbour below, the
      two readings disagree. */
  lemma AsWrittenShifted(raw: seq<real>, n: nat, i: nat)
    requires n < |raw| && i < n
    requires raw[i + 1] > 0.0 && raw[i] != raw[i + 1]
    ensures DualsAsWritten(raw, n)[i] != ClampedDuals(raw, n)[i]
  {
  }

  /** The two readings agree exactly when every positive row dual equals the entry
      just below it in the library's array. */
  lemma AsWrittenAgreesIff(raw: seq<real>, n: nat)
    requires n < |raw|
    ensures DualsAsWritten(raw, n) == ClampedDuals(raw, n)
      <==> forall i :: 0 <= i < n && raw[i + 1] > 0.0 ==> raw[i] == raw[i + 1]
  {
    var w, c := DualsAsWritten(raw, n), ClampedDuals(raw, n);
    if w == c {
      forall i | 0 <= i < n && raw[i + 1] > 0.0
        ensures raw[i] == raw[i + 1]
      {
        assert w[i] == c[i];
      }
    }
    if forall i :: 0 <= i < n && raw[i + 1] > 0.0 ==> raw[i] == raw[i + 1] {
      forall i | 0 <= i < n
        ensures w[i] == c[i]
      {
      }
      assert w == c;
    }
  }

  /** The score of a subset of shape indices: the sum of their duals, left to right. */
  function DualSum(d: seq<real>, sub: seq<nat>): real
    requires forall k :: 0 <= k < |sub| ==> sub[k] < |d|
  {
    if sub == [] then 0.0 else DualSum(d, sub[..|sub| - 1]) + d[sub[|sub| - 1]]
  }

  /** With clamped duals no subset scores below zero. */
  lemma {:induction false} DualSumNonNegative(d: seq<real>, sub: seq<nat>)
    requires forall k :: 0 <= k < |sub| ==> sub[k] < |d|
    requires forall i :: 0 <= i < |d| ==> d[i] >= 0.0
    ensures DualSum(d, sub) >= 0.0
  {
    if sub != [] {
      DualSumNonNegative(d, sub[..|sub| - 1]);
    }
  }

  /** Only a non-empty subset can reach the pricing threshold of one. */
  lemma EmptySubsetNeverPriced(d: seq<real>)
    ensures DualSum(d, []) < 1.0
  {
  }
}
