/** The linear program of the master problem, as the solver drives it through the
    lp_solve library: the rows' constraint types and right-hand sides, the columns'
    coefficient vectors and binary flags, and the dual values of the last solve.
    The numeric solve itself is an oracle: it may produce any dual vector of the
    library's length. */
module LinearProgram {

  class Lp {
    /** getNrows: the number of constraint rows, fixed when the program is made. */
    const nrows: nat
    /** Row r + 1 is an equality row exactly when equality[r] holds. */
    var equality: seq<bool>
    /** The right-hand side of row r + 1. */
    var rhs: seq<int>
    /** Column j + 1: entry 0 is its objective cost, entry r its coefficient in row r. */
    var columns: seq<seq<int>>
    /** Whether column j + 1 is restricted to the values 0 and 1. */
    var binary: seq<bool>
    /** getPtrDualSolution after the last solve: entry 0 unused, then one value per
        row and one per column. */
    var dualValues: seq<real>
    /** deleteLp has released the program. */
    var deleted: bool

    /** Well-formed bookkeeping: one entry per row, one flag and nrows + 1 entries per column. */
    ghost predicate Valid()
      reads this
    {
      && |equality| == nrows && |rhs| == nrows
      && |binary| == |columns|
      && forall j :: 0 <= j < |columns| ==> |columns[j]| == nrows + 1
    }

    /** makeLp(nrows, 0): a program with nrows free rows and no columns. */
    constructor (n: nat)
      ensures nrows == n && Valid()
      ensures equality == seq(n, _ => false) && rhs == seq(n, _ => 0)
      ensures columns == [] && binary == [] && dualValues == [] && !deleted
    {
      nrows := n;
      equality := seq(n, _ => false);
      rhs := seq(n, _ => 0);
      columns := [];
      binary := [];
      dualValues := [];
      deleted := false;
    }

    /** setConstrType(row, EQ) on a row numbered 1 .. nrows. */
    method SetEquality(row: nat)
      requires Valid() && 1 <= row <= nrows && !deleted
      modifies this
      ensures Valid()
      ensures equality == old(equality)[row - 1 := true]
      ensures rhs == old(rhs) && columns == old(columns) && binary == old(binary)
      ensures dualValues == old(dualValues) && deleted == old(deleted)
    {
      equality := equality[row - 1 := true];
    }

    /** setRh(row, value) on a row numbered 1 .. nrows. */
    method SetRh(row: nat, value: int)
      requires Valid() && 1 <= row <= nrows && !deleted
      modifies this
      ensures Valid()
      ensures rhs == old(rhs)[row - 1 := value]
      ensures equality == old(equality) && columns == old(columns) && binary == old(binary)
      ensures dualValues == old(dualValues) && deleted == old(deleted)
    {
      rhs := rhs[row - 1 := value];
    }

    /** addColumn(col): a new last column, continuous until told otherwise. */
    method AddColumn(col: seq<int>)
      requires Valid() && |col| == nrows + 1 && !deleted
      modifies this
      ensures Valid()
      ensures columns == old(columns) + [col] && binary == old(binary) + [false]
      ensures equality == old(equality) && rhs == old(rhs)
      ensures dualValues == old(dualValues) && deleted == old(deleted)
    {
      columns := columns + [col];
      binary := binary + [false];
    }

    /** setBinary(j, b) on a column numbered 1 .. getNcolumns. */
    method SetBinary(j: nat, b: bool)
      requires Valid() && 1 <= j <= |columns| && !deleted
      modifies this
      ensures Valid()
      ensures binary == old(binary)[j - 1 := b]
      ensures equality == old(equality) && rhs == old(rhs) && columns == old(columns)
      ensures dualValues == old(dualValues) && deleted == old(deleted)
    {
      binary := binary[j - 1 := b];
    }

    /** solve: the library's numeric solve. Nothing is known of the duals it leaves
        behind beyond the length of the array getPtrDualSolution hands out. */
    method Solve()
      requires Valid() && !deleted
      modifies this
      ensures Valid()
      ensures |dualValues| == 1 + nrows + |columns|
      ensures equality == old(equality) && rhs == old(rhs)
      ensures columns == old(columns) && binary == old(binary) && deleted == old(deleted)
    {
      var n := 1 + nrows + |columns|;
      assert |seq(n, _ => 0.0)| == n;
      var d: seq<real> :| |d| == n;
      dualValues := d;
    }

    /** deleteLp: release the program. The library must not be asked to do so twice,
        nor be used afterwards, hence the !deleted preconditions. */
    method Delete()
      requires !deleted
      modifies this
      ensures deleted
      ensures equality == old(equality) && rhs == old(rhs) && columns == old(columns)
      ensures binary == old(binary) && dualValues == old(dualValues)
    {
      deleted := true;
    }
  }
}
