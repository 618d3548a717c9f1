/**
 * The array helpers of the TBW RFI survey: widening a 2-D flag mask around
 * its flagged cells (optionally merging the flags of all rows into whole
 * columns), and counting saturated samples per time series.
 *
 * The mask is written with numpy subscript semantics: a column offset that
 * lands in [-ncols, -1] wraps to the end of the row, and one that falls
 * outside [-ncols, ncols) raises an IndexError that the caller swallows.
 */
module RfiCheck {
  import opened Wrappers
  import Arith
  import PyIndex

  /** The largest magnitude a 12-bit TBW sample can report. */
  const SaturationLevel: int := 2047

  /*
   * Coverage: which columns a single flagged cell widens onto.
   */

  /**
   * Some offset k with lo <= k < hi, applied to column j of a row of width
   * n, lands on column c once negative subscripts are wrapped.
   */
  predicate CoveredBy(j: int, c: int, n: nat, lo: int, hi: int)
  {
    0 <= c < n && (lo <= c - j < hi || lo <= c - n - j < hi)
  }

  /** Column c is within radius of flagged column j, counting the numpy wrap. */
  predicate Covers(j: int, c: int, n: nat, radius: int)
  {
    CoveredBy(j, c, n, -radius, radius + 1)
  }

  /**
   * The column written for offset k from column j in a row of width n, or
   * None when numpy rejects the subscript j + k (the swallowed IndexError):
   * offsets past the right edge or below -n.
   */
  function Landing(j: int, k: int, n: nat): (target: Option<nat>)
    ensures target.Some? <==> -(n as int) <= j + k < n
    ensures target.Some? ==> target.value < n && target.value % n == (j + k) % n
  {
    var target := PyIndex.Normalize(j + k, n);
    assert target.Some? ==> target.value % n == (j + k) % n by {
      if target.Some? {
        var r := target.value;
        Arith.ModUnique(r, n, 0, r);
        if r == j + k {
          Arith.ModUnique(j + k, n, 0, r);
        } else {
          Arith.ModUnique(j + k, n, -1, r);
        }
      }
    }
    target
  }

  /**
   * Covers is exactly the set of columns the offset loop writes: some k in
   * [-radius, radius] whose subscript j + k lands on column c.
   */
  lemma CoversIff(j: int, c: int, n: nat, radius: int)
    ensures Covers(j, c, n, radius) <==>
            exists k :: -radius <= k <= radius && Landing(j, k, n) == Some(c)
  {
    if Covers(j, c, n, radius) {
      var k := if -radius <= c - j <= radius then c - j else c - n - j;
      PyIndex.NormalizeHits(j + k, n, c);
      assert Landing(j, k, n) == Some(c);
    }
    if exists k :: -radius <= k <= radius && Landing(j, k, n) == Some(c) {
      var k :| -radius <= k <= radius && Landing(j, k, n) == Some(c);
      assert 0 <= c < n;
      PyIndex.NormalizeHits(j + k, n, c);
    }
  }

  /*
   * The expanded mask, stated cell by cell.
   */

  /** Some flagged cell among the first `upto` cells of row i covers column c. */
  predicate SeededUpTo(mask: array2<int>, i: nat, c: int, radius: int, upto: nat)
    reads mask
    requires i < mask.Length0 && upto <= mask.Length1
    decreases upto
  {
    upto > 0 &&
    (SeededUpTo(mask, i, c, radius, upto - 1) ||
     (mask[i, upto - 1] == 1 && Covers(upto - 1, c, mask.Length1, radius)))
  }

  /** Cell (i, c) of the expanded mask before merging. */
  predicate RowHit(mask: array2<int>, i: nat, c: int, radius: int)
    reads mask
    requires i < mask.Length0
  {
    SeededUpTo(mask, i, c, radius, mask.Length1)
  }

  /** Column c is set in some row of the expanded mask. */
  ghost predicate ColumnHit(mask: array2<int>, c: int, radius: int)
    reads mask
  {
    exists i :: 0 <= i < mask.Length0 && RowHit(mask, i, c, radius)
  }

  lemma {:induction false} SeededUpToIff(mask: array2<int>, i: nat, c: int, radius: int, upto: nat)
    requires i < mask.Length0 && upto <= mask.Length1
    ensures SeededUpTo(mask, i, c, radius, upto) <==>
            exists j :: 0 <= j < upto && mask[i, j] == 1 && Covers(j, c, mask.Length1, radius)
    decreases upto
  {
    if upto > 0 {
      SeededUpToIff(mask, i, c, radius, upto - 1);
    }
  }

  /**
   * A cell of the expanded row is set exactly when some cell of the same row
   * holding exactly 1 lies within radius of it; cells holding any other
   * value seed nothing.
   */
  lemma RowHitIff(mask: array2<int>, i: nat, c: int, radius: int)
    requires i < mask.Length0
    ensures RowHit(mask, i, c, radius) <==>
            exists j :: 0 <= j < mask.Length1 && mask[i, j] == 1 && Covers(j, c, mask.Length1, radius)
  {
    SeededUpToIff(mask, i, c, radius, mask.Length1);
  }

  /** With a non-negative radius every flagged cell stays flagged. */
  lemma SeedIsSet(mask: array2<int>, i: nat, j: nat, radius: int)
    requires i < mask.Length0 && j < mask.Length1
    requires mask[i, j] == 1 && radius >= 0
    ensures RowHit(mask, i, j, radius)
  {
    RowHitIff(mask, i, j, radius);
  }

  /** Without merging, row i of the result depends on row i of the input only. */
  lemma RowsIndependent(mask: array2<int>, other: array2<int>, i: nat, c: int, radius: int)
    requires i < mask.Length0 && i < other.Length0 && mask.Length1 == other.Length1
    requires forall j :: 0 <= j < mask.Length1 ==> mask[i, j] == other[i, j]
    ensures RowHit(mask, i, c, radius) == RowHit(other, i, c, radius)
  {
    RowHitIff(mask, i, c, radius);
    RowHitIff(other, i, c, radius);
  }

  /*
   * Column sums, used by the merge step.
   */

  /** The number of set cells among the first `rows` cells of column c. */
  function ColumnCount(r: array2<bool>, c: nat, rows: nat): (count: nat)
    reads r
    requires c < r.Length1 && rows <= r.Length0
    ensures count <= rows
  {
    if rows == 0 then 0
    else ColumnCount(r, c, rows - 1) + (if r[rows - 1, c] then 1 else 0)
  }

  lemma {:induction false} ColumnCountPositive(r: array2<bool>, c: nat, rows: nat)
    requires c < r.Length1 && rows <= r.Length0
    ensures ColumnCount(r, c, rows) > 0 <==> exists i :: 0 <= i < rows && r[i, c]
  {
    if rows > 0 {
      ColumnCountPositive(r, c, rows - 1);
    }
  }

  lemma AllColumnCountsPositive(r: array2<bool>)
    ensures forall c :: 0 <= c < r.Length1 ==>
              (ColumnCount(r, c, r.Length0) > 0 <==> exists i :: 0 <= i < r.Length0 && r[i, c])
  {
    forall c | 0 <= c < r.Length1 {
      ColumnCountPositive(r, c, r.Length0);
    }
  }

  /** `mask2.sum(axis=0)`: a column's sum is positive iff one of its cells is set. */
  function ColumnSums(r: array2<bool>): (sums: seq<nat>)
    reads r
    ensures |sums| == r.Length1
    ensures forall c :: 0 <= c < r.Length1 ==>
              sums[c] <= r.Length0 && (sums[c] > 0 <==> exists i :: 0 <= i < r.Length0 && r[i, c])
  {
    AllColumnCountsPositive(r);
    seq(r.Length1, c requires 0 <= c < r.Length1 reads r => ColumnCount(r, c, r.Length0))
  }

  /*
   * expandMask itself.
   */

  /**
   * Widens every flagged cell of row i onto the columns within radius,
   * writing True through numpy subscripts and skipping the subscripts numpy
   * rejects. Row i of r must start clear; no other row is touched.
   */
  method ExpandRow(mask: array2<int>, r: array2<bool>, i: nat, radius: int)
    requires r.Length0 == mask.Length0 && r.Length1 == mask.Length1 && i < mask.Length0
    requires forall c :: 0 <= c < r.Length1 ==> !r[i, c]
    modifies r
    ensures forall c :: 0 <= c < r.Length1 ==> (r[i, c] <==> RowHit(mask, i, c, radius))
    ensures forall i', c :: 0 <= i' < r.Length0 && i' != i && 0 <= c < r.Length1 ==> r[i', c] == old(r[i', c])
  {
    var n := mask.Length1;
    for j := 0 to n
      invariant forall c :: 0 <= c < n ==> (r[i, c] <==> SeededUpTo(mask, i, c, radius, j))
      invariant forall i', c :: 0 <= i' < r.Length0 && i' != i && 0 <= c < n ==> r[i', c] == old(r[i', c])
    {
      if mask[i, j] == 1 {
        var k := -radius;
        while k < radius + 1
          invariant -radius <= k && (k <= radius + 1 || k == -radius)
          invariant forall c :: 0 <= c < n ==>
                      (r[i, c] <==> SeededUpTo(mask, i, c, radius, j) || CoveredBy(j, c, n, -radius, k))
          invariant forall i', c :: 0 <= i' < r.Length0 && i' != i && 0 <= c < n ==> r[i', c] == old(r[i', c])
          decreases radius + 1 - k
        {
          var target := Landing(j, k, n);
          if target.Some? {
            r[i, target.value] := true;
          }
          forall c | 0 <= c < n {
            PyIndex.NormalizeHits(j + k, n, c);
          }
          k := k + 1;
        }
      }
    }
  }

  /**
   * expandMask: a fresh boolean mask of the input's shape. Without merge,
   * cell (i, c) is set iff a cell of row i holding 1 lies within radius of
   * column c (numpy wrap included); with merge, a column is set in every row
   * iff it is set in some row of the unmerged result, so every column is
   * uniformly set or clear. The input is only read.
   */
  method ExpandMask(mask: array2<int>, radius: int := 2, merge: bool := false) returns (r: array2<bool>)
    ensures fresh(r)
    ensures r.Length0 == mask.Length0 && r.Length1 == mask.Length1
    ensures forall i, c :: 0 <= i < r.Length0 && 0 <= c < r.Length1 ==>
              (r[i, c] <==> if merge then ColumnHit(mask, c, radius) else RowHit(mask, i, c, radius))
  {
    var m, n := mask.Length0, mask.Length1;
    r := new bool[m, n]((_, _) => false);
    for i := 0 to m
      invariant forall i', c :: 0 <= i' < i && 0 <= c < n ==> (r[i', c] <==> RowHit(mask, i', c, radius))
      invariant forall i', c :: i <= i' < m && 0 <= c < n ==> !r[i', c]
    {
      ExpandRow(mask, r, i, radius);
    }
    if merge {
      MergeColumns(mask, r, radius);
    }
  }

  /**
   * The merge step: every column that is set in some row of the expanded
   * mask becomes set in every row.
   */
  method MergeColumns(mask: array2<int>, r: array2<bool>, radius: int)
    requires r.Length0 == mask.Length0 && r.Length1 == mask.Length1
    requires forall i, c :: 0 <= i < r.Length0 && 0 <= c < r.Length1 ==> (r[i, c] <==> RowHit(mask, i, c, radius))
    modifies r
    ensures forall i, c :: 0 <= i < r.Length0 && 0 <= c < r.Length1 ==> (r[i, c] <==> ColumnHit(mask, c, radius))
  {
    var m, n := r.Length0, r.Length1;
    var sums := ColumnSums(r);
    assert forall c :: 0 <= c < n ==> (sums[c] > 0 <==> ColumnHit(mask, c, radius));
    for c := 0 to n
      invariant forall i, c' :: 0 <= i < m && 0 <= c' < c ==> (r[i, c'] <==> ColumnHit(mask, c', radius))
      invariant forall i, c' :: 0 <= i < m && c <= c' < n ==> (r[i, c'] <==> RowHit(mask, i, c', radius))
    {
      if sums[c] > 0 {
        forall i | 0 <= i < m {
          r[i, c] := true;
        }
      }
    }
  }

  /*
   * Saturation count (`tsSat`).
   */

  /** The number of samples of a time series at plus or minus full scale. */
  function SaturationCount(row: seq<int>): (count: nat)
    ensures count <= |row|
  {
    if row == [] then 0
    else
      SaturationCount(row[..|row| - 1]) +
      (if row[|row| - 1] == SaturationLevel || row[|row| - 1] == -SaturationLevel then 1 else 0)
  }

  /** The count is the multiplicity of 2047 plus that of -2047. */
  lemma {:induction false} SaturationCountIsMultiplicity(row: seq<int>)
    ensures SaturationCount(row) == multiset(row)[SaturationLevel] + multiset(row)[-SaturationLevel]
  {
    if row != [] {
      var front, last := row[..|row| - 1], row[|row| - 1];
      assert row == front + [last];
      SaturationCountIsMultiplicity(front);
    }
  }

  /** Row i of a 2-D array as a sequence. */
  function RowOf(data: array2<int>, i: nat): (row: seq<int>)
    reads data
    requires i < data.Length0
    ensures |row| == data.Length1 && forall j :: 0 <= j < data.Length1 ==> row[j] == data[i, j]
  {
    seq(data.Length1, j requires 0 <= j < data.Length1 reads data => data[i, j])
  }

  lemma AllSaturationCounts(data: array2<int>)
    ensures forall i :: 0 <= i < data.Length0 ==>
              SaturationCount(RowOf(data, i)) == multiset(RowOf(data, i))[SaturationLevel] + multiset(RowOf(data, i))[-SaturationLevel]
  {
    forall i | 0 <= i < data.Length0 {
      SaturationCountIsMultiplicity(RowOf(data, i));
    }
  }

  /** `tsSat`: per row, how many samples equal 2047 or -2047. */
  function SaturationCounts(data: array2<int>): (counts: seq<nat>)
    reads data
    ensures |counts| == data.Length0
    ensures forall i :: 0 <= i < data.Length0 ==>
              counts[i] <= data.Length1 &&
              counts[i] == multiset(RowOf(data, i))[SaturationLevel] + multiset(RowOf(data, i))[-SaturationLevel]
  {
    AllSaturationCounts(data);
    seq(data.Length0, i requires 0 <= i < data.Length0 reads data => SaturationCount(RowOf(data, i)))
  }
}
