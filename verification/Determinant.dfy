// Gaussian elimination as the matrix class performs it.

module Determinant {
  import opened ModArith
  import opened PrimeField
  import opened Matrices

  // ----- one elimination step

  // A reduced row of length w.
  predicate FieldRow(row: seq<int>, w: nat, p: int) {
    |row| == w && forall j :: 0 <= j < w ==> 0 <= row[j] < p
  }

  // Rows of one length w, which is at least their number.
  predicate Shaped(rows: Rows, w: nat, p: int) {
    w >= |rows| && forall i :: 0 <= i < |rows| ==> FieldRow(rows[i], w, p)
  }

  // The rows whose leading entry is zero (or is not), in order.
  function LeadFilter(rows: Rows, zero: bool): (f: Rows)
    requires forall i :: 0 <= i < |rows| ==> |rows[i]| >= 1
    ensures |f| <= |rows|
    ensures forall k :: 0 <= k < |f| ==> f[k] in rows && (f[k][0] == 0) == zero
  {
    if rows == [] then []
    else if (rows[0][0] == 0) == zero then [rows[0]] + LeadFilter(rows[1..], zero)
    else LeadFilter(rows[1..], zero)
  }

  lemma {:induction false} FiltersCover(rows: Rows)
    requires forall i :: 0 <= i < |rows| ==> |rows[i]| >= 1
    ensures |LeadFilter(rows, false)| + |LeadFilter(rows, true)| == |rows|
    ensures forall r :: r in rows ==> r in LeadFilter(rows, r[0] == 0)
  {
    if rows != [] {
      FiltersCover(rows[1..]);
      assert rows == [rows[0]] + rows[1..];
    }
  }

  // The pivot row scaled to a leading one.
  function Normalize(pivotRow: seq<int>, inverse: int, p: int): (r: seq<int>)
    requires p > 0
    ensures |r| == |pivotRow| && FieldRow(r, |pivotRow|, p)
    ensures forall j :: 0 <= j < |r| ==> r[j] == (inverse * pivotRow[j]) % p
  {
    seq(|pivotRow|, j requires 0 <= j < |pivotRow| => (inverse * pivotRow[j]) % p)
  }

  function EliminateRow(row: seq<int>, normalized: seq<int>, p: int): (r: seq<int>)
    requires p > 0 && |row| == |normalized| >= 1
    ensures |r| == |row| && FieldRow(r, |row|, p)
    ensures forall j :: 0 <= j < |r| ==> r[j] == (row[j] - (row[0] * normalized[j]) % p) % p
  {
    seq(|row|, j requires 0 <= j < |row| => (row[j] - (row[0] * normalized[j]) % p) % p)
  }

  function EliminateAll(rows: Rows, normalized: seq<int>, p: int): (r: Rows)
    requires p > 0 && |normalized| >= 1
    requires forall i :: 0 <= i < |rows| ==> |rows[i]| == |normalized|
    ensures |r| == |rows|
    ensures forall i :: 0 <= i < |rows| ==> r[i] == EliminateRow(rows[i], normalized, p)
  {
    seq(|rows|, i requires 0 <= i < |rows| => EliminateRow(rows[i], normalized, p))
  }

  function DropColumn(rows: Rows): (r: Rows)
    requires forall i :: 0 <= i < |rows| ==> |rows[i]| >= 1
    ensures |r| == |rows|
    ensures forall i :: 0 <= i < |rows| ==> r[i] == rows[i][1..]
  {
    seq(|rows|, i requires 0 <= i < |rows| => rows[i][1..])
  }

  // The remaining rows, the pivot row being the first row with a nonzero leading entry.
  ghost function NextRows(rows: Rows, w: nat, p: int): (next: Rows)
    requires IsPrime(p) && w >= 1 && Shaped(rows, w, p)
    requires LeadFilter(rows, false) != []
    ensures |next| == |rows| - 1 && Shaped(next, w - 1, p)
  {
    hide EliminateRow, Normalize;
    FiltersShaped(rows, w, p);
    var nlz, lz := LeadFilter(rows, false), LeadFilter(rows, true);
    var normalized := Normalize(nlz[0], PivotInverse(nlz[0][0], p), p);
    var all := EliminateAll(nlz[1..], normalized, p) + lz;
    FieldRowLength(rows, w, p);
    DropShaped(all, w, p);
    DropColumn(all)
  }

  // The inverse of a nonzero reduced entry.
  function PivotInverse(pivot: int, p: int): (r: int)
    requires IsPrime(p) && 0 < pivot < p
    ensures 0 <= r < p && (pivot * r) % p == 1
  {
    SmallMod(pivot, p);
    Inv(pivot, p)
  }

  lemma FiltersShaped(rows: Rows, w: nat, p: int)
    requires w >= 1 && Shaped(rows, w, p)
    ensures forall zero: bool, k :: 0 <= k < |LeadFilter(rows, zero)| ==> FieldRow(LeadFilter(rows, zero)[k], w, p)
    ensures |LeadFilter(rows, false)| + |LeadFilter(rows, true)| == |rows|
    ensures LeadFilter(rows, false) != [] ==> 0 < LeadFilter(rows, false)[0][0] < p
  {
    hide FieldRow, LeadFilter;
    FieldRowLength(rows, w, p);
    FiltersCover(rows);
    forall zero: bool, k | 0 <= k < |LeadFilter(rows, zero)|
      ensures FieldRow(LeadFilter(rows, zero)[k], w, p)
    {
      var r := LeadFilter(rows, zero)[k];
      assert r in rows;
    }
    if LeadFilter(rows, false) != [] {
      FieldRowEntry(LeadFilter(rows, false)[0], w, p);
    }
  }

  lemma FieldRowLength(rows: Rows, w: nat, p: int)
    requires Shaped(rows, w, p)
    ensures forall i :: 0 <= i < |rows| ==> |rows[i]| == w
  {
  }

  lemma FieldRowEntry(row: seq<int>, w: nat, p: int)
    requires FieldRow(row, w, p) && w >= 1
    ensures |row| == w && 0 <= row[0] < p
  {
  }

  lemma DropShaped(rows: Rows, w: nat, p: int)
    requires w >= |rows| + 1 && forall i :: 0 <= i < |rows| ==> |rows[i]| == w && FieldRow(rows[i], w, p)
    ensures Shaped(DropColumn(rows), w - 1, p)
  {
    forall i | 0 <= i < |rows|
      ensures FieldRow(DropColumn(rows)[i], w - 1, p)
    {
      assert FieldRow(rows[i], w, p);
    }
  }

  // The product of the pivots, zero as soon as there is none.
  ghost function GaussDet(rows: Rows, w: nat, p: int): (d: int)
    requires IsPrime(p) && Shaped(rows, w, p)
    ensures 0 <= d < p
    decreases |rows|
  {
    if rows == [] then 1
    else
      var nlz := LeadFilter(rows, false);
      if nlz == [] then 0 else (nlz[0][0] * GaussDet(NextRows(rows, w, p), w - 1, p)) % p
  }

  // ----- the method

  method IsSquare(data: Rows) returns (b: bool)
    ensures b <==> forall i :: 1 <= i < |data| ==> |data[i]| == |data|
  {
    var i := 1;
    while i < |data|
      invariant 1 <= i
      invariant forall k :: 1 <= k < i && k < |data| ==> |data[k]| == |data|
    {
      if |data[i]| != |data| {
        return false;
      }
      i := i + 1;
    }
    b := true;
  }

  lemma SquareTest(data: Rows, p: int)
    requires Valid(data, p)
    ensures (forall i :: 1 <= i < |data| ==> |data[i]| == |data|) <==> |data| == 1 || NumCols(data) == |data|
  {
    if |data| >= 2 {
      assert |data[1]| == NumCols(data);
    }
  }

  lemma ValidShaped(data: Rows, p: int)
    requires Valid(data, p) && NumCols(data) >= 1 && (|data| == 1 || NumCols(data) == |data|)
    ensures Shaped(data, NumCols(data), p)
  {
  }

  // One pass of the loop: the pivot and the remaining rows.
  method EliminationStep(rows: Rows, ghost w: nat, p: int) returns (pivot: int, next: Rows)
    requires IsPrime(p) && w >= 1 && Shaped(rows, w, p) && LeadFilter(rows, false) != []
    ensures pivot == LeadFilter(rows, false)[0][0] && next == NextRows(rows, w, p)
  {
    hide LeadFilter, EliminateRow, Normalize, DropColumn, EliminateAll;
    FiltersShaped(rows, w, p);
    var lzRows := LeadFilter(rows, true);
    var nlzRows := LeadFilter(rows, false);
    var pivotRow := nlzRows[0];
    nlzRows := nlzRows[1..];
    pivot := pivotRow[0];
    var pivotInverse := PivotInverse(pivot, p);
    var normalizedPivotRow := Normalize(pivotRow, pivotInverse, p);
    var nlzRowsProcessed := EliminateAll(nlzRows, normalizedPivotRow, p);
    next := DropColumn(nlzRowsProcessed + lzRows);
  }

  // A single row of any length passes the squareness test, and its determinant is its first entry.
  method Det(data: Rows, p: int) returns (res: Result<int>)
    requires IsPrime(p) && Valid(data, p)
    ensures res == if |data| >= 2 && NumCols(data) != |data| then Failure(NotSquare)
                   else if NumCols(data) == 0 then Failure(EmptyMatrix)
                   else Success(GaussDet(data, NumCols(data), p))
  {
    hide LeadFilter, NextRows, IsPrime;
    var n := |data|;
    var square := IsSquare(data);
    SquareTest(data, p);
    if n == 0 || !square {
      return Failure(NotSquare);
    }
    if |data[0]| == 0 {
      return Failure(EmptyMatrix);
    }
    ValidShaped(data, p);
    var det := 1;
    var rows := data;
    ghost var w := NumCols(data);
    ghost var goal := GaussDet(data, w, p);
    SmallMod(goal, p);
    assert goal == (det * goal) % p && p >= 2 by { PrimeBasics(p); }
    for i := 0 to n
      invariant |rows| == n - i && w == NumCols(data) - i
      invariant Shaped(rows, w, p)
      invariant 0 <= det < p && goal == (det * GaussDet(rows, w, p)) % p
    {
      if LeadFilter(rows, false) == [] {
        SmallMod(0, p);
        return Success(0);
      }
      GaussStep(rows, w, p, det);
      var pivot;
      pivot, rows := EliminationStep(rows, w, p);
      det := (det * pivot) % p;
      w := w - 1;
    }
    SmallMod(det, p);
    res := Success(det);
  }

  lemma PrimeBasics(p: int)
    requires IsPrime(p)
    ensures p >= 2
  {
  }

  lemma GaussStep(rows: Rows, w: nat, p: int, det: int)
    requires IsPrime(p) && w >= 1 && Shaped(rows, w, p) && rows != [] && LeadFilter(rows, false) != []
    ensures (det * GaussDet(rows, w, p)) % p
         == (((det * LeadFilter(rows, false)[0][0]) % p) * GaussDet(NextRows(rows, w, p), w - 1, p)) % p
  {
    hide LeadFilter, NextRows;
    PivotStep(det, LeadFilter(rows, false)[0][0], GaussDet(NextRows(rows, w, p), w - 1, p), p);
  }

  lemma PivotStep(det: int, pivot: int, rest: int, p: int)
    requires p > 0
    ensures (det * ((pivot * rest) % p)) % p == (((det * pivot) % p) * rest) % p
  {
    ModNoop(det, pivot * rest, p);
    ModNoop(det * pivot, rest, p);
    MulAssoc(det, pivot, rest);
  }
}
