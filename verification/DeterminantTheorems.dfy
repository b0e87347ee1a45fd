// What the elimination computes: the true determinant up to sign, and zero exactly for a matrix with a nonzero vector
// in its kernel.

module DeterminantTheorems {
  import opened ModArith
  import opened PrimeField
  import opened Matrices
  import opened Determinant
  import opened Laplace

  // ----- sign

  // How many times a row with a nonzero leading entry stands below one with a zero leading entry.
  function Inversions(rows: Rows): nat
    requires forall i :: 0 <= i < |rows| ==> |rows[i]| >= 1
  {
    if rows == [] then 0
    else (if rows[0][0] == 0 then |LeadFilter(rows[1..], false)| else 0) + Inversions(rows[1..])
  }

  // The inversions of all elimination steps together.
  ghost function TotalInversions(rows: Rows, w: nat, p: int): nat
    requires IsPrime(p) && Shaped(rows, w, p)
    decreases |rows|
  {
    if rows == [] || LeadFilter(rows, false) == [] then 0
    else Inversions(rows) + TotalInversions(NextRows(rows, w, p), w - 1, p)
  }

  // The stable partition into rows with a nonzero and with a zero leading entry undoes exactly the inversions.
  lemma {:induction false} DetPartition(u: Rows, v: Rows)
    requires forall i :: 0 <= i < |v| ==> |v[i]| >= 1
    ensures LaplaceDet(u + v) == Sign(Inversions(v)) * LaplaceDet(u + LeadFilter(v, false) + LeadFilter(v, true))
    decreases |v|
  {
    hide LaplaceDet, Sign, LeadFilter, Inversions;
    if v == [] {
      EmptyPartition();
      assert u + LeadFilter(v, false) + LeadFilter(v, true) == u + v;
    } else {
      var r, rest := v[0], v[1..];
      var f, z := LeadFilter(rest, false), LeadFilter(rest, true);
      PartitionStep(v);
      DetPartition(u + [r], rest);
      assert (u + [r]) + rest == u + v;
      if r[0] == 0 {
        DetMoveRow(u, r, f, z);
        assert u + f + ([r] + z) == u + f + [r] + z;
        SignSum(|f|, Inversions(rest));
        SignedMove(Sign(Inversions(rest)), Sign(|f|), LaplaceDet(u + f + [r] + z));
      } else {
        assert u + ([r] + f) + z == (u + [r]) + f + z;
      }
    }
  }

  lemma SignedMove(s: int, t: int, d: int)
    ensures s * (t * d) == (t * s) * d
  {
    MulAssoc(s, t, d);
    MulCommutes(s, t);
  }

  lemma EmptyPartition()
    ensures LeadFilter([], false) == [] && LeadFilter([], true) == [] && Sign(Inversions([])) == 1
  {
  }

  lemma PartitionStep(v: Rows)
    requires v != [] && forall i :: 0 <= i < |v| ==> |v[i]| >= 1
    ensures var f, z := LeadFilter(v[1..], false), LeadFilter(v[1..], true);
            if v[0][0] == 0
            then LeadFilter(v, false) == f && LeadFilter(v, true) == [v[0]] + z && Inversions(v) == |f| + Inversions(v[1..])
            else LeadFilter(v, false) == [v[0]] + f && LeadFilter(v, true) == z && Inversions(v) == Inversions(v[1..])
  {
  }

  // Over the integers: subtracting from every row but the first a multiple of the first, for the first k rows.
  function Cleared(rows: Rows, ts: int -> int, k: nat): (c: Rows)
    requires forall i :: 0 <= i < |rows| ==> |rows[i]| == |rows[0]|
    ensures |c| == |rows|
    ensures forall i :: 0 <= i < |rows| ==> |c[i]| == |rows[i]|
  {
    seq(|rows|, i requires 0 <= i < |rows| =>
      if 1 <= i < k then seq(|rows[i]|, j requires 0 <= j < |rows[i]| => rows[i][j] + ts(i) * rows[0][j]) else rows[i])
  }

  lemma {:induction false} DetCleared(rows: Rows, ts: int -> int, k: nat)
    requires rows != [] && forall i :: 0 <= i < |rows| ==> |rows[i]| == |rows[0]|
    requires k <= |rows|
    ensures LaplaceDet(Cleared(rows, ts, k)) == LaplaceDet(rows)
  {
    hide LaplaceDet;
    if k <= 1 {
      assert Cleared(rows, ts, k) == rows;
    } else {
      DetCleared(rows, ts, k - 1);
      var c, a := Cleared(rows, ts, k), Cleared(rows, ts, k - 1);
      assert a[k - 1] == rows[k - 1] && a[0] == rows[0];
      DetRowOperation(c, a, k - 1, ts(k - 1));
    }
  }

  // The coefficient the elimination uses for one row.
  function Coefficient(row: seq<int>, inverse: int): int {
    -(Lead(row) * inverse)
  }

  lemma EliminatedEntry(lead: int, inverse: int, x: int, y: int, p: int)
    requires p > 0
    ensures ((y - (lead * ((inverse * x) % p)) % p) % p) % p == (y + -(lead * inverse) * x) % p
  {
    ModNoop(lead, inverse * x, p);
    ModNoop(y, lead * (inverse * x), p);
    ModMod(y - (lead * ((inverse * x) % p)) % p, p);
    MulAssoc(lead, inverse, x);
    assert y + -(lead * inverse) * x == y - (lead * inverse) * x;
  }

  // The leading entry of an eliminated row is zero.
  lemma EliminatedLead(row: seq<int>, pivotRow: seq<int>, inverse: int, p: int)
    requires p > 0 && |row| == |pivotRow| >= 1 && (pivotRow[0] * inverse) % p == 1
    ensures EliminateRow(row, Normalize(pivotRow, inverse, p), p)[0] == 0
  {
    MulCommutes(pivotRow[0], inverse);
    assert row[0] * 1 == row[0];
    ModNoop(row[0], row[0], p);
    SmallMod(0, p);
  }

  // The rows after elimination with the first row as pivot row; rows with a zero leading entry are left alone.
  ghost predicate IsEliminated(e: Rows, rows: Rows, inverse: int, p: int)
    requires p > 0
  {
    && |e| == |rows| && rows != [] && e[0] == rows[0]
    && (forall i :: 0 <= i < |rows| ==> |e[i]| == |rows[i]| == |rows[0]| >= 1)
    && forall i :: 1 <= i < |rows| ==>
         if rows[i][0] == 0 then e[i] == rows[i] else e[i] == EliminateRow(rows[i], Normalize(rows[0], inverse, p), p)
  }

  lemma DetEliminated(e: Rows, rows: Rows, inverse: int, p: int)
    requires p > 0 && IsEliminated(e, rows, inverse, p)
    requires (rows[0][0] * inverse) % p == 1
    ensures LaplaceDet(rows) % p == (rows[0][0] * LaplaceDet(Tails(e[1..]))) % p
  {
    hide LaplaceDet, EliminateRow, Normalize;
    var ts := (i: int) => if 0 <= i < |rows| then Coefficient(rows[i], inverse) else 0;
    var c := Cleared(rows, ts, |rows|);
    DetCleared(rows, ts, |rows|);
    forall i | 0 <= i < |rows|
      ensures forall j :: 0 <= j < |c[i]| ==> c[i][j] % p == e[i][j] % p
      ensures i >= 1 ==> Lead(e[i]) == 0
    {
      EliminatedRow(c[i], e[i], rows[i], rows[0], inverse, p, i);
    }
    DetCong(c, e, p);
    DetLeadingRow(e);
  }

  lemma EliminatedAt(row: seq<int>, pivotRow: seq<int>, inverse: int, p: int, j: nat)
    requires p > 0 && |row| == |pivotRow| >= 1 && j < |row|
    ensures EliminateRow(row, Normalize(pivotRow, inverse, p), p)[j] % p == (row[j] + Coefficient(row, inverse) * pivotRow[j]) % p
  {
    hide EliminateRow, Normalize;
    EliminatedEntry(row[0], inverse, pivotRow[j], row[j], p);
  }

  lemma EliminatedRow(c: seq<int>, e: seq<int>, row: seq<int>, pivotRow: seq<int>, inverse: int, p: int, i: nat)
    requires p > 0 && |c| == |e| == |row| == |pivotRow| >= 1 && (pivotRow[0] * inverse) % p == 1
    requires i == 0 ==> e == row == c
    requires i >= 1 ==> c == seq(|row|, j requires 0 <= j < |row| => row[j] + Coefficient(row, inverse) * pivotRow[j])
    requires i >= 1 ==> if row[0] == 0 then e == row else e == EliminateRow(row, Normalize(pivotRow, inverse, p), p)
    ensures forall j :: 0 <= j < |c| ==> c[j] % p == e[j] % p
    ensures i >= 1 ==> Lead(e) == 0
  {
    hide EliminateRow, Normalize;
    if i >= 1 {
      if row[0] != 0 {
        EliminatedLead(row, pivotRow, inverse, p);
        forall j | 0 <= j < |c|
          ensures c[j] % p == e[j] % p
        {
          EliminatedAt(row, pivotRow, inverse, p, j);
        }
      } else {
        assert Coefficient(row, inverse) == 0;
      }
    }
  }

  lemma PartitionLeads(rows: Rows, w: nat, p: int)
    requires w >= 1 && Shaped(rows, w, p) && LeadFilter(rows, false) != []
    ensures var n := |LeadFilter(rows, false)|;
            var order := LeadFilter(rows, false) + LeadFilter(rows, true);
            && |order| == |rows|
            && (forall i :: 0 <= i < |order| ==> |order[i]| == w && (order[i][0] == 0 <==> i >= n))
            && 0 < order[0][0] < p
    ensures forall zero: bool, k :: 0 <= k < |LeadFilter(rows, zero)| ==> |LeadFilter(rows, zero)[k]| == w
  {
    hide LeadFilter, FieldRow;
    FiltersShaped(rows, w, p);
    FieldRowLength(rows, w, p);
    var f, z := LeadFilter(rows, false), LeadFilter(rows, true);
    forall zero: bool, k | 0 <= k < |LeadFilter(rows, zero)|
      ensures |LeadFilter(rows, zero)[k]| == w
    {
      assert LeadFilter(rows, zero)[k] in rows;
    }
    forall i | 0 <= i < |f| + |z|
      ensures |(f + z)[i]| == w && ((f + z)[i][0] == 0 <==> i >= |f|)
    {
      assert (f + z)[i] in rows;
    }
  }

  // The rows in the order of the partition, and what one step makes of them.
  lemma StepIsElimination(rows: Rows, w: nat, p: int) returns (e: Rows)
    requires IsPrime(p) && w >= 1 && Shaped(rows, w, p) && LeadFilter(rows, false) != []
    ensures var order := LeadFilter(rows, false) + LeadFilter(rows, true);
            var pivot := order[0];
            |pivot| >= 1 && 0 < pivot[0] < p && IsEliminated(e, order, PivotInverse(pivot[0], p), p)
            && Tails(e[1..]) == NextRows(rows, w, p)
  {
    hide LeadFilter, EliminateRow, Normalize, PivotInverse, FieldRow;
    FieldRowLength(rows, w, p);
    PartitionLeads(rows, w, p);
    var nlz, lz := LeadFilter(rows, false), LeadFilter(rows, true);
    var order := nlz + lz;
    assert order[0] == nlz[0];
    forall k | 1 <= k < |nlz| ensures nlz[1..][k - 1] == order[k] {}
    var normalized := Normalize(nlz[0], PivotInverse(nlz[0][0], p), p);
    var rest := EliminateAll(nlz[1..], normalized, p) + lz;
    e := [nlz[0]] + rest;
    assert e[1..] == rest;
    assert Tails(rest) == DropColumn(rest);
    forall i | 1 <= i < |order|
      ensures if order[i][0] == 0 then e[i] == order[i] else e[i] == EliminateRow(order[i], normalized, p)
    {
      assert e[i] == rest[i - 1];
    }
  }

  // One step: the determinant is the pivot times the determinant of the remaining rows, times the sign of the step.
  lemma StepDet(rows: Rows, w: nat, p: int)
    requires IsPrime(p) && w >= 1 && Shaped(rows, w, p)
    requires rows != [] && LeadFilter(rows, false) != []
    ensures forall i :: 0 <= i < |rows| ==> |rows[i]| >= 1
    ensures LaplaceDet(rows) % p
         == (Sign(Inversions(rows)) * (LeadFilter(rows, false)[0][0] * LaplaceDet(NextRows(rows, w, p)))) % p
  {
    hide LeadFilter, LaplaceDet, NextRows, IsEliminated, Inversions;
    FieldRowLength(rows, w, p);
    var order := LeadFilter(rows, false) + LeadFilter(rows, true);
    var e := StepIsElimination(rows, w, p);
    DetEliminated(e, order, PivotInverse(order[0][0], p), p);
    DetPartition([], rows);
    assert [] + LeadFilter(rows, false) + LeadFilter(rows, true) == order && [] + rows == rows;
    var s := Sign(Inversions(rows));
    CongMul(s, s, LaplaceDet(order), LeadFilter(rows, false)[0][0] * LaplaceDet(NextRows(rows, w, p)), p);
  }

  // d == pivot * g with g == t * l and x == s * (pivot * l), for signs s and t.
  lemma SignedProduct(pivot: int, g: int, l: int, x: int, s: int, t: int, p: int)
    requires p > 0 && g % p == (t * l) % p && x % p == (s * (pivot * l)) % p && s * s == 1
    ensures (pivot * g) % p == ((s * t) * x) % p
  {
    CongMul(pivot, pivot, g, t * l, p);
    CongMul(s * t, s * t, x, s * (pivot * l), p);
    var y := pivot * l;
    assert (s * t) * (s * y) == (s * s) * (t * y) by { MulRegroup(s, t, s, y); }
    MulRotate(pivot, t, l);
    MulCommutes(l, pivot);
  }

  // The value of the elimination is the determinant times the sign of the row reorderings it went through.
  lemma {:induction false} GaussDetIsSignedDeterminant(rows: Rows, w: nat, p: int)
    requires IsPrime(p) && w == |rows| && Shaped(rows, w, p)
    ensures GaussDet(rows, w, p) == (Sign(TotalInversions(rows, w, p)) * LaplaceDet(rows)) % p
    decreases |rows|
  {
    hide LeadFilter, NextRows, LaplaceDet, Shaped, Inversions, Sign;
    FieldRowLength(rows, w, p);
    SignSum(0, 0);
    if rows == [] {
      DetEmpty();
      SmallMod(1, p);
    } else if LeadFilter(rows, false) == [] {
      ZeroLeads(rows, w, p);
      DetZeroColumn(rows);
      SmallMod(0, p);
    } else {
      var next := NextRows(rows, w, p);
      GaussDetIsSignedDeterminant(next, w - 1, p);
      StepDet(rows, w, p);
      var s, t := Sign(Inversions(rows)), Sign(TotalInversions(next, w - 1, p));
      var g, l := GaussDet(next, w - 1, p), LaplaceDet(next);
      SmallMod(g, p);
      SignSum(Inversions(rows), TotalInversions(next, w - 1, p));
      SignedProduct(LeadFilter(rows, false)[0][0], g, l, LaplaceDet(rows), s, t, p);
    }
  }

  // For an odd prime it is the determinant itself exactly when the number of inversions is even or the matrix is singular.
  lemma WhenSignIsRight(rows: Rows, w: nat, p: int)
    requires IsPrime(p) && p > 2 && w == |rows| && Shaped(rows, w, p)
    ensures GaussDet(rows, w, p) == LaplaceDet(rows) % p <==> TotalInversions(rows, w, p) % 2 == 0 || Singular(rows, w, p)
  {
    hide GaussDet, LaplaceDet, TotalInversions, Shaped, Singular;
    GaussDetZeroIffSingular(rows, w, p);
    GaussDetIsSignedDeterminant(rows, w, p);
    var d, l := GaussDet(rows, w, p), LaplaceDet(rows);
    if TotalInversions(rows, w, p) % 2 == 1 {
      MulNegated(1, l);
      NegationFixed(d, l, p);
    }
  }

  // A matrix on which the sign is lost: its determinant is -1, and the elimination returns 1.
  lemma SignLost(p: int)
    requires IsPrime(p) && p > 2
    ensures LaplaceDet([[0, 1], [1, 0]]) == -1
    ensures GaussDet([[0, 1], [1, 0]], 2, p) == 1
  {
    var rows := [[0, 1], [1, 0]];
    SwappedUnit();
    var next := NextRows(rows, 2, p);
    OneRowInversions(next, p);
    assert rows[1..] == [[1, 0]];
    LastRow([1, 0]);
    assert Inversions(rows) == 1;
    assert LeadFilter(rows, false) == [[1, 0]];
    GaussDetIsSignedDeterminant(rows, 2, p);
    SmallOne(p);
  }

  lemma LastRow(row: seq<int>)
    requires |row| >= 1 && row[0] != 0
    ensures LeadFilter([row], false) == [row] && Inversions([row]) == 0
  {
    var none: Rows := [row][1..];
    assert none == [] && LeadFilter(none, false) == [] && Inversions(none) == 0;
  }

  lemma SwappedUnit()
    ensures LaplaceDet([[0, 1], [1, 0]]) == -1
  {
    var a := [[1, 0], [0, 1]];
    assert SwapRows(a, 0) == [[0, 1], [1, 0]];
    DetSwap(a, 0);
    assert Tails(a[1..]) == [[1]];
    DetLeadingRow(a);
    assert |Tails([[1]][1..])| == 0;
    DetLeadingRow([[1]]);
    DetEmpty();
  }

  lemma NoRowsNoInversions(rows: Rows, w: nat, p: int)
    requires IsPrime(p) && rows == []
    ensures Shaped(rows, w, p) && TotalInversions(rows, w, p) == 0
  {
  }

  lemma OneRowInversions(rows: Rows, p: int)
    requires IsPrime(p) && |rows| == 1 && Shaped(rows, 1, p)
    ensures TotalInversions(rows, 1, p) == 0
  {
    hide LeadFilter, Inversions, NextRows;
    if LeadFilter(rows, false) != [] {
      var next := NextRows(rows, 1, p);
      assert next == [];
      NoRowsNoInversions(next, 0, p);
      OneRow(rows);
    }
  }

  lemma OneRow(rows: Rows)
    requires |rows| == 1 && |rows[0]| >= 1 && LeadFilter(rows, false) != []
    ensures Inversions(rows) == 0
  {
    var row := LeadFilter(rows, false)[0];
    assert rows == [rows[0]] && row == rows[0];
    LastRow(row);
  }

  lemma SmallOne(p: int)
    requires p > 2
    ensures (Sign(1) * -1) % p == 1
  {
    SmallMod(1, p);
  }

  lemma NegationFixed(d: int, l: int, p: int)
    requires IsPrime(p) && p > 2 && d == (-l) % p
    ensures d == l % p <==> d == 0
  {
    SmallMod(0, p);
    ModMod(-l, p);
    CongSub(0, 0, -l, d, p);
    assert p % 2 != 0;
    DivModUnique(-d, if d == 0 then 0 else -1, if d == 0 then 0 else p - d, p);
  }

  lemma DetEmpty()
    ensures LaplaceDet([]) == 1 && Sign(0) == 1
  {
  }

  lemma ZeroLeads(rows: Rows, w: nat, p: int)
    requires w >= 1 && Shaped(rows, w, p) && LeadFilter(rows, false) == []
    ensures forall i :: 0 <= i < |rows| ==> |rows[i]| == w && rows[i][0] == 0 && Lead(rows[i]) == 0
  {
    hide LeadFilter;
    FieldRowLength(rows, w, p);
    FiltersCover(rows);
    forall i | 0 <= i < |rows|
      ensures rows[i][0] == 0
    {
      assert rows[i] in rows;
    }
  }

  // ----- kernel

  function Dot(row: seq<int>, x: seq<int>): int
    requires |row| == |x|
  {
    if row == [] then 0 else row[0] * x[0] + Dot(row[1..], x[1..])
  }

  ghost predicate InKernel(rows: Rows, x: seq<int>, p: int)
    requires p > 0
  {
    forall i :: 0 <= i < |rows| ==> |rows[i]| == |x| && Dot(rows[i], x) % p == 0
  }

  predicate Nonzero(x: seq<int>) {
    exists j :: 0 <= j < |x| && x[j] != 0
  }

  ghost predicate Singular(rows: Rows, w: nat, p: int)
    requires p > 0
  {
    exists x :: FieldRow(x, w, p) && Nonzero(x) && InKernel(rows, x, p)
  }

  lemma {:induction false} DotZero(row: seq<int>, x: seq<int>)
    requires |row| == |x| && !Nonzero(x)
    ensures Dot(row, x) == 0
  {
    if row != [] {
      assert x[0] == 0;
      DotZero(row[1..], x[1..]);
    }
  }

  lemma {:induction false} DotCombination(c: seq<int>, a: seq<int>, t: int, b: seq<int>, x: seq<int>, p: int)
    requires p > 0 && |c| == |a| == |b| == |x|
    requires forall j :: 0 <= j < |c| ==> c[j] % p == (a[j] + t * b[j]) % p
    ensures Dot(c, x) % p == (Dot(a, x) + t * Dot(b, x)) % p
  {
    if c != [] {
      DotCombination(c[1..], a[1..], t, b[1..], x[1..], p);
      var u, v := Dot(a[1..], x[1..]), Dot(b[1..], x[1..]);
      CongMulLeft(c[0], a[0] + t * b[0], x[0], p);
      CongAdd(c[0] * x[0], (a[0] + t * b[0]) * x[0], Dot(c[1..], x[1..]), u + t * v, p);
      CombinationStep(a[0], b[0], t, x[0], u, v);
    }
  }

  lemma CombinationStep(a: int, b: int, t: int, x: int, u: int, v: int)
    ensures (a + t * b) * x + (u + t * v) == (a * x + u) + t * (b * x + v)
  {
    MulAssoc(t, b, x);
    assert (a + t * b) * x == a * x + (t * b) * x;
    assert t * (b * x + v) == t * (b * x) + t * v;
  }

  // For a vector orthogonal to the pivot row, a row and its eliminated tail vanish together.
  lemma EliminatedDot(row: seq<int>, pivotRow: seq<int>, inverse: int, x: seq<int>, p: int)
    requires p > 0 && |row| == |pivotRow| == |x| >= 1 && (pivotRow[0] * inverse) % p == 1
    requires Dot(pivotRow, x) % p == 0
    ensures var e := EliminateRow(row, Normalize(pivotRow, inverse, p), p);
            |e| == |x| && Dot(e[1..], x[1..]) % p == Dot(row, x) % p
  {
    var e := EliminateRow(row, Normalize(pivotRow, inverse, p), p);
    EliminatedLead(row, pivotRow, inverse, p);
    var t := Coefficient(row, inverse);
    forall j | 0 <= j < |e|
      ensures e[j] % p == (row[j] + t * pivotRow[j]) % p
    {
      EliminatedAt(row, pivotRow, inverse, p, j);
    }
    DotCombination(e, row, t, pivotRow, x, p);
    SmallMod(0, p);
    CongMul(t, t, Dot(pivotRow, x), 0, p);
    CongAdd(Dot(row, x), Dot(row, x), t * Dot(pivotRow, x), 0, p);
    assert Dot(e, x) == 0 * x[0] + Dot(e[1..], x[1..]);
  }

  // A vector is in the kernel exactly when it is orthogonal to the pivot row and its tail is in the kernel of the rest.
  lemma StepKernel(rows: Rows, w: nat, p: int, x: seq<int>)
    requires IsPrime(p) && w >= 1 && Shaped(rows, w, p) && LeadFilter(rows, false) != [] && |x| == w
    ensures var pivotRow := LeadFilter(rows, false)[0];
            |pivotRow| == w &&
            (InKernel(rows, x, p) <==> Dot(pivotRow, x) % p == 0 && InKernel(NextRows(rows, w, p), x[1..], p))
  {
    hide LeadFilter, EliminateRow, Normalize, PivotInverse, NextRows;
    FiltersShaped(rows, w, p);
    var e := StepIsElimination(rows, w, p);
    var order := LeadFilter(rows, false) + LeadFilter(rows, true);
    SameKernel(rows, w, p, x);
    EliminatedKernel(order, e, PivotInverse(order[0][0], p), x, p);
  }

  // The kernel does not depend on the order of the rows.
  lemma SameKernel(rows: Rows, w: nat, p: int, x: seq<int>)
    requires p > 0 && w >= 1 && Shaped(rows, w, p) && |x| == w
    ensures InKernel(rows, x, p) <==> InKernel(LeadFilter(rows, false) + LeadFilter(rows, true), x, p)
  {
    hide LeadFilter;
    FieldRowLength(rows, w, p);
    FiltersCover(rows);
    var f, z := LeadFilter(rows, false), LeadFilter(rows, true);
    var order := f + z;
    if InKernel(rows, x, p) {
      forall i | 0 <= i < |order|
        ensures |order[i]| == |x| && Dot(order[i], x) % p == 0
      {
        assert order[i] in rows;
      }
    }
    if InKernel(order, x, p) {
      forall i | 0 <= i < |rows|
        ensures |rows[i]| == |x| && Dot(rows[i], x) % p == 0
      {
        assert rows[i] in rows;
        assert rows[i] in f || rows[i] in z;
        assert rows[i] in order;
      }
    }
  }

  lemma EliminatedKernel(rows: Rows, e: Rows, inverse: int, x: seq<int>, p: int)
    requires p > 0 && IsEliminated(e, rows, inverse, p) && |rows[0]| == |x|
    requires (rows[0][0] * inverse) % p == 1
    ensures InKernel(rows, x, p) <==> Dot(rows[0], x) % p == 0 && InKernel(Tails(e[1..]), x[1..], p)
  {
    hide EliminateRow, Normalize, Dot;
    if Dot(rows[0], x) % p == 0 {
      forall i | 1 <= i < |rows|
        ensures |e[i]| == |x| && Dot(e[i][1..], x[1..]) % p == Dot(rows[i], x) % p
      {
        if rows[i][0] == 0 {
          DotLead(rows[i], x);
        } else {
          EliminatedDot(rows[i], rows[0], inverse, x, p);
        }
      }
      var t := Tails(e[1..]);
      assert forall i :: 1 <= i < |rows| ==> t[i - 1] == e[i][1..];
      if InKernel(t, x[1..], p) {
        forall i | 0 <= i < |rows|
          ensures |rows[i]| == |x| && Dot(rows[i], x) % p == 0
        {
          if i > 0 {
            assert |t[i - 1]| == |x[1..]| && Dot(t[i - 1], x[1..]) % p == 0;
          }
        }
      }
    }
  }

  lemma DotLead(row: seq<int>, x: seq<int>)
    requires |row| == |x| >= 1 && row[0] == 0
    ensures Dot(row, x) == Dot(row[1..], x[1..])
  {
  }

  // Completing a vector so that it is orthogonal to the pivot row.
  function Completed(pivotRow: seq<int>, x: seq<int>, p: int): (y: seq<int>)
    requires IsPrime(p) && |pivotRow| == |x| + 1 && 0 < pivotRow[0] < p
    ensures |y| == |x| + 1 && 0 <= y[0] < p && y[1..] == x
  {
    [(-(PivotInverse(pivotRow[0], p) * Dot(pivotRow[1..], x))) % p] + x
  }

  lemma CompletedOrthogonal(pivotRow: seq<int>, x: seq<int>, p: int)
    requires IsPrime(p) && |pivotRow| == |x| + 1 && 0 < pivotRow[0] < p
    ensures Dot(pivotRow, Completed(pivotRow, x, p)) % p == 0
  {
    hide PivotInverse;
    var a, i, d := pivotRow[0], PivotInverse(pivotRow[0], p), Dot(pivotRow[1..], x);
    var y := Completed(pivotRow, x, p);
    assert Dot(pivotRow, y) == a * ((-(i * d)) % p) + d;
    ModNoop(a, -(i * d), p);
    MulNegated(a, i * d);
    MulAssoc(a, i, d);
    SmallMod(1, p);
    CongMulLeft(a * i, 1, d, p);
    CongSub(0, 0, (a * i) * d, 1 * d, p);
    CongAdd(a * ((-(i * d)) % p), -d, d, d, p);
    SmallMod(0, p);
  }

  lemma SingularFromNext(rows: Rows, w: nat, p: int)
    requires IsPrime(p) && w >= 1 && Shaped(rows, w, p) && LeadFilter(rows, false) != []
    requires Singular(NextRows(rows, w, p), w - 1, p)
    ensures Singular(rows, w, p)
  {
    hide LeadFilter, NextRows, InKernel, Dot;
    FiltersShaped(rows, w, p);
    var pivotRow := LeadFilter(rows, false)[0];
    var x :| FieldRow(x, w - 1, p) && Nonzero(x) && InKernel(NextRows(rows, w, p), x, p);
    var y := Completed(pivotRow, x, p);
    CompletedOrthogonal(pivotRow, x, p);
    StepKernel(rows, w, p, y);
    assert Nonzero(y) by {
      var j :| 0 <= j < |x| && x[j] != 0;
      assert y[j + 1] == y[1..][j];
    }
    assert FieldRow(y, w, p) by {
      forall j | 0 <= j < w ensures 0 <= y[j] < p {
        if j > 0 { assert y[j] == y[1..][j - 1]; }
      }
    }
  }

  // A nonzero vector orthogonal to the pivot row is not zero after its first entry.
  lemma TailNonzero(pivotRow: seq<int>, x: seq<int>, p: int)
    requires IsPrime(p) && |pivotRow| == |x| >= 1 && 0 < pivotRow[0] < p && 0 <= x[0] < p
    requires Nonzero(x) && Dot(pivotRow, x) % p == 0
    ensures Nonzero(x[1..])
  {
    var j :| 0 <= j < |x| && x[j] != 0;
    if j > 0 {
      assert x[1..][j - 1] != 0;
    } else if !Nonzero(x[1..]) {
      DotZero(pivotRow[1..], x[1..]);
      PivotTimes(pivotRow[0], x[0], p);
    }
  }

  lemma NextFromSingular(rows: Rows, w: nat, p: int)
    requires IsPrime(p) && w >= 1 && Shaped(rows, w, p) && LeadFilter(rows, false) != []
    requires Singular(rows, w, p)
    ensures Singular(NextRows(rows, w, p), w - 1, p)
  {
    hide LeadFilter, NextRows, InKernel;
    FiltersShaped(rows, w, p);
    var pivotRow := LeadFilter(rows, false)[0];
    var x :| FieldRow(x, w, p) && Nonzero(x) && InKernel(rows, x, p);
    StepKernel(rows, w, p, x);
    TailNonzero(pivotRow, x, p);
    assert FieldRow(x[1..], w - 1, p);
  }

  // The elimination returns zero exactly when some nonzero vector lies in the kernel.
  lemma {:induction false} GaussDetZeroIffSingular(rows: Rows, w: nat, p: int)
    requires IsPrime(p) && w == |rows| && Shaped(rows, w, p)
    ensures GaussDet(rows, w, p) == 0 <==> Singular(rows, w, p)
    decreases |rows|
  {
    hide LeadFilter, NextRows, InKernel, Singular, Shaped;
    FieldRowLength(rows, w, p);
    if rows == [] {
      NoEmptyWitness(p);
    } else if LeadFilter(rows, false) == [] {
      UnitInKernel(rows, w, p);
    } else {
      var next := NextRows(rows, w, p);
      GaussDetZeroIffSingular(next, w - 1, p);
      if Singular(next, w - 1, p) {
        SingularFromNext(rows, w, p);
      }
      if Singular(rows, w, p) {
        NextFromSingular(rows, w, p);
      }
      FiltersShaped(rows, w, p);
      PivotTimes(LeadFilter(rows, false)[0][0], GaussDet(next, w - 1, p), p);
    }
  }

  lemma PivotTimes(pivot: int, g: int, p: int)
    requires IsPrime(p) && 0 < pivot < p && 0 <= g < p
    ensures (pivot * g) % p == 0 <==> g == 0
  {
    SmallMod(pivot, p);
    SmallMod(g, p);
    SmallMod(0, p);
    if (pivot * g) % p == 0 {
      EuclidLemma(pivot, g, p);
    }
  }

  lemma NoEmptyWitness(p: int)
    requires p > 0
    ensures !Singular([], 0, p)
  {
  }

  lemma UnitInKernel(rows: Rows, w: nat, p: int)
    requires IsPrime(p) && w >= 1 && Shaped(rows, w, p) && LeadFilter(rows, false) == []
    ensures Singular(rows, w, p)
  {
    hide LeadFilter;
    var x := [1] + seq(w - 1, _ => 0);
    ZeroLeads(rows, w, p);
    SmallMod(0, p);
    forall i | 0 <= i < |rows|
      ensures |rows[i]| == |x| && Dot(rows[i], x) % p == 0
    {
      assert x[1..] == seq(w - 1, _ => 0);
      DotZero(rows[i][1..], x[1..]);
    }
    assert x[0] != 0;
    assert FieldRow(x, w, p) && Nonzero(x) && InKernel(rows, x, p);
  }
}
