// The round constants of a Rescue instance, from the field elements that were sampled for them.

module RescueConstants {
  import opened ModArith
  import opened Sums
  import opened Matrices
  import opened Determinant
  import opened DeterminantTheorems
  import opened MaximumDistance
  import opened RescueDescription

  // What the permutation and its inversion need of the constants.
  predicate AreConstants(constants: seq<Rows>, m: nat, nRounds: nat, p: int) {
    && |constants| == 2 * nRounds + 1
    && forall r :: 0 <= r < |constants| ==> IsMatrix(constants[r], m, 1, p)
  }

  // ----- cipher: an affine recurrence

  function Affine(mat: Rows, c: Rows, affine: Rows, p: int): Rows
    requires p > 0
  {
    AddRows(MulRows(mat, c, p), affine, p)
  }

  // The constant of round r.
  function CipherConstant(mat: Rows, initial: Rows, affine: Rows, p: int, r: nat): Rows
    requires p > 0
  {
    if r == 0 then initial else Affine(mat, CipherConstant(mat, initial, affine, p, r - 1), affine, p)
  }

  lemma FirstConstant(mat: Rows, initial: Rows, affine: Rows, p: int)
    requires p > 0
    ensures CipherConstant(mat, initial, affine, p, 0) == initial
  {
  }

  lemma NextConstant(mat: Rows, initial: Rows, affine: Rows, p: int, r: nat)
    requires p > 0
    ensures CipherConstant(mat, initial, affine, p, r + 1) == Affine(mat, CipherConstant(mat, initial, affine, p, r), affine, p)
  {
    hide Affine;
  }

  // One entry: row i of the matrix times the constant before, plus the affine term.
  lemma NextConstantEntry(mat: Rows, initial: Rows, affine: Rows, m: nat, p: int, r: nat, i: nat)
    requires p > 0 && m >= 1 && IsMatrix(mat, m, m, p) && IsMatrix(initial, m, 1, p) && IsMatrix(affine, m, 1, p) && i < m
    ensures CipherConstant(mat, initial, affine, p, 0) == initial
    ensures At(CipherConstant(mat, initial, affine, p, r + 1), i, 0)
            == (Sum(t => At(mat, i, t) * At(CipherConstant(mat, initial, affine, p, r), t, 0), m) + At(affine, i, 0)) % p
  {
    hide CipherConstant;
    FirstConstant(mat, initial, affine, p);
    NextConstant(mat, initial, affine, p, r);
    ConstantShape(mat, initial, affine, m, p, r);
    var c := CipherConstant(mat, initial, affine, p, r);
    SumEqual(t => At(mat, i, t) * At(c, t, 0), t => At(mat, i, t) * At(CipherConstant(mat, initial, affine, p, r), t, 0), m);
    ModNoop(Entry(mat, c, m, i, 0), At(affine, i, 0), p);
    AffineEntry(mat, c, affine, m, p, i);
  }

  lemma AffineEntry(mat: Rows, c: Rows, affine: Rows, m: nat, p: int, i: nat)
    requires p > 0 && m >= 1 && HasShape(mat, m, m) && HasShape(c, m, 1) && i < m
    ensures At(Affine(mat, c, affine, p), i, 0) == (Entry(mat, c, m, i, 0) % p + At(affine, i, 0)) % p
  {
    hide Entry;
    assert NumCols(mat) == m && NumCols(c) == 1;
    assert MulRows(mat, c, p)[i][0] == Entry(mat, c, m, i, 0) % p;
  }

  lemma {:induction false} ConstantShape(mat: Rows, initial: Rows, affine: Rows, m: nat, p: int, r: nat)
    requires p > 0 && m >= 1 && IsMatrix(mat, m, m, p) && IsMatrix(initial, m, 1, p)
    ensures IsMatrix(CipherConstant(mat, initial, affine, p, r), m, 1, p)
  {
    hide MulRows, AddRows;
    if r > 0 { ConstantShape(mat, initial, affine, m, p, r - 1); }
  }

  method SampleCipherConstants(mat: Rows, initial: Rows, affine: Rows, m: nat, nRounds: nat, p: int, binSize: nat)
    returns (constants: seq<Rows>)
    requires m >= 1 && WideEnough(p, binSize) && p > 0
    requires IsMatrix(mat, m, m, p) && IsMatrix(initial, m, 1, p) && IsMatrix(affine, m, 1, p)
    ensures AreConstants(constants, m, nRounds, p)
    ensures forall r :: 0 <= r < |constants| ==> constants[r] == CipherConstant(mat, initial, affine, p, r)
  {
    hide MulRows, AddRows, CipherConstant;
    FirstConstant(mat, initial, affine, p);
    constants := [initial];
    for r := 0 to 2 * nRounds
      invariant |constants| == r + 1
      invariant forall k :: 0 <= k <= r ==> IsMatrix(constants[k], m, 1, p)
      invariant forall k :: 0 <= k <= r ==> constants[k] == CipherConstant(mat, initial, affine, p, k)
    {
      NextConstant(mat, initial, affine, p, r);
      var product := MatMul(mat, constants[r], p);
      var sum := Add(product.value, affine, false, p, binSize);
      constants := constants + [sum.value];
    }
  }

  // ----- why a singular matrix is sampled again

  // Over a matrix that is not singular one affine step loses nothing.
  lemma AffineInjective(mat: Rows, a: Rows, b: Rows, affine: Rows, m: nat, p: int)
    requires p > 0 && m >= 1 && IsMatrix(mat, m, m, p) && IsMatrix(affine, m, 1, p)
    requires IsMatrix(a, m, 1, p) && IsMatrix(b, m, 1, p) && !Singular(mat, m, p)
    ensures Affine(mat, a, affine, p) == Affine(mat, b, affine, p) ==> a == b
  {
    hide MulRows, Singular, AddRows, SubRows, Difference, InKernel, Nonzero;
    if Affine(mat, a, affine, p) == Affine(mat, b, affine, p) {
      AddSubCancel(MulRows(mat, a, p), affine, m, 1, p);
      AddSubCancel(MulRows(mat, b, p), affine, m, 1, p);
      DifferenceInKernel(mat, a, b, m, p);
      KernelTrivial(mat, Difference(a, b, m, p), m, p);
      ZeroDifference(a, b, m, p);
    }
  }

  lemma ZeroDifference(a: Rows, b: Rows, m: nat, p: int)
    requires p > 0 && m >= 1 && IsMatrix(a, m, 1, p) && IsMatrix(b, m, 1, p) && !Nonzero(Difference(a, b, m, p))
    ensures a == b
  {
    hide Difference;
    forall i, j | 0 <= i < m && 0 <= j < 1
      ensures At(a, i, j) == At(b, i, j)
    {
      assert Difference(a, b, m, p)[i] == 0;
      CongFromDiff(a[i][0], b[i][0], p);
      SmallMod(a[i][0], p);
      SmallMod(b[i][0], p);
    }
    MatrixEqual(a, b, m, 1);
  }

  function Difference(a: Rows, b: Rows, m: nat, p: int): (x: seq<int>)
    requires p > 0 && HasShape(a, m, 1) && HasShape(b, m, 1)
    ensures FieldRow(x, m, p)
    ensures forall i :: 0 <= i < m ==> x[i] == (a[i][0] - b[i][0]) % p
  {
    seq(m, i requires 0 <= i < m => (a[i][0] - b[i][0]) % p)
  }

  lemma KernelTrivial(mat: Rows, x: seq<int>, m: nat, p: int)
    requires p > 0 && !Singular(mat, m, p) && FieldRow(x, m, p) && InKernel(mat, x, p)
    ensures !Nonzero(x)
  {
  }

  lemma DifferenceInKernel(mat: Rows, a: Rows, b: Rows, m: nat, p: int)
    requires p > 0 && m >= 1 && IsMatrix(mat, m, m, p) && IsMatrix(a, m, 1, p) && IsMatrix(b, m, 1, p)
    requires MulRows(mat, a, p) == MulRows(mat, b, p)
    ensures InKernel(mat, Difference(a, b, m, p), p)
  {
    hide Difference;
    var x := Difference(a, b, m, p);
    forall i | 0 <= i < m
      ensures Dot(mat[i], x) % p == 0
    {
      assert MulRows(mat, a, p)[i][0] == MulRows(mat, b, p)[i][0];
      RowDifference(mat, a, b, m, p, i);
    }
  }

  lemma TermDifference(c: int, a: int, b: int, x: int, p: int)
    requires p > 0 && x == (a - b) % p
    ensures (c * x) % p == (c * a + -1 * (c * b)) % p
  {
    ModMod(a - b, p);
    CongMul(c, c, x, a - b, p);
    MulDifference(c, a, b);
  }

  lemma SumDifference(h: int -> int, f: int -> int, g: int -> int, m: nat, p: int)
    requires p > 0 && forall t :: 0 <= t < m ==> h(t) % p == (f(t) + -1 * g(t)) % p
    ensures Sum(h, m) % p == (Sum(f, m) - Sum(g, m)) % p
  {
    var n := (t: int) => -1 * g(t);
    var fn := (t: int) => f(t) + n(t);
    SumScale(-1, g, m);
    SumEqual(n, t => -1 * g(t), m);
    SumAdd(f, n, m);
    SumEqual(fn, t => f(t) + n(t), m);
    SumCong(h, fn, m, p);
  }

  // One row of the matrix against the difference.
  lemma RowDifference(mat: Rows, a: Rows, b: Rows, m: nat, p: int, i: nat)
    requires p > 0 && m >= 1 && IsMatrix(mat, m, m, p) && IsMatrix(a, m, 1, p) && IsMatrix(b, m, 1, p) && i < m
    requires Entry(mat, a, m, i, 0) % p == Entry(mat, b, m, i, 0) % p
    ensures Dot(mat[i], Difference(a, b, m, p)) % p == 0
  {
    hide Difference, Dot, Sum;
    var x := Difference(a, b, m, p);
    var f := (t: int) => At(mat, i, t) * At(a, t, 0);
    var g := (t: int) => At(mat, i, t) * At(b, t, 0);
    var h := (t: int) => if 0 <= t < m then mat[i][t] * x[t] else 0;
    SumEqual(f, t => At(mat, i, t) * At(a, t, 0), m);
    SumEqual(g, t => At(mat, i, t) * At(b, t, 0), m);
    DotIsSum(mat[i], x, h);
    forall t | 0 <= t < m
      ensures h(t) % p == (f(t) + -1 * g(t)) % p
    {
      TermDifference(mat[i][t], a[t][0], b[t][0], x[t], p);
    }
    SumDifference(h, f, g, m, p);
    CongFromDiff(Sum(f, m), Sum(g, m), p);
  }

  lemma MulDifference(c: int, a: int, b: int)
    ensures c * (a - b) == c * a + -1 * (c * b)
  {
  }

  // So the constants of every round determine the initial ones.
  lemma {:induction false} ConstantsInjective(mat: Rows, a: Rows, b: Rows, affine: Rows, m: nat, p: int, r: nat)
    requires p > 0 && m >= 1 && IsMatrix(mat, m, m, p) && IsMatrix(affine, m, 1, p)
    requires IsMatrix(a, m, 1, p) && IsMatrix(b, m, 1, p) && !Singular(mat, m, p)
    ensures IsMatrix(CipherConstant(mat, a, affine, p, r), m, 1, p) && IsMatrix(CipherConstant(mat, b, affine, p, r), m, 1, p)
    ensures CipherConstant(mat, a, affine, p, r) == CipherConstant(mat, b, affine, p, r) ==> a == b
  {
    hide MulRows, AddRows, Singular;
    if r > 0 {
      ConstantsInjective(mat, a, b, affine, m, p, r - 1);
      AffineInjective(mat, CipherConstant(mat, a, affine, p, r - 1), CipherConstant(mat, b, affine, p, r - 1), affine, m, p);
    }
  }

  // ----- hash: a zero column, then the sampled elements in order

  lemma RoundInside(m: nat, n: nat, r: nat)
    requires r < n
    ensures 0 <= r * m && r * m + m <= n * m
  {
    MulNonneg(r, m);
    MulNonneg(n - 1 - r, m);
    assert (n - 1 - r) * m == n * m - m - r * m;
  }

  // The elements of round r.
  function RoundElements(elements: seq<int>, m: nat, n: nat, r: nat): (slice: seq<int>)
    requires |elements| == n * m && r < n
    ensures |slice| == m
  {
    RoundInside(m, n, r);
    elements[r * m..r * m + m]
  }

  // Entry i of its constant is element r * m + i, reduced.
  lemma HashConstantEntry(elements: seq<int>, m: nat, n: nat, r: nat, i: nat, p: int)
    requires p > 0 && |elements| == n * m && r < n && i < m
    ensures 0 <= r * m + i < |elements|
    ensures |Vector(RoundElements(elements, m, n, r), p)| == m
    ensures At(Vector(RoundElements(elements, m, n, r), p), i, 0) == elements[r * m + i] % p
  {
    hide Vector;
    RoundInside(m, n, r);
    var slice := RoundElements(elements, m, n, r);
    VectorShape(slice, p);
    assert At(Vector(slice, p), i, 0) == Vector(slice, p)[i][0];
  }

  method SampleHashConstants(elements: seq<int>, m: nat, nRounds: nat, p: int) returns (constants: seq<Rows>)
    requires p > 0 && m >= 1 && |elements| == 2 * nRounds * m
    ensures AreConstants(constants, m, nRounds, p)
    ensures forall i :: 0 <= i < m ==> constants[0][i][0] == 0
    ensures forall r :: 0 <= r < 2 * nRounds ==> constants[r + 1] == Vector(RoundElements(elements, m, 2 * nRounds, r), p)
  {
    hide Vector;
    var zeros: Rows := [];
    for i := 0 to m
      invariant zeros == seq(i, _ => [0])
    {
      zeros := zeros + [[0]];
    }
    var first := NewMatrix(zeros, p);
    SmallMod(0, p);
    constants := [first.value];
    for r := 0 to 2 * nRounds
      invariant |constants| == r + 1
      invariant constants[0] == first.value
      invariant forall k :: 0 <= k <= r ==> IsMatrix(constants[k], m, 1, p)
      invariant forall k :: 0 <= k < r ==> constants[k + 1] == Vector(RoundElements(elements, m, 2 * nRounds, k), p)
    {
      var column := HashConstant(elements, m, 2 * nRounds, r, p);
      constants := constants + [column];
    }
  }

  method HashConstant(elements: seq<int>, m: nat, n: nat, r: nat, p: int) returns (column: Rows)
    requires p > 0 && m >= 1 && |elements| == n * m && r < n
    ensures column == Vector(RoundElements(elements, m, n, r), p) && IsMatrix(column, m, 1, p)
  {
    hide Vector;
    ghost var slice := RoundElements(elements, m, n, r);
    RoundInside(m, n, r);
    var data: Rows := [];
    for i := 0 to m
      invariant data == Column(slice)[..i]
    {
      data := data + [[elements[r * m + i]]];
    }
    assert data == Column(slice);
    VectorShape(slice, p);
    var res := NewMatrix(data, p);
    column := res.value;
    assert column == Vector(slice, p) by { VectorIsCreated(slice, p); }
  }

  lemma VectorIsCreated(data: seq<int>, p: int)
    requires p > 0
    ensures Vector(data, p) == Create(Column(data), p)
  {
  }
}
