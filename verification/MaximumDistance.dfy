// Why the Cauchy matrix may be called Maximum Distance Separable: no square submatrix of it is singular.

module MaximumDistance {
  import opened ModArith
  import opened PrimeField
  import opened Sums
  import opened Matrices
  import opened Interpolation
  import opened Cauchy
  import opened Determinant
  import opened DeterminantTheorems

  // ----- partial fractions
  //
  // A combination of the fractions 1 / (t - z), z in zs, with coefficients x, has the numerator below. It is a sum of
  // products of |zs| - 1 factors, so it cannot vanish at |zs| points without vanishing everywhere.

  function Rest(zs: seq<int>, b: int): seq<int> {
    if 0 <= b < |zs| then Without(zs, b) else []
  }

  function NumeratorTerm(x: seq<int>, zs: seq<int>, t: int, b: int): int {
    Node(x, b) * Factors(Rest(zs, b), t)
  }

  function Numerator(x: seq<int>, zs: seq<int>, t: int): int {
    Sum(b => NumeratorTerm(x, zs, t, b), |zs|)
  }

  ghost function Fraction(x: seq<int>, zs: seq<int>, t: int, p: int, b: int): int {
    FieldInverse(t - Node(zs, b), p) * Node(x, b)
  }

  ghost function Combination(x: seq<int>, zs: seq<int>, t: int, p: int): int {
    Sum(b => Fraction(x, zs, t, p, b), |zs|)
  }

  // The numerator is the common denominator times the combination.
  lemma CommonDenominator(x: seq<int>, zs: seq<int>, t: int, p: int)
    requires IsPrime(p) && forall b :: 0 <= b < |zs| ==> (t - zs[b]) % p != 0
    ensures Numerator(x, zs, t) % p == (Factors(zs, t) * Combination(x, zs, t, p)) % p
  {
    hide FieldInverse, Factors, Without;
    var all := Factors(zs, t);
    var f := (b: int) => Fraction(x, zs, t, p, b);
    var g := (b: int) => all * f(b);
    SumScale(all, f, |zs|);
    SumEqual(g, b => all * f(b), |zs|);
    SumEqual(f, b => Fraction(x, zs, t, p, b), |zs|);
    forall b | 0 <= b < |zs|
      ensures NumeratorTerm(x, zs, t, b) % p == g(b) % p
    {
      OneFraction(x, zs, t, p, b);
    }
    SumCong(b => NumeratorTerm(x, zs, t, b), g, |zs|, p);
  }

  lemma OneFraction(x: seq<int>, zs: seq<int>, t: int, p: int, b: nat)
    requires IsPrime(p) && b < |zs| && (t - zs[b]) % p != 0
    ensures NumeratorTerm(x, zs, t, b) % p == (Factors(zs, t) * Fraction(x, zs, t, p, b)) % p
  {
    hide FieldInverse, Factors, Without;
    FactorsSplit(zs, t, b);
    FactorsWithout(zs, t, b);
    CancelFraction(t - zs[b], Others(zs, t, b), FieldInverse(t - zs[b], p), Node(x, b), p);
  }

  lemma CancelFraction(d: int, o: int, h: int, x: int, p: int)
    requires p > 0 && (d * h) % p == 1
    ensures (x * o) % p == ((d * o) * (h * x)) % p
  {
    SmallOne(d * h, p);
    CongMul(d * h, 1, o * x, o * x, p);
    MulRegroup(d, o, h, x);
    MulCommutes(x, o);
  }

  lemma SmallOne(a: int, p: int)
    requires p > 0 && a % p == 1
    ensures 1 % p == 1
  {
    ModMod(a, p);
  }

  // ----- a numerator that vanishes at as many points as it has terms

  // The weighted sum of the numerator over the nodes is a combination of divided differences.
  lemma WeightedNumerators(x: seq<int>, zs: seq<int>, xs: seq<int>, p: int)
    ensures Sum(j => NodeWeight(xs, j, p) * Numerator(x, zs, Node(xs, j)), |xs|)
            == Sum(b => Node(x, b) * DividedDifference(xs, Rest(zs, b), p), |zs|)
  {
    hide FieldInverse, Factors, Without, Others, Node;
    var f := (j: int, b: int) => NodeWeight(xs, j, p) * NumeratorTerm(x, zs, Node(xs, j), b);
    SumExchange(f, |xs|, |zs|);
    forall j
      ensures RowSum(f, j, |zs|) == NodeWeight(xs, j, p) * Numerator(x, zs, Node(xs, j))
    {
      var g := (b: int) => NumeratorTerm(x, zs, Node(xs, j), b);
      SumScale(NodeWeight(xs, j, p), g, |zs|);
      SumEqual(b => f(j, b), b => NodeWeight(xs, j, p) * g(b), |zs|);
      SumEqual(g, b => NumeratorTerm(x, zs, Node(xs, j), b), |zs|);
    }
    SumEqual(j => RowSum(f, j, |zs|), j => NodeWeight(xs, j, p) * Numerator(x, zs, Node(xs, j)), |xs|);
    forall b
      ensures ColumnSum(f, b, |xs|) == Node(x, b) * DividedDifference(xs, Rest(zs, b), p)
    {
      ColumnIsDifference(x, zs, xs, p, b, f);
    }
    SumEqual(b => ColumnSum(f, b, |xs|), b => Node(x, b) * DividedDifference(xs, Rest(zs, b), p), |zs|);
  }

  lemma ColumnIsDifference(x: seq<int>, zs: seq<int>, xs: seq<int>, p: int, b: int, f: (int, int) -> int)
    requires forall j :: f(j, b) == NodeWeight(xs, j, p) * NumeratorTerm(x, zs, Node(xs, j), b)
    ensures ColumnSum(f, b, |xs|) == Node(x, b) * DividedDifference(xs, Rest(zs, b), p)
  {
    hide FieldInverse, Factors, Without, Others, Node;
    var term := (j: int) => Term(xs, Rest(zs, b), p, j);
    SumScale(Node(x, b), term, |xs|);
    SumEqual(term, j => Term(xs, Rest(zs, b), p, j), |xs|);
    forall j
      ensures f(j, b) == Node(x, b) * term(j)
    {
      MulRotate(NodeWeight(xs, j, p), Node(x, b), Factors(Rest(zs, b), Node(xs, j)));
    }
    SumEqual(j => f(j, b), j => Node(x, b) * term(j), |xs|);
  }

  lemma DifferencesVanish(x: seq<int>, zs: seq<int>, xs: seq<int>, p: int)
    requires IsPrime(p) && Distinct(xs, p) && |xs| == |zs| + 1
    ensures Sum(b => Node(x, b) * DividedDifference(xs, Rest(zs, b), p), |zs|) % p == 0
  {
    hide DividedDifference, Distinct;
    forall b | 0 <= b < |zs|
      ensures (Node(x, b) * DividedDifference(xs, Rest(zs, b), p)) % p == 0 % p
    {
      LowDegreeVanishes(xs, Rest(zs, b), p);
      SmallMod(0, p);
      CongMul(Node(x, b), Node(x, b), DividedDifference(xs, Rest(zs, b), p), 0, p);
    }
    SumCong(b => Node(x, b) * DividedDifference(xs, Rest(zs, b), p), b => 0, |zs|, p);
    SumZero(b => 0, |zs|);
    SmallMod(0, p);
  }

  // If the numerator vanishes at all nodes but the first, its weighted sum is the term of the first node.
  lemma FirstNodeRemains(x: seq<int>, zs: seq<int>, xs: seq<int>, p: int)
    requires p > 0 && xs != []
    requires forall j :: 1 <= j < |xs| ==> Numerator(x, zs, xs[j]) % p == 0
    ensures Sum(j => NodeWeight(xs, j, p) * Numerator(x, zs, Node(xs, j)), |xs|) % p
            == (NodeWeight(xs, 0, p) * Numerator(x, zs, xs[0])) % p
  {
    hide FieldInverse, Numerator, NodeWeight;
    var f := (j: int) => NodeWeight(xs, j, p) * Numerator(x, zs, Node(xs, j));
    SumEqual(f, j => NodeWeight(xs, j, p) * Numerator(x, zs, Node(xs, j)), |xs|);
    SmallMod(0, p);
    var g := (i: int) => f(i + 1);
    forall j | 0 <= j < |xs| - 1
      ensures g(j) % p == 0 % p
    {
      CongMul(NodeWeight(xs, j + 1, p), NodeWeight(xs, j + 1, p), Numerator(x, zs, xs[j + 1]), 0, p);
    }
    SumFirst(f, |xs|);
    SumEqual(g, i => f(i + 1), |xs| - 1);
    SumCong(g, j => 0, |xs| - 1, p);
    SumZero(j => 0, |xs| - 1);
    CongAdd(f(0), f(0), Sum(g, |xs| - 1), 0, p);
  }

  // A numerator of |zs| terms that vanishes at |zs| distinct points vanishes at every further point.
  lemma NumeratorVanishes(x: seq<int>, zs: seq<int>, rs: seq<int>, t: int, p: int)
    requires IsPrime(p) && |rs| == |zs| && Distinct([t] + rs, p)
    requires forall a :: 0 <= a < |rs| ==> Numerator(x, zs, rs[a]) % p == 0
    ensures Numerator(x, zs, t) % p == 0
  {
    hide FieldInverse, Numerator, DividedDifference, Others, Sum;
    var xs := [t] + rs;
    WeightedNumerators(x, zs, xs, p);
    DifferencesVanish(x, zs, xs, p);
    FirstNodeRemains(x, zs, xs, p);
    WeightNonzero(xs, 0, p);
    CancelWeight(Others(xs, t, 0), NodeWeight(xs, 0, p), Numerator(x, zs, t), p);
  }

  lemma CancelWeight(o: int, w: int, n: int, p: int)
    requires IsPrime(p) && (o * w) % p == 1 && (w * n) % p == 0
    ensures n % p == 0
  {
    SmallMod(0, p);
    EuclidLemma(w, n, p);
    if w % p == 0 {
      CongMul(o, o, w, 0, p);
    }
  }

  // At one of the zs all terms but one vanish.
  lemma NumeratorAtPole(x: seq<int>, zs: seq<int>, l: nat, p: int)
    requires IsPrime(p) && l < |zs| && Distinct(zs, p)
    requires Numerator(x, zs, zs[l]) % p == 0
    ensures Node(x, l) % p == 0
  {
    hide NumeratorTerm, Others, Distinct;
    var f := (b: int) => NumeratorTerm(x, zs, zs[l], b);
    SumEqual(f, b => NumeratorTerm(x, zs, zs[l], b), |zs|);
    forall b | 0 <= b < |zs|
      ensures f(b) == Node(x, b) * Others(zs, zs[l], b)
      ensures b != l ==> f(b) == 0
    {
      TermAtPole(x, zs, l, b);
    }
    SumSingle(f, |zs|, l);
    OthersAtPole(zs, l, p);
    EuclidLemma(Node(x, l), Others(zs, zs[l], l), p);
  }

  lemma TermAtPole(x: seq<int>, zs: seq<int>, l: nat, b: nat)
    requires l < |zs| && b < |zs|
    ensures NumeratorTerm(x, zs, zs[l], b) == Node(x, b) * Others(zs, zs[l], b)
    ensures b != l ==> NumeratorTerm(x, zs, zs[l], b) == 0
  {
    hide Factors, Without, Others;
    FactorsWithout(zs, zs[l], b);
    if b != l { OthersVanish(zs, zs[l], b, l); }
  }

  lemma OthersAtPole(zs: seq<int>, l: nat, p: int)
    requires IsPrime(p) && l < |zs| && Distinct(zs, p)
    ensures Others(zs, zs[l], l) % p != 0
  {
    hide Others;
    OthersNonzero(zs, zs[l], l, p);
  }

  // Fractions with distinct poles are independent at any equally many distinct points.
  lemma FractionsIndependent(x: seq<int>, zs: seq<int>, rs: seq<int>, p: int, l: nat)
    requires IsPrime(p) && |rs| == |zs| && Distinct(zs, p) && Distinct(rs, p) && l < |zs|
    requires forall a, b :: 0 <= a < |rs| && 0 <= b < |zs| ==> (rs[a] - zs[b]) % p != 0
    requires forall a :: 0 <= a < |rs| ==> Combination(x, zs, rs[a], p) % p == 0
    ensures Node(x, l) % p == 0
  {
    hide Numerator, Combination, Factors;
    forall a | 0 <= a < |rs|
      ensures Numerator(x, zs, rs[a]) % p == 0
    {
      CommonDenominator(x, zs, rs[a], p);
      SmallMod(0, p);
      CongMul(Factors(zs, rs[a]), Factors(zs, rs[a]), Combination(x, zs, rs[a], p), 0, p);
    }
    DistinctFromPole(zs, rs, l, p);
    NumeratorVanishes(x, zs, rs, zs[l], p);
    NumeratorAtPole(x, zs, l, p);
  }

  lemma DistinctFromPole(zs: seq<int>, rs: seq<int>, l: nat, p: int)
    requires p > 0 && Distinct(rs, p) && l < |zs|
    requires forall a, b :: 0 <= a < |rs| && 0 <= b < |zs| ==> (rs[a] - zs[b]) % p != 0
    ensures Distinct([zs[l]] + rs, p)
  {
    forall a | 0 <= a < |rs|
      ensures (zs[l] - rs[a]) % p != 0
    {
      DifferenceNonzero(rs[a], zs[l], p);
    }
  }

  // ----- submatrices

  // A choice of rows or columns: indices below m, none twice.
  predicate Choice(indices: seq<int>, m: nat) {
    && (forall k :: 0 <= k < |indices| ==> 0 <= indices[k] < m)
    && forall k, l :: 0 <= k < l < |indices| ==> indices[k] != indices[l]
  }

  function Submatrix(c: Rows, rows: seq<int>, columns: seq<int>): (s: Rows)
    ensures HasShape(s, |rows|, |columns|)
    ensures forall a, b :: 0 <= a < |rows| && 0 <= b < |columns| ==> s[a][b] == At(c, rows[a], columns[b])
  {
    seq(|rows|, a requires 0 <= a < |rows| => seq(|columns|, b requires 0 <= b < |columns| => At(c, rows[a], columns[b])))
  }

  // The points i + 1 of the chosen rows and the poles -(j + 1) of the chosen columns.
  function Points(rows: seq<int>): seq<int> {
    seq(|rows|, a requires 0 <= a < |rows| => rows[a] + 1)
  }

  function Poles(columns: seq<int>): seq<int> {
    seq(|columns|, b requires 0 <= b < |columns| => -(columns[b] + 1))
  }

  lemma {:induction false} DotIsSum(row: seq<int>, x: seq<int>, f: int -> int)
    requires |row| == |x| && forall j :: 0 <= j < |row| ==> f(j) == row[j] * x[j]
    ensures Dot(row, x) == Sum(f, |row|)
  {
    if row != [] {
      SumFirst(f, |row|);
      DotIsSum(row[1..], x[1..], i => f(i + 1));
    }
  }

  // A vector in the kernel of a submatrix makes the combination vanish at every chosen point.
  lemma KernelCombination(m: nat, p: int, rows: seq<int>, columns: seq<int>, x: seq<int>, a: nat)
    requires IsPrime(p) && Choice(rows, m) && Choice(columns, m) && |x| == |columns| && a < |rows|
    requires InKernel(Submatrix(CauchyRows(m, p), rows, columns), x, p)
    ensures Combination(x, Poles(columns), Points(rows)[a], p) % p == 0
  {
    hide FieldInverse, CauchyRows;
    var s := Submatrix(CauchyRows(m, p), rows, columns);
    var f := (b: int) => Fraction(x, Poles(columns), Points(rows)[a], p, b);
    SumEqual(f, b => Fraction(x, Poles(columns), Points(rows)[a], p, b), |columns|);
    forall b | 0 <= b < |columns|
      ensures f(b) == s[a][b] * x[b]
    {
      assert s[a][b] == CauchyRows(m, p)[rows[a]][columns[b]] == FieldInverse(rows[a] + columns[b] + 2, p);
      assert Points(rows)[a] - Node(Poles(columns), b) == rows[a] + columns[b] + 2;
    }
    DotIsSum(s[a], x, f);
  }

  lemma ChoicesDistinct(m: nat, p: int, rows: seq<int>, columns: seq<int>)
    requires p > 2 * m && Choice(rows, m) && Choice(columns, m)
    ensures Distinct(Points(rows), p) && Distinct(Poles(columns), p)
    ensures forall a, b :: 0 <= a < |rows| && 0 <= b < |columns| ==> (Points(rows)[a] - Poles(columns)[b]) % p != 0
  {
    forall a, b | 0 <= a < |rows| && 0 <= b < |rows| && a != b
      ensures (Points(rows)[a] - Points(rows)[b]) % p != 0
    {
      SmallNonzero(rows[a] - rows[b], p);
    }
    forall a, b | 0 <= a < |columns| && 0 <= b < |columns| && a != b
      ensures (Poles(columns)[a] - Poles(columns)[b]) % p != 0
    {
      SmallNonzero(columns[b] - columns[a], p);
    }
    forall a, b | 0 <= a < |rows| && 0 <= b < |columns|
      ensures (Points(rows)[a] - Poles(columns)[b]) % p != 0
    {
      SmallNonzero(rows[a] + columns[b] + 2, p);
    }
  }

  // For every size m and prime p > 2m no square submatrix of the Cauchy matrix is singular.
  lemma CauchyIsMds(m: nat, p: int, rows: seq<int>, columns: seq<int>)
    requires IsPrime(p) && p > 2 * m && Choice(rows, m) && Choice(columns, m) && |rows| == |columns|
    ensures !Singular(Submatrix(CauchyRows(m, p), rows, columns), |rows|, p)
  {
    hide FieldInverse, CauchyRows, Combination, Distinct, Points, Poles, Submatrix;
    var s := Submatrix(CauchyRows(m, p), rows, columns);
    ChoicesDistinct(m, p, rows, columns);
    forall x: seq<int> | FieldRow(x, |rows|, p) && InKernel(s, x, p)
      ensures !Nonzero(x)
    {
      KernelIsZero(m, p, rows, columns, x);
    }
  }

  lemma KernelIsZero(m: nat, p: int, rows: seq<int>, columns: seq<int>, x: seq<int>)
    requires IsPrime(p) && p > 2 * m && Choice(rows, m) && Choice(columns, m) && |rows| == |columns|
    requires FieldRow(x, |rows|, p) && InKernel(Submatrix(CauchyRows(m, p), rows, columns), x, p)
    ensures !Nonzero(x)
  {
    hide FieldInverse, CauchyRows, Combination, Distinct, Submatrix, InKernel;
    ChoicesDistinct(m, p, rows, columns);
    forall a | 0 <= a < |rows|
      ensures Combination(x, Poles(columns), Points(rows)[a], p) % p == 0
    {
      KernelCombination(m, p, rows, columns, x, a);
    }
    forall l | 0 <= l < |x|
      ensures x[l] == 0
    {
      FractionsIndependent(x, Poles(columns), Points(rows), p, l);
      SmallMod(x[l], p);
    }
  }

  // In the terms of the elimination: the determinant it computes of such a submatrix is not zero.
  lemma SubmatrixDeterminant(m: nat, p: int, rows: seq<int>, columns: seq<int>)
    requires IsPrime(p) && p > 2 * m && Choice(rows, m) && Choice(columns, m) && |rows| == |columns|
    ensures var s := Submatrix(CauchyRows(m, p), rows, columns);
            Shaped(s, |rows|, p) && GaussDet(s, |rows|, p) != 0
  {
    hide FieldInverse, CauchyRows, GaussDet, Singular;
    CauchyReduced(m, p);
    CauchyIsMds(m, p, rows, columns);
    GaussDetZeroIffSingular(Submatrix(CauchyRows(m, p), rows, columns), |rows|, p);
  }
}
