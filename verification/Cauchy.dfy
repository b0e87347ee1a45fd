// The Cauchy matrix 1 / (i + j) used as MDS matrix, and its closed-form inverse.

module Cauchy {
  import opened ModArith
  import opened PrimeField
  import opened Sums
  import opened Matrices
  import opened Interpolation

  // 1, ..., m and -1, ..., -m.
  function Up(m: nat): seq<int> { seq(m, k => k + 1) }

  function Down(m: nat): seq<int> { seq(m, k => -(k + 1)) }

  ghost function CauchyRows(m: nat, p: int): (c: Rows)
    ensures HasShape(c, m, m)
    ensures forall i, j :: 0 <= i < m && 0 <= j < m ==> c[i][j] == FieldInverse(i + j + 2, p)
  {
    Tabulate(m, m, (i, j) => FieldInverse(i + j + 2, p))
  }

  // The closed form for row i and column j, counted from 1.
  ghost function InverseEntry(m: nat, p: int, i: int, j: int): int {
    var a, aPrime := Factors(Up(m), -i), Others(Up(m), j, j - 1);
    var b, bPrime := Factors(Down(m), j), Others(Down(m), -i, i - 1);
    a * (b * (FieldInverse(aPrime, p) * (FieldInverse(bPrime, p) * FieldInverse(-i - j, p))))
  }

  ghost function InverseCauchyRows(m: nat, p: int): (c: Rows)
    requires p > 0
    ensures IsMatrix(c, m, m, p)
    ensures forall i, j :: 0 <= i < m && 0 <= j < m ==> c[i][j] == InverseEntry(m, p, i + 1, j + 1) % p
  {
    hide InverseEntry;
    Tabulate(m, m, (i, j) => InverseEntry(m, p, i + 1, j + 1) % p)
  }

  // ----- which differences vanish

  lemma SmallNonzero(d: int, p: int)
    requires -p < d < p && d != 0
    ensures d % p != 0
  {
    if d > 0 {
      SmallMod(d, p);
    } else {
      DivModUnique(d, -1, d + p, p);
    }
  }

  lemma UpDistinct(m: nat, p: int)
    requires p > 2 * m
    ensures Distinct(Up(m), p) && Distinct(Down(m), p)
  {
    forall i, j | 0 <= i < m && 0 <= j < m && i != j
      ensures (Up(m)[i] - Up(m)[j]) % p != 0 && (Down(m)[i] - Down(m)[j]) % p != 0
    {
      SmallNonzero(i - j, p);
      SmallNonzero(j - i, p);
    }
  }

  lemma NodesDistinct(m: nat, i: int, p: int)
    requires 1 <= i <= m && p > 2 * m
    ensures Distinct([-i] + Up(m), p)
  {
    var xs := [-i] + Up(m);
    forall a, b | 0 <= a < |xs| && 0 <= b < |xs| && a != b
      ensures (xs[a] - xs[b]) % p != 0
    {
      SmallNonzero(xs[a] - xs[b], p);
    }
  }

  // ----- algebra of inverses

  lemma InverseOfNegative(x: int, p: int)
    requires IsPrime(p) && x % p != 0
    ensures (-x) % p != 0
    ensures FieldInverse(-x, p) % p == (-FieldInverse(x, p)) % p
  {
    hide FieldInverse;
    var r := FieldInverse(x, p);
    CongFromDiff(0, x, p);
    SmallMod(0, p);
    assert (-x) * (-r) == x * r;
    InverseUnique(-x, -r, p);
  }

  lemma NonzeroFactors(m: nat, i: int, j: int, p: int)
    requires IsPrime(p) && 1 <= i <= m && 1 <= j <= m && p > 2 * m
    ensures Factors(Up(m), -i) % p != 0 && Factors(Down(m), j) % p != 0
    ensures Others(Up(m), j, j - 1) % p != 0 && Others(Down(m), -i, i - 1) % p != 0
    ensures (-i - j) % p != 0 && (i + j) % p != 0
  {
    hide Factors, Others, Distinct;
    NonzeroSums(m, i, j, p);
    UpDistinct(m, p);
    assert Up(m)[j - 1] == j && Down(m)[i - 1] == -i;
    WeightNonzero(Up(m), j - 1, p);
    WeightNonzero(Down(m), i - 1, p);
    SmallNonzero(-i - j, p);
    SmallNonzero(i + j, p);
  }

  lemma NonzeroSums(m: nat, i: int, j: int, p: int)
    requires IsPrime(p) && 1 <= i <= m && 1 <= j <= m && p > 2 * m
    ensures Factors(Up(m), -i) % p != 0 && Factors(Down(m), j) % p != 0
  {
    hide Factors, Others;
    forall k | 0 <= k < m
      ensures (-i - Up(m)[k]) % p != 0 && (j - Down(m)[k]) % p != 0
    {
      SmallNonzero(-i - Up(m)[k], p);
      SmallNonzero(j - Down(m)[k], p);
    }
    OthersNonzero(Up(m), -i, -1, p);
    OthersAll(Up(m), -i, -1);
    OthersNonzero(Down(m), j, -1, p);
    OthersAll(Down(m), j, -1);
  }

  // ----- the inverse times the matrix

  // The common factor of one row of the product, and the polynomial values it multiplies.
  ghost function RowFactor(m: nat, p: int, i: int): int {
    Factors(Up(m), -i) * FieldInverse(Others(Down(m), -i, i - 1), p)
  }

  // One summand of the product, as a term of a divided difference.
  lemma Summand(m: nat, p: int, i: int, l: int, j: nat)
    requires IsPrime(p) && 1 <= i <= m && 1 <= l <= m && j < m && p > 2 * m
    ensures var xs, zs := [-i] + Up(m), Without(Down(m), l - 1);
            (InverseEntry(m, p, i, j + 1) * FieldInverse(j + 1 + l, p)) % p
            == (-RowFactor(m, p, i) * Term(xs, zs, p, j + 1)) % p
  {
    hide FieldInverse, Factors, Others, Distinct;
    var xs, zs, x := [-i] + Up(m), Without(Down(m), l - 1), j + 1;
    var o := Others(Up(m), x, j);
    NumeratorCancels(m, p, l, j);
    NodeWeightSign(m, p, i, j);
    assert xs[x] == x;
    SummandAlgebra(Factors(Up(m), -i), Factors(Down(m), x), FieldInverse(o, p), FieldInverse(Others(Down(m), -i, i - 1), p),
                   FieldInverse(-i - x, p), FieldInverse(x + l, p), Factors(zs, x), FieldInverse(Others(xs, x, x), p), p);
  }

  // b / (x + l) is the product b without the factor for l.
  lemma NumeratorCancels(m: nat, p: int, l: int, j: nat)
    requires IsPrime(p) && 1 <= l <= m && j < m && p > 2 * m
    ensures (Factors(Down(m), j + 1) * FieldInverse(j + 1 + l, p)) % p == Factors(Without(Down(m), l - 1), j + 1) % p
  {
    hide FieldInverse, Factors, Others;
    var x := j + 1;
    var fl, h := FieldInverse(x + l, p), Factors(Without(Down(m), l - 1), x);
    assert Down(m)[l - 1] == -l;
    FactorsSplit(Down(m), x, l - 1);
    FactorsWithout(Down(m), x, l - 1);
    SmallNonzero(x + l, p);
    SmallMod(1, p);
    CongMul((x + l) * fl, 1, h, h, p);
    RearrangeNumerator(x + l, fl, h);
  }

  lemma RearrangeNumerator(d: int, f: int, h: int)
    ensures (d * f) * h == (d * h) * f
  {
    MulAssoc(d, f, h);
    MulAssoc(d, h, f);
    MulCommutes(f, h);
  }

  // The two inverses left are, up to sign, the weight of the node.
  lemma NodeWeightSign(m: nat, p: int, i: int, j: nat)
    requires IsPrime(p) && 1 <= i <= m && j < m && p > 2 * m
    ensures (FieldInverse(Others(Up(m), j + 1, j), p) * FieldInverse(-i - (j + 1), p)) % p
         == (-FieldInverse(Others([-i] + Up(m), j + 1, j + 1), p)) % p
  {
    hide FieldInverse, Factors;
    var x, o := j + 1, Others(Up(m), j + 1, j);
    var fo, fi := FieldInverse(o, p), FieldInverse(-i - x, p);
    var w := FieldInverse((x + i) * o, p);
    assert ([-i] + Up(m))[1..] == Up(m);
    NonzeroFactors(m, i, x, p);
    InverseOfProduct(x + i, o, p);
    InverseOfNegative(x + i, p);
    assert -(x + i) == -i - x;
    var fx := FieldInverse(x + i, p);
    CongMul(fo, fo, fi, -fx, p);
    MulCommutes(fo, fx);
    assert fo * -fx == -(fo * fx);
    CongSub(0, 0, fx * fo, w, p);
  }

  lemma SummandAlgebra(a: int, b: int, fa: int, fb: int, fi: int, fl: int, h: int, w: int, p: int)
    requires p > 0
    requires (b * fl) % p == h % p
    requires (fa * fi) % p == (-w) % p
    ensures (a * (b * (fa * (fb * fi))) * fl) % p == (-(a * fb) * (h * w)) % p
  {
    CongMul(b * fl, h, fa * fi, -w, p);
    CongMul(a * fb, a * fb, (b * fl) * (fa * fi), h * -w, p);
    assert a * (b * (fa * (fb * fi))) * fl == (a * fb) * ((b * fl) * (fa * fi));
    assert h * -w == -(h * w);
    assert -(a * fb) * (h * w) == (a * fb) * -(h * w);
  }

  lemma {:induction false} OthersVanish(xs: seq<int>, t: int, j: int, k: nat)
    requires k < |xs| && k != j && xs[k] == t
    ensures Others(xs, t, j) == 0
  {
    if k > 0 {
      OthersVanish(xs[1..], t, j - 1, k - 1);
    }
  }

  // Row i of the inverse times column l of the matrix.
  lemma InverseTimesColumn(m: nat, p: int, i: int, l: int)
    requires IsPrime(p) && 1 <= i <= m && 1 <= l <= m && p > 2 * m
    ensures Sum(t => InverseEntry(m, p, i, t + 1) * FieldInverse(t + 1 + l, p), m) % p == if i == l then 1 else 0
  {
    hide InverseEntry, FieldInverse, Term, RowFactor, Distinct;
    var xs, zs, c := [-i] + Up(m), Without(Down(m), l - 1), -RowFactor(m, p, i);
    var term := (j: int) => Term(xs, zs, p, j);
    var tail := (j: int) => term(j + 1);
    NodesDistinct(m, i, p);
    LowDegreeVanishes(xs, zs, p);
    SumEqual(term, j => Term(xs, zs, p, j), m + 1);
    SumFirst(term, m + 1);
    SumEqual(tail, i => term(i + 1), m);
    forall t | 0 <= t < m
      ensures (InverseEntry(m, p, i, t + 1) * FieldInverse(t + 1 + l, p)) % p == (c * tail(t)) % p
    {
      Summand(m, p, i, l, t);
    }
    SumCong(t => InverseEntry(m, p, i, t + 1) * FieldInverse(t + 1 + l, p), j => c * tail(j), m, p);
    SumScale(c, tail, m);
    var s := Sum(tail, m);
    assert (term(0) + s) % p == 0;
    LastStep(c, term(0), s, p);
    FirstTerm(m, p, i, l);
  }

  lemma LastStep(c: int, t: int, s: int, p: int)
    requires p > 0 && (t + s) % p == 0
    ensures (c * s) % p == (-c * t) % p
  {
    SmallMod(0, p);
    CongSub(t + s, 0, t, t, p);
    CongMul(c, c, s, -t, p);
    assert c * -t == -c * t;
  }

  // The row factor times the term of the extra node is the Kronecker delta.
  lemma FirstTerm(m: nat, p: int, i: int, l: int)
    requires IsPrime(p) && 1 <= i <= m && 1 <= l <= m && p > 2 * m
    ensures (RowFactor(m, p, i) * Term([-i] + Up(m), Without(Down(m), l - 1), p, 0)) % p == if i == l then 1 else 0
  {
    hide FieldInverse, Factors, Others, Distinct, Term;
    NonzeroFactors(m, i, i, p);
    assert Down(m)[i - 1] == -i;
    var a, b, h := Factors(Up(m), -i), Others(Down(m), -i, i - 1), Others(Down(m), -i, l - 1);
    var fa, fb := FieldInverse(a, p), FieldInverse(b, p);
    ExtraTerm(m, p, i, l);
    FirstTermAlgebra(a, fa, h, fb);
    SmallMod(1, p);
    SmallMod(0, p);
    CongMulLeft(a * fa, 1, h * fb, p);
    if i != l {
      OthersVanish(Down(m), -i, l - 1, i - 1);
    }
  }

  lemma ExtraTerm(m: nat, p: int, i: int, l: int)
    requires 1 <= i <= m && 1 <= l <= m
    ensures Term([-i] + Up(m), Without(Down(m), l - 1), p, 0)
         == Others(Down(m), -i, l - 1) * FieldInverse(Factors(Up(m), -i), p)
  {
    hide FieldInverse, Factors;
    assert ([-i] + Up(m))[1..] == Up(m);
    OthersAll(Up(m), -i, -1);
    FactorsWithout(Down(m), -i, l - 1);
  }

  lemma FirstTermAlgebra(a: int, fa: int, h: int, fb: int)
    ensures (a * fb) * (h * fa) == (a * fa) * (h * fb)
    ensures 1 * (h * fb) == h * fb
  {
    MulCommutes(h, fb);
    MulRegroup(a, fb, h, fa);
    MulRegroup(a, fa, h, fb);
    assert (a * fb) * (h * fa) == a * (fb * (h * fa));
    assert (a * fa) * (h * fb) == a * (fa * (h * fb));
    MulRotate(fb, h, fa);
    MulRotate(fa, h, fb);
  }

  // ----- both matrices are symmetric

  lemma {:induction false} NegatedFactors(xs: seq<int>, ys: seq<int>, t: int)
    requires |xs| == |ys| && forall k :: 0 <= k < |xs| ==> ys[k] == -xs[k]
    ensures Factors(xs, -t) == Sign(|xs|) * Factors(ys, t)
  {
    if xs != [] {
      NegatedFactors(xs[1..], ys[1..], t);
      NegativeStep(t - ys[0], Sign(|xs| - 1), Factors(ys[1..], t));
    }
  }

  lemma NegativeStep(d: int, s: int, f: int)
    ensures -d * (s * f) == -s * (d * f)
  {
    MulRotate(d, s, f);
    MulCommutes(f, d);
  }

  lemma {:induction false} NegatedOthers(xs: seq<int>, ys: seq<int>, t: int, j: nat)
    requires |xs| == |ys| && j < |xs| && forall k :: 0 <= k < |xs| ==> ys[k] == -xs[k]
    ensures Others(xs, -t, j) == Sign(|xs| - 1) * Others(ys, t, j)
  {
    if j == 0 {
      NegatedFactors(xs[1..], ys[1..], t);
      OthersAll(xs[1..], -t, -1);
      OthersAll(ys[1..], t, -1);
    } else {
      NegatedOthers(xs[1..], ys[1..], t, j - 1);
      NegativeStep(t - ys[0], Sign(|xs| - 2), Others(ys[1..], t, j - 1));
    }
  }

  // An expression for the entries in which i and j play the same part.
  ghost function SymmetricEntry(m: nat, p: int, i: int, j: int): int {
    var fi, fj := FieldInverse(Others(Up(m), i, i - 1), p), FieldInverse(Others(Up(m), j, j - 1), p);
    SymmetricProduct(Sign(m), Sign(m - 1), Factors(Down(m), i), Factors(Down(m), j), fi, fj, FieldInverse(-i - j, p))
  }

  function SymmetricProduct(s: int, t: int, bi: int, bj: int, fi: int, fj: int, q: int): int {
    (s * t) * ((bi * bj) * (fi * fj)) * q
  }

  lemma SymmetricAlgebra(s: int, t: int, bi: int, bj: int, fi: int, fj: int, q: int, g: int)
    ensures (s * bi) * (bj * (fj * (g * q))) == (s * bi * (bj * (fj * q))) * g
    ensures (s * bi * (bj * (fj * q))) * (t * fi) == SymmetricProduct(s, t, bi, bj, fi, fj, q)
  {
    var u := s * bi;
    assert fj * (g * q) == (fj * q) * g;
    MulAssoc(bj, fj * q, g);
    MulAssoc(u, bj * (fj * q), g);
    assert (u * (bj * (fj * q))) * (t * fi) == (s * t) * (bi * (bj * (fj * q)) * fi);
    assert bi * (bj * (fj * q)) * fi == ((bi * bj) * (fi * fj)) * q;
    MulAssoc(s * t, (bi * bj) * (fi * fj), q);
  }

  lemma ProductSymmetric(s: int, t: int, bi: int, bj: int, fi: int, fj: int, q: int)
    ensures SymmetricProduct(s, t, bi, bj, fi, fj, q) == SymmetricProduct(s, t, bj, bi, fj, fi, q)
  {
    MulCommutes(bi, bj);
    MulCommutes(fi, fj);
  }

  lemma SymmetricForm(m: nat, p: int, i: int, j: int)
    requires IsPrime(p) && 1 <= i <= m && 1 <= j <= m && p > 2 * m
    ensures InverseEntry(m, p, i, j) % p == SymmetricEntry(m, p, i, j) % p
  {
    hide FieldInverse, Factors, Others, SymmetricProduct, Sign;
    var bi, bj, q := Factors(Down(m), i), Factors(Down(m), j), FieldInverse(-i - j, p);
    var fi, fj := FieldInverse(Others(Up(m), i, i - 1), p), FieldInverse(Others(Up(m), j, j - 1), p);
    var g := FieldInverse(Others(Down(m), -i, i - 1), p);
    NegatedFactors(Up(m), Down(m), i);
    SignedInverse(m, p, i);
    var e := Sign(m) * bi * (bj * (fj * q));
    CongMul(e, e, g, Sign(m - 1) * fi, p);
    SymmetricAlgebra(Sign(m), Sign(m - 1), bi, bj, fi, fj, q, g);
  }

  lemma SignedInverse(m: nat, p: int, i: int)
    requires IsPrime(p) && 1 <= i <= m && p > 2 * m
    ensures FieldInverse(Others(Down(m), -i, i - 1), p) % p == (Sign(m - 1) * FieldInverse(Others(Up(m), i, i - 1), p)) % p
  {
    hide FieldInverse, Factors, Others;
    NegatedOthers(Down(m), Up(m), i, i - 1);
    NonzeroFactors(m, i, i, p);
    InverseOfNegative(Others(Up(m), i, i - 1), p);
  }

  lemma InverseSymmetric(m: nat, p: int, i: int, j: int)
    requires IsPrime(p) && 1 <= i <= m && 1 <= j <= m && p > 2 * m
    ensures InverseEntry(m, p, i, j) % p == InverseEntry(m, p, j, i) % p
  {
    hide FieldInverse, Factors, Others, InverseEntry, Sign, SymmetricProduct;
    SymmetricForm(m, p, i, j);
    SymmetricForm(m, p, j, i);
    var fi, fj := FieldInverse(Others(Up(m), i, i - 1), p), FieldInverse(Others(Up(m), j, j - 1), p);
    ProductSymmetric(Sign(m), Sign(m - 1), Factors(Down(m), i), Factors(Down(m), j), fi, fj, FieldInverse(-i - j, p));
    assert -i - j == -j - i;
  }

  // ----- the main theorem

  // For every size m >= 1 and every prime p > 2m the closed form is a two-sided inverse of the Cauchy matrix.
  lemma CauchyInverse(m: nat, p: int)
    requires IsPrime(p) && m >= 1 && p > 2 * m
    ensures IsMatrix(CauchyRows(m, p), m, m, p)
    ensures MulRows(InverseCauchyRows(m, p), CauchyRows(m, p), p) == Identity(m)
    ensures MulRows(CauchyRows(m, p), InverseCauchyRows(m, p), p) == Identity(m)
  {
    hide FieldInverse, InverseEntry, CauchyRows, InverseCauchyRows, MulRows;
    CauchyReduced(m, p);
    var c, v := CauchyRows(m, p), InverseCauchyRows(m, p);
    forall i, j | 0 <= i < m && 0 <= j < m
      ensures Entry(v, c, m, i, j) % p == At(Identity(m), i, j)
      ensures Entry(c, v, m, i, j) % p == At(Identity(m), i, j)
    {
      InverseEntryProduct(m, p, i, j);
      InverseEntryProduct(m, p, j, i);
      SwappedProduct(m, p, i, j);
    }
    ProductIsIdentity(v, c, m, p);
    ProductIsIdentity(c, v, m, p);
  }

  lemma ProductIsIdentity(a: Rows, b: Rows, m: nat, p: int)
    requires p >= 2 && m >= 1 && HasShape(a, m, m) && HasShape(b, m, m)
    requires forall i, j :: 0 <= i < m && 0 <= j < m ==> Entry(a, b, m, i, j) % p == At(Identity(m), i, j)
    ensures MulRows(a, b, p) == Identity(m)
  {
    forall i, j | 0 <= i < m && 0 <= j < m
      ensures At(MulRows(a, b, p), i, j) == At(Identity(m), i, j)
    {
    }
    MatrixEqual(MulRows(a, b, p), Identity(m), m, m);
  }

  lemma CauchyReduced(m: nat, p: int)
    requires IsPrime(p) && p > 2 * m
    ensures IsMatrix(CauchyRows(m, p), m, m, p)
  {
    hide FieldInverse, CauchyRows;
    forall i, j | 0 <= i < m && 0 <= j < m
      ensures 0 <= CauchyRows(m, p)[i][j] < p
    {
      SmallNonzero(i + j + 2, p);
    }
  }

  lemma InverseEntryProduct(m: nat, p: int, i: nat, j: nat)
    requires IsPrime(p) && i < m && j < m && p > 2 * m
    ensures Entry(InverseCauchyRows(m, p), CauchyRows(m, p), m, i, j) % p == if i == j then 1 else 0
  {
    hide FieldInverse, InverseEntry, CauchyRows, InverseCauchyRows;
    var c, v := CauchyRows(m, p), InverseCauchyRows(m, p);
    forall t | 0 <= t < m
      ensures (At(v, i, t) * At(c, t, j)) % p == (InverseEntry(m, p, i + 1, t + 1) * FieldInverse(t + 1 + (j + 1), p)) % p
    {
      assert t + j + 2 == t + 1 + (j + 1);
      ModNoop(InverseEntry(m, p, i + 1, t + 1), FieldInverse(t + j + 2, p), p);
    }
    SumCong(t => At(v, i, t) * At(c, t, j), t => InverseEntry(m, p, i + 1, t + 1) * FieldInverse(t + 1 + (j + 1), p), m, p);
    InverseTimesColumn(m, p, i + 1, j + 1);
  }

  // By symmetry of both matrices, multiplying in the other order gives the transpose.
  lemma SwappedProduct(m: nat, p: int, i: nat, j: nat)
    requires IsPrime(p) && i < m && j < m && p > 2 * m
    ensures Entry(CauchyRows(m, p), InverseCauchyRows(m, p), m, i, j) == Entry(InverseCauchyRows(m, p), CauchyRows(m, p), m, j, i)
  {
    hide FieldInverse, InverseEntry, CauchyRows, InverseCauchyRows;
    var c, v := CauchyRows(m, p), InverseCauchyRows(m, p);
    forall t | 0 <= t < m
      ensures At(c, i, t) * At(v, t, j) == At(v, j, t) * At(c, t, i)
    {
      InverseSymmetric(m, p, t + 1, j + 1);
      assert i + t + 2 == t + i + 2;
      MulCommutes(At(c, i, t), At(v, t, j));
    }
    SumEqual(t => At(c, i, t) * At(v, t, j), t => At(v, j, t) * At(c, t, i), m);
  }

  // ----- building the two matrices

  // Some sum i + j with 1 <= i, j <= size is a multiple of p exactly when p <= 2 * size.
  lemma VanishingSum(size: int, p: int) returns (i: int, j: int)
    requires 2 <= p <= 2 * size
    ensures 1 <= i <= size && 1 <= j <= size && (i + j) % p == 0
  {
    i := if p - 1 <= size then 1 else p - size;
    j := p - i;
    DivModUnique(p, 1, 0, p);
  }

  method BuildCauchy(size: nat, p: int) returns (res: Option<Rows>)
    requires IsPrime(p) && size >= 1
    ensures res.None? <==> p <= 2 * size
    ensures res.Some? ==> res.value == CauchyRows(size, p)
    ensures res.Some? ==> HasShape(res.value, size, size) && forall i, j :: 0 <= i < size && 0 <= j < size ==>
              0 <= res.value[i][j] < p && ((i + j + 2) * res.value[i][j]) % p == 1
  {
    hide FieldInverse, CauchyRows;
    ghost var wi, wj := 0, 0;
    if p <= 2 * size {
      wi, wj := VanishingSum(size, p);
    }
    ghost var m := CauchyRows(size, p);
    var data: Rows := [];
    for i := 1 to size + 1
      invariant data == m[..i - 1]
      invariant p <= 2 * size ==> i <= wi
    {
      var row: seq<int> := [];
      for j := 1 to size + 1
        invariant row == m[i - 1][..j - 1]
        invariant p <= 2 * size && i == wi ==> j <= wj
      {
        if (i + j) % p == 0 {
          if p > 2 * size {
            SmallNonzero(i + j, p);
          }
          return None;
        }
        InverseOfResidue(i + j, p);
        row := row + [Inv(i + j, p)];
      }
      assert row == m[i - 1] && m[..i] == m[..i - 1] + [m[i - 1]];
      data := data + [row];
    }
    res := Some(data);
    forall i, j | 0 <= i < size && 0 <= j < size
      ensures 0 <= data[i][j] < p && ((i + j + 2) * data[i][j]) % p == 1
    {
      EntryIsInverse(size, p, i, j);
    }
  }

  lemma EntryIsInverse(size: nat, p: int, i: nat, j: nat)
    requires IsPrime(p) && p > 2 * size && i < size && j < size
    ensures 0 <= CauchyRows(size, p)[i][j] < p && ((i + j + 2) * CauchyRows(size, p)[i][j]) % p == 1
  {
    hide FieldInverse, CauchyRows;
    SmallNonzero(i + j + 2, p);
  }

  lemma InverseOfResidue(a: int, p: int)
    requires IsPrime(p) && a % p != 0
    ensures FieldInverse(a, p) == Inv(a, p)
    ensures (a % p) % p != 0 && Inv(a % p, p) == Inv(a, p)
  {
    ModMod(a, p);
    var r, r' := Inv(a, p), Inv(a % p, p);
    ModNoop(a, r', p);
    SmallMod(1, p);
    Cancel(a, r, r', p);
    SmallMod(r, p);
    SmallMod(r', p);
  }

  function ProductOf(arr: seq<int>): int {
    if arr == [] then 1 else ProductOf(arr[..|arr| - 1]) * arr[|arr| - 1]
  }

  method Product(arr: seq<int>, p: int) returns (acc: int)
    requires p >= 2
    ensures acc == ProductOf(arr) % p
  {
    acc := 1;
    SmallMod(1, p);
    for k := 0 to |arr|
      invariant acc == ProductOf(arr[..k]) % p
    {
      assert arr[..k + 1][..k] == arr[..k];
      ModNoop(ProductOf(arr[..k]), arr[k], p);
      ModNoop(acc, arr[k], p);
      acc := (acc * (arr[k] % p)) % p;
    }
    assert arr[..|arr|] == arr;
  }

  lemma {:induction false} FactorsAsProduct(xs: seq<int>, t: int)
    ensures Factors(xs, t) == ProductOf(seq(|xs|, k requires 0 <= k < |xs| => t - xs[k]))
  {
    var arr := seq(|xs|, k requires 0 <= k < |xs| => t - xs[k]);
    if xs != [] {
      var n := |xs| - 1;
      FactorsAsProduct(xs[..n], t);
      assert arr[..n] == seq(n, k requires 0 <= k < n => t - xs[..n][k]);
      OthersAll(xs, t, -1);
      OthersLast(xs, t, -1);
      OthersAll(xs[..n], t, -1);
      MulCommutes(t - xs[n], Factors(xs[..n], t));
    }
  }

  lemma {:induction false} OthersAsProduct(xs: seq<int>, t: int, j: nat)
    requires j < |xs| ==> xs[j] == t
    requires forall k :: 0 <= k < |xs| && k != j ==> xs[k] != t
    ensures Others(xs, t, j) == ProductOf(seq(|xs|, k requires 0 <= k < |xs| => if xs[k] != t then t - xs[k] else 1))
  {
    var arr := seq(|xs|, k requires 0 <= k < |xs| => if xs[k] != t then t - xs[k] else 1);
    if xs != [] {
      var n := |xs| - 1;
      OthersAsProduct(xs[..n], t, j);
      assert arr[..n] == seq(n, k requires 0 <= k < n => if xs[..n][k] != t then t - xs[..n][k] else 1);
      OthersLast(xs, t, j);
      MulCommutes(arr[n], Others(xs[..n], t, j));
    }
  }

  // The four products of one entry, each reduced modulo p.
  method EntryProducts(size: nat, p: int, i: int, j: int) returns (a: int, aPrime: int, b: int, bPrime: int)
    requires p >= 2 && 1 <= i <= size && 1 <= j <= size
    ensures a == Factors(Up(size), -i) % p && aPrime == Others(Up(size), j, j - 1) % p
    ensures b == Factors(Down(size), j) % p && bPrime == Others(Down(size), -i, i - 1) % p
  {
    hide Factors, Others;
    var up, down := Up(size), Down(size);
    a := Product(seq(size, k => -i - (1 + k)), p);
    aPrime := Product(seq(size, k requires 0 <= k < size => if up[k] != j then j - up[k] else 1), p);
    b := Product(seq(size, k => j + (1 + k)), p);
    bPrime := Product(seq(size, k requires 0 <= k < size => if down[k] != -i then -i - down[k] else 1), p);
    FactorsAsProduct(up, -i);
    assert seq(size, k => -i - (1 + k)) == seq(|up|, k requires 0 <= k < |up| => -i - up[k]);
    OthersAsProduct(up, j, j - 1);
    FactorsAsProduct(down, j);
    assert seq(size, k => j + (1 + k)) == seq(|down|, k requires 0 <= k < |down| => j - down[k]);
    OthersAsProduct(down, -i, i - 1);
  }

  lemma ReducedEntry(a: int, b: int, x: int, y: int, z: int, p: int)
    requires p > 0
    ensures ((a % p) * (((b % p) * ((x * ((y * z) % p)) % p)) % p)) % p == (a * (b * (x * (y * z)))) % p
  {
    ModNoop(x, y * z, p);
    ModNoop(b, x * (y * z), p);
    ModNoop(b % p, x * (y * z), p);
    ModNoop(a, b * (x * (y * z)), p);
    ModNoop(a % p, b * (x * (y * z)), p);
  }

  method BuildInverseCauchy(size: nat, p: int) returns (res: Option<Rows>)
    requires IsPrime(p) && size >= 1
    ensures res.None? <==> p <= 2 * size
    ensures res.Some? ==> res.value == InverseCauchyRows(size, p)
  {
    hide FieldInverse, Factors, Others, InverseCauchyRows, InverseEntry;
    ghost var wi, wj := 0, 0;
    if p <= 2 * size {
      wi, wj := VanishingSum(size, p);
    }
    ghost var m := InverseCauchyRows(size, p);
    var data: Rows := [];
    for i := 1 to size + 1
      invariant data == m[..i - 1]
      invariant p <= 2 * size ==> i <= wi
    {
      var row: seq<int> := [];
      for j := 1 to size + 1
        invariant row == m[i - 1][..j - 1]
        invariant p <= 2 * size && i == wi ==> j <= wj
      {
        var entry := BuildInverseEntry(size, p, i, j);
        if entry.None? {
          return None;
        }
        assert m[i - 1][j - 1] == entry.value;
        row := row + [entry.value];
      }
      assert row == m[i - 1] && m[..i] == m[..i - 1] + [m[i - 1]];
      data := data + [row];
    }
    res := Some(data);
  }

  method BuildInverseEntry(size: nat, p: int, i: int, j: int) returns (res: Option<int>)
    requires IsPrime(p) && 1 <= i <= size && 1 <= j <= size
    ensures res.None? ==> p <= 2 * size
    ensures res.Some? ==> (i + j) % p != 0 && res.value == InverseEntry(size, p, i, j) % p
  {
    hide FieldInverse, Factors, Others;
    var a, aPrime, b, bPrime := EntryProducts(size, p, i, j);
    ghost var o, o' := Others(Up(size), j, j - 1), Others(Down(size), -i, i - 1);
    ModMod(o, p);
    ModMod(o', p);
    if aPrime % p == 0 || bPrime % p == 0 || (-i - j) % p == 0 {
      if p > 2 * size {
        NonzeroFactors(size, i, j, p);
      }
      return None;
    }
    InverseOfResidue(o, p);
    InverseOfResidue(o', p);
    InverseOfResidue(-i - j, p);
    DifferenceNonzero(-i, j, p);
    ReducedEntry(Factors(Up(size), -i), Factors(Down(size), j), Inv(o, p), Inv(o', p), Inv(-i - j, p), p);
    res := Some((a * ((b * ((Inv(aPrime, p) * ((Inv(bPrime, p) * Inv(-i - j, p)) % p)) % p)) % p)) % p);
  }
}
