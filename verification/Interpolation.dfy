// Lagrange interpolation over the integers modulo a prime, in the form of divided differences: the divided difference
// of a product of at most n - 2 linear factors at n distinct nodes is zero.

module Interpolation {
  import opened ModArith
  import opened PrimeField
  import opened Sums

  // ----- inverses, extended by zero where there is none

  ghost function FieldInverse(a: int, p: int): (r: int)
    ensures IsPrime(p) && a % p != 0 ==> 0 <= r < p && (a * r) % p == 1
  {
    if IsPrime(p) && a % p != 0 then Inv(a, p) else 0
  }

  lemma InverseOfOne(p: int)
    requires IsPrime(p)
    ensures FieldInverse(1, p) == 1
  {
    SmallMod(1, p);
    SmallMod(FieldInverse(1, p), p);
  }

  // A number with the defining property of the inverse is the inverse.
  lemma InverseUnique(a: int, r: int, p: int)
    requires IsPrime(p) && a % p != 0
    requires (a * r) % p == 1
    ensures r % p == FieldInverse(a, p) % p
  {
    Cancel(a, r, FieldInverse(a, p), p);
  }

  lemma InverseOfProduct(a: int, b: int, p: int)
    requires IsPrime(p) && a % p != 0 && b % p != 0
    ensures (a * b) % p != 0
    ensures FieldInverse(a * b, p) % p == (FieldInverse(a, p) * FieldInverse(b, p)) % p
  {
    hide FieldInverse;
    var x, y := FieldInverse(a, p), FieldInverse(b, p);
    ProductNonzero(a, b, p);
    MulRegroup(a, b, x, y);
    SmallMod(1, p);
    CongMul(a * x, 1, b * y, 1, p);
    InverseUnique(a * b, x * y, p);
  }

  // d * (1 / (d * o)) == 1 / o
  lemma InverseCancels(d: int, o: int, p: int)
    requires IsPrime(p) && d % p != 0 && o % p != 0
    ensures (d * FieldInverse(d * o, p)) % p == FieldInverse(o, p) % p
  {
    hide FieldInverse;
    var x := FieldInverse(d * o, p);
    ProductNonzero(d, o, p);
    MulCommutes(d, o);
    MulAssoc(o, d, x);
    InverseUnique(o, d * x, p);
  }

  lemma DifferenceNonzero(a: int, b: int, p: int)
    requires p > 0 && (a - b) % p != 0
    ensures (b - a) % p != 0
  {
    CongFromDiff(a, b, p);
    CongFromDiff(b, a, p);
  }

  // ----- products of linear factors

  // The product of t - z over all z in zs.
  function Factors(zs: seq<int>, t: int): int {
    if zs == [] then 1 else (t - zs[0]) * Factors(zs[1..], t)
  }

  // The product of t - xs[k] over all k other than j.
  function Others(xs: seq<int>, t: int, j: int): int {
    if xs == [] then 1 else (if j == 0 then 1 else t - xs[0]) * Others(xs[1..], t, j - 1)
  }

  lemma {:induction false} OthersNonzero(xs: seq<int>, t: int, j: int, p: int)
    requires IsPrime(p)
    requires forall k :: 0 <= k < |xs| && k != j ==> (t - xs[k]) % p != 0
    ensures Others(xs, t, j) % p != 0
  {
    if xs == [] {
      SmallMod(1, p);
    } else {
      forall k | 0 <= k < |xs[1..]| && k != j - 1
        ensures (t - xs[1..][k]) % p != 0
      {
        assert xs[1..][k] == xs[k + 1];
      }
      OthersNonzero(xs[1..], t, j - 1, p);
      if j != 0 {
        ProductNonzero(t - xs[0], Others(xs[1..], t, j - 1), p);
      }
    }
  }

  lemma {:induction false} OthersLast(xs: seq<int>, t: int, j: int)
    requires xs != []
    ensures var n := |xs| - 1;
            Others(xs, t, j) == (if j == n then 1 else t - xs[n]) * Others(xs[..n], t, j)
  {
    var n := |xs| - 1;
    if n == 0 {
      assert xs[1..] == [];
    } else {
      OthersLast(xs[1..], t, j - 1);
      assert xs[1..][..n - 1] == xs[..n][1..];
      var o := Others(xs[..n][1..], t, j - 1);
      var first, last := if j == 0 then 1 else t - xs[0], if j == n then 1 else t - xs[n];
      assert Others(xs, t, j) == first * (last * o);
      assert Others(xs[..n], t, j) == first * o;
      MulRotate(first, last, o);
      MulCommutes(first, o);
    }
  }

  // The full product is one factor times the others.
  lemma {:induction false} FactorsSplit(xs: seq<int>, t: int, j: nat)
    requires j < |xs|
    ensures Factors(xs, t) == (t - xs[j]) * Others(xs, t, j)
  {
    if j == 0 {
      OthersAll(xs[1..], t, -1);
    } else {
      FactorsSplit(xs[1..], t, j - 1);
      var o := Others(xs[1..], t, j - 1);
      MulRotate(t - xs[0], t - xs[j], o);
      MulCommutes(o, t - xs[0]);
    }
  }

  // With j out of range nothing is skipped.
  lemma {:induction false} OthersAll(xs: seq<int>, t: int, j: int)
    requires j < 0 || j >= |xs|
    ensures Others(xs, t, j) == Factors(xs, t)
  {
    if xs != [] {
      OthersAll(xs[1..], t, j - 1);
    }
  }

  function Without(xs: seq<int>, j: nat): seq<int>
    requires j < |xs|
  {
    xs[..j] + xs[j + 1..]
  }

  lemma {:induction false} FactorsWithout(xs: seq<int>, t: int, j: nat)
    requires j < |xs|
    ensures Factors(Without(xs, j), t) == Others(xs, t, j)
  {
    if j == 0 {
      assert Without(xs, 0) == xs[1..];
      OthersAll(xs[1..], t, -1);
    } else {
      FactorsWithout(xs[1..], t, j - 1);
      assert Without(xs, j)[1..] == Without(xs[1..], j - 1);
      assert Without(xs, j)[0] == xs[0];
    }
  }

  // ----- divided differences

  ghost predicate Distinct(xs: seq<int>, p: int)
    requires p > 0
  {
    forall i, j :: 0 <= i < |xs| && 0 <= j < |xs| && i != j ==> (xs[i] - xs[j]) % p != 0
  }

  function Node(xs: seq<int>, j: int): int {
    if 0 <= j < |xs| then xs[j] else 0
  }

  // The weight of node j: one over the product of its distances to the other nodes.
  ghost function NodeWeight(xs: seq<int>, j: int, p: int): int {
    FieldInverse(Others(xs, Node(xs, j), j), p)
  }

  // The weighted value of Factors(zs, .) at node j.
  ghost function Term(xs: seq<int>, zs: seq<int>, p: int, j: int): int {
    Factors(zs, Node(xs, j)) * NodeWeight(xs, j, p)
  }

  // The divided difference of Factors(zs, .) at the nodes xs.
  ghost function DividedDifference(xs: seq<int>, zs: seq<int>, p: int): int {
    Sum(j => Term(xs, zs, p, j), |xs|)
  }

  lemma WeightNonzero(xs: seq<int>, j: nat, p: int)
    requires IsPrime(p) && Distinct(xs, p) && j < |xs|
    ensures Others(xs, xs[j], j) % p != 0
  {
    OthersNonzero(xs, xs[j], j, p);
  }

  // Multiplying a term by its distance to the first node drops the first node.
  lemma DropFirst(xs: seq<int>, zs: seq<int>, p: int, j: nat)
    requires IsPrime(p) && Distinct(xs, p) && 1 <= j < |xs|
    ensures ((xs[j] - xs[0]) * Term(xs, zs, p, j)) % p == Term(xs[1..], zs, p, j - 1) % p
  {
    hide FieldInverse, Factors;
    var d, o := xs[j] - xs[0], Others(xs[1..], xs[j], j - 1);
    assert Distinct(xs[1..], p) by {
      forall a, b | 0 <= a < |xs[1..]| && 0 <= b < |xs[1..]| && a != b
        ensures (xs[1..][a] - xs[1..][b]) % p != 0
      {
        assert xs[1..][a] == xs[a + 1] && xs[1..][b] == xs[b + 1];
      }
    }
    WeightNonzero(xs[1..], j - 1, p);
    assert Others(xs, xs[j], j) == d * o;
    ScaledTerm(d, o, Factors(zs, xs[j]), p);
  }

  lemma DropLast(xs: seq<int>, zs: seq<int>, p: int, j: nat)
    requires IsPrime(p) && Distinct(xs, p) && j < |xs| - 1
    ensures ((xs[j] - xs[|xs| - 1]) * Term(xs, zs, p, j)) % p == Term(xs[..|xs| - 1], zs, p, j) % p
  {
    hide FieldInverse, Factors;
    var n := |xs| - 1;
    var d, o := xs[j] - xs[n], Others(xs[..n], xs[j], j);
    WeightNonzero(xs[..n], j, p);
    OthersLast(xs, xs[j], j);
    ScaledTerm(d, o, Factors(zs, xs[j]), p);
  }

  lemma ScaledTerm(d: int, o: int, h: int, p: int)
    requires IsPrime(p) && d % p != 0 && o % p != 0
    ensures (d * (h * FieldInverse(d * o, p))) % p == (h * FieldInverse(o, p)) % p
  {
    hide FieldInverse;
    var w := FieldInverse(d * o, p);
    InverseCancels(d, o, p);
    CongMul(h, h, d * w, FieldInverse(o, p), p);
    MulRotate(d, h, w);
    MulCommutes(w, d);
  }

  // The sum of all terms, each multiplied by its distance to a fixed number c.
  ghost function ShiftedSum(xs: seq<int>, zs: seq<int>, c: int, p: int): int {
    Sum(j => (Node(xs, j) - c) * Term(xs, zs, p, j), |xs|)
  }

  lemma NodeAt(xs: seq<int>, j: nat)
    requires j < |xs|
    ensures Node(xs, j) == xs[j]
  {
  }

  lemma ShiftedByFirst(xs: seq<int>, zs: seq<int>, p: int)
    requires IsPrime(p) && xs != [] && Distinct(xs, p)
    ensures ShiftedSum(xs, zs, xs[0], p) % p == DividedDifference(xs[1..], zs, p) % p
  {
    hide Term, Node, Sum;
    var f := (j: int) => (Node(xs, j) - xs[0]) * Term(xs, zs, p, j);
    SumEqual(f, j => (Node(xs, j) - xs[0]) * Term(xs, zs, p, j), |xs|);
    SumFirst(f, |xs|);
    NodeAt(xs, 0);
    assert f(0) == 0 * Term(xs, zs, p, 0);
    forall j | 0 <= j < |xs| - 1
      ensures f(j + 1) % p == Term(xs[1..], zs, p, j) % p
    {
      NodeAt(xs, j + 1);
      DropFirst(xs, zs, p, j + 1);
    }
    SumCong(i => f(i + 1), j => Term(xs[1..], zs, p, j), |xs| - 1, p);
  }

  lemma ShiftedByLast(xs: seq<int>, zs: seq<int>, p: int)
    requires IsPrime(p) && xs != [] && Distinct(xs, p)
    ensures ShiftedSum(xs, zs, xs[|xs| - 1], p) % p == DividedDifference(xs[..|xs| - 1], zs, p) % p
  {
    hide Term;
    var n := |xs| - 1;
    var f := (j: int) => (Node(xs, j) - xs[n]) * Term(xs, zs, p, j);
    SumEqual(f, j => (Node(xs, j) - xs[n]) * Term(xs, zs, p, j), |xs|);
    assert f(n) == 0;
    forall j | 0 <= j < n
      ensures f(j) % p == Term(xs[..n], zs, p, j) % p
    {
      DropLast(xs, zs, p, j);
    }
    SumCong(f, j => Term(xs[..n], zs, p, j), n, p);
  }

  // Moving the fixed number from c to e.
  lemma ShiftedSumMoves(xs: seq<int>, zs: seq<int>, c: int, e: int, p: int)
    ensures ShiftedSum(xs, zs, c, p) == ShiftedSum(xs, zs, e, p) + (e - c) * DividedDifference(xs, zs, p)
  {
    hide Term, Node;
    var term := (j: int) => Term(xs, zs, p, j);
    var f := (j: int) => (Node(xs, j) - e) * term(j);
    var g := (j: int) => (e - c) * term(j);
    SumAdd(f, g, |xs|);
    SumScale(e - c, term, |xs|);
    SumEqual(g, i => (e - c) * term(i), |xs|);
    forall j
      ensures (Node(xs, j) - c) * Term(xs, zs, p, j) == f(j) + g(j)
    {
      MulSplit(Node(xs, j), e, c, Term(xs, zs, p, j));
    }
    SumEqual(j => (Node(xs, j) - c) * Term(xs, zs, p, j), i => f(i) + g(i), |xs|);
    SumEqual(f, j => (Node(xs, j) - e) * Term(xs, zs, p, j), |xs|);
    SumEqual(term, j => Term(xs, zs, p, j), |xs|);
  }

  lemma MulSplit(x: int, e: int, c: int, t: int)
    ensures (x - c) * t == (x - e) * t + (e - c) * t
  {
  }

  // Adding the factor t - z is shifting by z.
  lemma ShiftedByFactor(xs: seq<int>, zs: seq<int>, z: int, p: int)
    ensures DividedDifference(xs, [z] + zs, p) == ShiftedSum(xs, zs, z, p)
  {
    hide FieldInverse, Others;
    forall j
      ensures Term(xs, [z] + zs, p, j) == (Node(xs, j) - z) * Term(xs, zs, p, j)
    {
      assert ([z] + zs)[1..] == zs;
      MulAssoc(Node(xs, j) - z, Factors(zs, Node(xs, j)), NodeWeight(xs, j, p));
    }
    SumEqual(j => Term(xs, [z] + zs, p, j), j => (Node(xs, j) - z) * Term(xs, zs, p, j), |xs|);
  }

  lemma DistinctTail(xs: seq<int>, p: int)
    requires p > 0 && xs != [] && Distinct(xs, p)
    ensures Distinct(xs[1..], p) && Distinct(xs[..|xs| - 1], p)
  {
    forall a, b | 0 <= a < |xs[1..]| && 0 <= b < |xs[1..]| && a != b
      ensures (xs[1..][a] - xs[1..][b]) % p != 0
    {
      assert xs[1..][a] == xs[a + 1] && xs[1..][b] == xs[b + 1];
    }
  }

  lemma SingleNode(x: int, p: int)
    requires IsPrime(p)
    ensures DividedDifference([x], [], p) == 1
  {
    var f := (j: int) => Term([x], [], p, j);
    assert Sum(f, 1) == Sum(f, 0) + f(0);
    SumEqual(f, j => Term([x], [], p, j), 1);
    InverseOfOne(p);
    assert [x][1..] == [];
    assert Others([x], x, 0) == 1 * Others([], x, -1) == 1;
  }

  lemma {:induction false} ConstantDifference(xs: seq<int>, p: int)
    requires IsPrime(p) && Distinct(xs, p) && |xs| >= 2
    ensures DividedDifference(xs, [], p) % p == 0
    decreases |xs|
  {
    hide DividedDifference, ShiftedSum;
    var n := |xs| - 1;
    DistinctTail(xs, p);
    if n == 1 {
      assert xs[1..] == [xs[1]] && xs[..1] == [xs[0]];
      SingleNode(xs[0], p);
      SingleNode(xs[1], p);
    } else {
      ConstantDifference(xs[1..], p);
      ConstantDifference(xs[..n], p);
    }
    ShiftedByFirst(xs, [], p);
    ShiftedByLast(xs, [], p);
    var d := DividedDifference(xs, [], p);
    ShiftedSumMoves(xs, [], xs[0], xs[n], p);
    CongFromDiff(ShiftedSum(xs, [], xs[0], p), ShiftedSum(xs, [], xs[n], p), p);
    SmallMod(0, p);
    EuclidLemma(xs[n] - xs[0], d, p);
  }

  // The divided difference of a polynomial of too low a degree vanishes.
  lemma {:induction false} LowDegreeVanishes(xs: seq<int>, zs: seq<int>, p: int)
    requires IsPrime(p) && Distinct(xs, p) && |zs| + 2 <= |xs|
    ensures DividedDifference(xs, zs, p) % p == 0
    decreases |zs|
  {
    hide DividedDifference, ShiftedSum;
    if zs == [] {
      ConstantDifference(xs, p);
    } else {
      var z, rest := zs[0], zs[1..];
      assert zs == [z] + rest;
      DistinctTail(xs, p);
      LowDegreeVanishes(xs[1..], rest, p);
      LowDegreeVanishes(xs, rest, p);
      ShiftedByFactor(xs, rest, z, p);
      ShiftedByFirst(xs, rest, p);
      ShiftedSumMoves(xs, rest, z, xs[0], p);
      DividesCombination(xs[0] - z, DividedDifference(xs, rest, p), ShiftedSum(xs, rest, xs[0], p), p);
    }
  }
}
