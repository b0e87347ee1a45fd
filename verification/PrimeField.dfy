// Integers modulo a prime p: Bezout, Euclid's lemma, inverses, and Fermat's little theorem.
// Field elements are the integers 0 <= x < p.

module PrimeField {
  import opened ModArith

  ghost predicate IsPrime(p: int) {
    2 <= p && forall d {:trigger p % d} :: 2 <= d < p ==> p % d != 0
  }

  datatype Option<+T> = None | Some(value: T)

  // ----- Bezout and inverses

  datatype Bezout = Bezout(gcd: nat, x: int, y: int)

  // The extended Euclidean algorithm.
  function ExtendedGcd(a: nat, b: nat): (r: Bezout)
    decreases b
  {
    if b == 0 then Bezout(a, 1, 0)
    else
      var r := ExtendedGcd(b, a % b);
      Bezout(r.gcd, r.y, r.x - (a / b) * r.y)
  }

  lemma {:induction false} BezoutIdentity(a: nat, b: nat)
    ensures var r := ExtendedGcd(a, b); r.gcd == r.x * a + r.y * b
    decreases b
  {
    if b != 0 {
      BezoutIdentity(b, a % b);
      var r := ExtendedGcd(b, a % b);
      assert a == b * (a / b) + a % b;
      BezoutStep(a, b, a / b, a % b, r.x, r.y);
    }
  }

  lemma BezoutStep(a: int, b: int, q: int, r: int, x: int, y: int)
    requires a == b * q + r
    ensures x * b + y * r == y * a + (x - q * y) * b
  {
    var z := b * q;
    assert y * (z + r) == y * z + y * r;
    assert (x - q * y) * b == x * b - (q * y) * b;
    assert (q * y) * b == y * z;
  }

  lemma {:induction false} GcdDivides(a: nat, b: nat)
    requires a + b > 0
    ensures var g := ExtendedGcd(a, b).gcd; g > 0 && a % g == 0 && b % g == 0
    decreases b
  {
    GcdStep(a, b);
    if b == 0 {
      assert a == 1 * a + 0;
      DivModUnique(a, 1, 0, a);
      SmallMod(0, a);
    } else {
      hide ExtendedGcd;
      var q, r := a / b, a % b;
      GcdDivides(b, r);
      DividesCombination(q, b, r, ExtendedGcd(b, r).gcd);
      assert a == q * b + r;
    }
  }

  lemma GcdStep(a: nat, b: nat)
    ensures ExtendedGcd(a, b).gcd == if b == 0 then a else ExtendedGcd(b, a % b).gcd
  {
  }

  // A number that p does not divide has greatest common divisor 1 with the prime p.
  lemma CoprimeToPrime(a: nat, p: int)
    requires IsPrime(p) && a % p != 0
    ensures ExtendedGcd(a, p).gcd == 1
  {
    var g := ExtendedGcd(a, p).gcd;
    GcdDivides(a, p);
    if g > p {
      SmallMod(p, g);
    }
  }

  // The invert(number, modulo) of the modular-arithmetic library: None where it throws.
  function Invert(a: int, m: int): (r: Option<int>)
    ensures r.Some? ==> 0 <= r.value < m && (a * r.value) % m == 1 % m
  {
    if a == 0 || m <= 0 then None
    else
      var e := ExtendedGcd(a % m, m);
      if e.gcd != 1 then None
      else
        InvertSound(a, m, e.x, e.y);
        Some(e.x % m)
  }

  lemma InvertSound(a: int, m: int, x: int, y: int)
    requires m > 0
    requires ExtendedGcd(a % m, m) == Bezout(1, x, y)
    ensures (a * (x % m)) % m == 1 % m
  {
    BezoutIdentity(a % m, m);
    ModShift(x * (a % m), y, m);
    assert x * (a % m) == (a % m) * x;
    ModNoop(a, x, m);
  }

  // Invert throws on no number that has an inverse.
  lemma InvertComplete(a: int, m: int, x: int)
    requires a != 0 && m > 0
    requires (a * x) % m == 1 % m
    ensures Invert(a, m).Some?
  {
    GcdDivides(a % m, m);
    var g := ExtendedGcd(a % m, m).gcd;
    var k := CongWitness(a * x, 1, m);
    // g divides a % m and m, hence a, hence x * a - k * m == 1
    DividesCombination(a / m, m, a % m, g);
    assert a == (a / m) * m + a % m;
    SmallMod(0, g);
    DividesCombination(-k, m, 0, g);
    DividesCombination(x, a, -k * m, g);
    assert x * a + -k * m == 1;
    if g > 1 {
      SmallMod(1, g);
    }
  }

  // The inverse of a nonzero field element.
  function Inv(a: int, p: int): (r: int)
    requires IsPrime(p) && a % p != 0
    ensures 0 <= r < p && (a * r) % p == 1
  {
    SmallMod(0, p);
    SmallMod(1, p);
    ModMod(a, p);
    CoprimeToPrime(a % p, p);
    Invert(a, p).value
  }

  // ----- Euclid's lemma and cancellation

  lemma EuclidLemma(a: int, b: int, p: int)
    requires IsPrime(p)
    requires (a * b) % p == 0
    ensures a % p == 0 || b % p == 0
  {
    if a % p != 0 {
      var i := Inv(a, p);
      CongMul(a * b, 0, i, i, p);
      CongMul(a * i, 1, b, b, p) by { SmallMod(1, p); }
      assert (a * b) * i == (a * i) * b;
      SmallMod(0, p);
    }
  }

  lemma Cancel(c: int, a: int, b: int, p: int)
    requires IsPrime(p)
    requires c % p != 0
    requires (c * a) % p == (c * b) % p
    ensures a % p == b % p
  {
    CongFromDiff(c * a, c * b, p);
    assert c * a - c * b == c * (a - b);
    EuclidLemma(c, a - b, p);
    CongFromDiff(a, b, p);
  }

  lemma ProductNonzero(a: int, b: int, p: int)
    requires IsPrime(p)
    requires a % p != 0 && b % p != 0
    ensures (a * b) % p != 0
  {
    if (a * b) % p == 0 {
      EuclidLemma(a, b, p);
    }
  }

  // ----- Fermat's little theorem, through the binomial theorem

  function Choose(n: nat, k: nat): nat {
    if k == 0 then 1
    else if n == 0 then 0
    else Choose(n - 1, k) + Choose(n - 1, k - 1)
  }

  lemma {:induction false} ChooseBeyond(n: nat, k: nat)
    requires k > n
    ensures Choose(n, k) == 0
  {
    if n != 0 {
      ChooseBeyond(n - 1, k);
      ChooseBeyond(n - 1, k - 1);
    }
  }

  lemma {:induction false} ChooseSelf(n: nat)
    ensures Choose(n, n) == 1
  {
    if n != 0 {
      ChooseSelf(n - 1);
      ChooseBeyond(n - 1, n);
    }
  }

  // k * C(n, k) == n * C(n - 1, k - 1)
  lemma {:induction false} ChooseAbsorb(n: nat, k: nat)
    requires n >= 1 && k >= 1
    ensures k * Choose(n, k) == n * Choose(n - 1, k - 1)
    decreases n
  {
    if n == 1 {
      if k > 1 {
        ChooseBeyond(1, k);
        ChooseBeyond(0, k - 1);
      } else {
        assert Choose(1, 1) == Choose(0, 1) + Choose(0, 0) == 1;
      }
    } else {
      var a := Choose(n - 1, k - 1);
      ChooseAbsorb(n - 1, k);
      if k >= 2 {
        ChooseAbsorb(n - 1, k - 1);
        var u, v := Choose(n - 2, k - 1), Choose(n - 2, k - 2);
        AbsorbStep(n, k, u, v, Choose(n - 1, k), a);
      } else {
        assert a == 1;
      }
    }
  }

  lemma AbsorbStep(n: int, k: int, u: int, v: int, w: int, a: int)
    requires a == u + v
    requires k * w == (n - 1) * u && (k - 1) * a == (n - 1) * v
    ensures k * (w + a) == n * a
  {
    assert (n - 1) * (u + v) == (n - 1) * u + (n - 1) * v;
    assert k * (w + a) == k * w + (k - 1) * a + a;
    assert n * a == (n - 1) * a + a;
  }

  lemma PrimeDividesChoose(p: int, k: nat)
    requires IsPrime(p) && 1 <= k < p
    ensures Choose(p, k) % p == 0
  {
    ChooseAbsorb(p, k);
    var c := Choose(p - 1, k - 1);
    assert p * c == 0 + c * p;
    ModShift(0, c, p);
    SmallMod(0, p);
    SmallMod(k, p);
    EuclidLemma(k, Choose(p, k), p);
  }

  // The first j terms of the binomial expansion of (a + 1)^n.
  function BinomialSum(n: nat, a: int, j: nat): int {
    if j == 0 then 0 else BinomialSum(n, a, j - 1) + Choose(n, j - 1) * Pow(a, j - 1)
  }

  lemma {:induction false} BinomialPascal(n: nat, a: int, j: nat)
    ensures BinomialSum(n + 1, a, j + 1) == BinomialSum(n, a, j + 1) + a * BinomialSum(n, a, j)
  {
    if j == 0 {
      assert BinomialSum(n + 1, a, 0) == 0 == BinomialSum(n, a, 0);
    } else {
      BinomialPascal(n, a, j - 1);
      var s := BinomialSum(n, a, j - 1);
      PascalStep(a, Choose(n, j), Choose(n, j - 1), Pow(a, j - 1), s);
      assert BinomialSum(n, a, j) == s + Choose(n, j - 1) * Pow(a, j - 1);
      assert Choose(n + 1, j) == Choose(n, j) + Choose(n, j - 1);
    }
  }

  lemma PascalStep(a: int, c: int, d: int, x: int, s: int)
    ensures a * s + (c + d) * (a * x) == c * (a * x) + a * (s + d * x)
  {
    assert (c + d) * (a * x) == c * (a * x) + d * (a * x);
    assert a * (s + d * x) == a * s + a * (d * x);
    assert d * (a * x) == a * (d * x);
  }

  lemma {:induction false} BinomialTheorem(n: nat, a: int)
    ensures Pow(a + 1, n) == BinomialSum(n, a, n + 1)
  {
    if n == 0 {
      assert BinomialSum(0, a, 1) == BinomialSum(0, a, 0) + 1 * Pow(a, 0);
    } else {
      BinomialTheorem(n - 1, a);
      var s := BinomialSum(n - 1, a, n);
      BinomialPascal(n - 1, a, n);
      ChooseBeyond(n - 1, n);
      assert BinomialSum(n - 1, a, n + 1) == s + 0 * Pow(a, n);
      assert (a + 1) * s == s + a * s;
    }
  }

  lemma {:induction false} BinomialSumModPrime(p: int, a: int, j: nat)
    requires IsPrime(p) && 1 <= j <= p
    ensures BinomialSum(p, a, j) % p == 1
  {
    SmallMod(1, p);
    if j == 1 {
      assert BinomialSum(p, a, 1) == BinomialSum(p, a, 0) + 1 * Pow(a, 0);
    } else {
      BinomialSumModPrime(p, a, j - 1);
      PrimeDividesChoose(p, j - 1);
      SmallMod(0, p);
      CongMul(Choose(p, j - 1), 0, Pow(a, j - 1), Pow(a, j - 1), p);
      CongAdd(BinomialSum(p, a, j - 1), 1, Choose(p, j - 1) * Pow(a, j - 1), 0, p);
    }
  }

  lemma FreshmansDream(p: int, a: int)
    requires IsPrime(p)
    ensures Pow(a + 1, p) % p == (Pow(a, p) + 1) % p
  {
    BinomialTheorem(p, a);
    BinomialSumModPrime(p, a, p);
    ChooseSelf(p);
    SmallMod(1, p);
    assert BinomialSum(p, a, p + 1) == BinomialSum(p, a, p) + 1 * Pow(a, p);
    CongAdd(BinomialSum(p, a, p), 1, Pow(a, p), Pow(a, p), p);
  }

  lemma {:induction false} FermatNat(a: nat, p: int)
    requires IsPrime(p)
    ensures Pow(a, p) % p == a % p
  {
    if a == 0 {
      PowOfZero(p);
    } else {
      FermatNat(a - 1, p);
      FreshmansDream(p, a - 1);
      CongAdd(Pow(a - 1, p), a - 1, 1, 1, p);
    }
  }

  // x^(p-1) == 1 for every x that p does not divide.
  lemma Fermat(x: int, p: int)
    requires IsPrime(p)
    requires x % p != 0
    ensures Pow(x, p - 1) % p == 1
  {
    FermatNat(x % p, p);
    ModMod(x, p);
    PowCong(x % p, x, p, p);
    assert x * Pow(x, p - 1) == Pow(x, p);
    Cancel(x, Pow(x, p - 1), 1, p);
    SmallMod(1, p);
  }

  // Exponents that are congruent to 1 modulo p - 1 act as the identity, on zero as well.
  lemma PowerIsIdentity(x: int, e: nat, p: int)
    requires IsPrime(p)
    requires e >= 1 && (e - 1) % (p - 1) == 0
    ensures Pow(x, e) % p == x % p
  {
    SmallMod(0, p);
    if x % p == 0 {
      PowCong(x, 0, e, p);
      PowOfZero(e);
    } else {
      var k := CongWitness(e - 1, 0, p - 1) by { SmallMod(0, p - 1); }
      MulBound(k, p - 1);
      PowerPastFermat(x, e, k, p);
    }
  }

  lemma PowerPastFermat(x: int, e: nat, k: nat, p: int)
    requires IsPrime(p) && x % p != 0
    requires e == 1 + (p - 1) * k
    ensures Pow(x, e) % p == x % p
  {
    Fermat(x, p);
    PowMul(x, p - 1, k);
    SmallMod(1, p);
    PowCong(Pow(x, p - 1), 1, k, p);
    PowOfOne(k);
    var y := Pow(x, e - 1);
    assert e - 1 == (p - 1) * k;
    assert y % p == 1;
    CongMul(x, x, y, 1, p);
  }
}
