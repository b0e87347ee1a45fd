// Square roots of u / v modulo a prime p == 8e + 5, from one power and a square root i of -1.

module SquareRoots {
  import opened ModArith
  import opened PrimeField

  ghost predicate Setting(p: int, e: nat, i: int) {
    IsPrime(p) && p == 8 * e + 5 && (i * i) % p == p - 1
  }

  function Mod(a: int, p: int): int
    requires p > 0
  {
    a % p
  }

  // v * y^2
  function Scaled(v: int, y: int, p: int): int
    requires p > 0
  {
    (v * y * y) % p
  }

  predicate IsRoot(u: int, v: int, y: int, p: int)
    requires p > 0
  {
    Scaled(v, y, p) == u
  }

  // v^3, and v^7 from v^3.
  function Cube(v: int, p: int): int
    requires p > 0
  {
    (v * v * v) % p
  }

  function Seventh(v3: int, v: int, p: int): int
    requires p > 0
  {
    (v3 * v3 * v) % p
  }

  // isNegativeLE: the lowest bit of the residue.
  predicate IsOdd(x: int, p: int)
    requires p > 0
  {
    (x % p) % 2 == 1
  }

  // Negating an odd residue makes it even and keeps it a root.
  lemma EvenRoot(u: int, v: int, x: int, p: int)
    requires p > 0 && p % 2 == 1 && 0 <= x < p
    ensures IsOdd(x, p) <==> x % 2 == 1
    ensures x % 2 == 1 ==> 0 <= Mod(-x, p) < p && Mod(-x, p) % 2 == 0
    ensures IsRoot(u, v, x, p) ==> IsRoot(u, v, Mod(-x, p), p)
  {
    SmallMod(x, p);
    NegatedOdd(x, p);
    NegatedRoot(v, x, p);
  }

  lemma NegatedOdd(x: int, p: int)
    requires p % 2 == 1 && 0 <= x < p
    ensures x % 2 == 1 ==> 0 <= (-x) % p < p && (-x) % p % 2 == 0
  {
    if x % 2 == 1 {
      DivModUnique(-x, -1, p - x, p);
    }
  }

  lemma NegatedRoot(v: int, x: int, p: int)
    requires p > 0
    ensures Scaled(v, Mod(-x, p), p) == Scaled(v, x, p)
  {
    ModMod(-x, p);
    SquareCong(v, Mod(-x, p), -x, p);
    NegatedSquare(v, x);
  }

  lemma NegatedSquare(v: int, x: int)
    ensures v * -x * -x == v * x * x
  {
  }

  lemma SquareCong(v: int, x: int, y: int, p: int)
    requires p > 0 && x % p == y % p
    ensures (v * x * x) % p == (v * y * y) % p
  {
    CongMul(v, v, x, y, p);
    CongMul(v * x, v * y, x, y, p);
  }

  lemma RootOfMinusOne(p: int, e: nat, i: int)
    requires Setting(p, e, i)
    ensures (-1) % p == p - 1 && 1 % p == 1 && (-i) % p != 1
  {
    SmallMod(1, p);
    DivModUnique(-1, -1, p - 1, p);
    SquareOfOne(i, p);
  }

  lemma SquareOfOne(i: int, p: int)
    requires p > 1
    ensures (-i) % p == 1 ==> (i * i) % p == 1
  {
    SmallMod(1, p);
    if (-i) % p == 1 {
      CongMul(-i, 1, -i, 1, p);
      NegatedSquare(1, i);
    }
  }

  // The fourth root of unity (u * v^7)^((p - 1) / 4) that decides the case.
  ghost function Unity(u: int, v7: int, e: nat): int {
    Pow(u * v7, 2 * e + 1)
  }

  lemma CandidateSquare(u: int, v: int, a: int, q: int)
    ensures v * (u * a * q) * (u * a * q) == u * ((u * (a * a * v)) * (q * q))
  {
    assert v * (u * a * q) * (u * a * q) == (u * u) * ((v * (a * a)) * (q * q));
    assert (u * (a * a * v)) * (q * q) == u * ((v * (a * a)) * (q * q));
  }

  lemma {:induction false} PowSquared(y: int, e: nat)
    ensures Pow(y, 2 * e + 1) == y * (Pow(y, e) * Pow(y, e))
  {
    PowAdd(y, e, e);
    assert Pow(y, 2 * e + 1) == y * Pow(y, 2 * e);
  }

  // v * x^2 is u times the root of unity.
  lemma KeyIdentity(u: int, v: int, v3: int, v7: int, pow: int, p: int, e: nat)
    requires p > 0 && v7 % p == (v3 * v3 * v) % p
    requires pow % p == Pow(u * v7, e) % p
    ensures var x := (u * v3 * pow) % p;
            (v * x * x) % p == (u * Unity(u, v7, e)) % p
  {
    hide Pow;
    var q := Pow(u * v7, e);
    var x := (u * v3 * pow) % p;
    ModMod(u * v3 * pow, p);
    CongMul(u * v3, u * v3, pow, q, p);
    SquareCong(v, x, u * v3 * q, p);
    CandidateSquare(u, v, v3, q);
    CongMul(u, u, v3 * v3 * v, v7, p);
    CongMul(u * (v3 * v3 * v), u * v7, q * q, q * q, p);
    CongMul(u, u, (u * (v3 * v3 * v)) * (q * q), (u * v7) * (q * q), p);
    PowSquared(u * v7, e);
  }

  // Square roots of one number modulo a prime differ by sign.
  lemma RootOfSquare(w: int, c: int, p: int)
    requires IsPrime(p) && (w * w) % p == (c * c) % p
    ensures w % p == c % p || w % p == (-c) % p
  {
    CongFromDiff(w * w, c * c, p);
    assert w * w - c * c == (w - c) * (w + c);
    EuclidLemma(w - c, w + c, p);
    CongFromDiff(w, c, p);
    CongFromDiff(w, -c, p);
    assert w - -c == w + c;
  }

  lemma UnityToTheFourth(y: int, p: int, e: nat)
    requires IsPrime(p) && p == 8 * e + 5 && y % p != 0
    ensures var w := Pow(y, 2 * e + 1);
            ((w * w) * (w * w)) % p == 1
  {
    hide Pow;
    var f := 2 * e + 1;
    PowAdd(y, f, f);
    PowAdd(y, f + f, f + f);
    assert (f + f) + (f + f) == p - 1;
    Fermat(y, p);
  }

  // The root of unity is 1 or -1, or it squares to -1.
  lemma UnityCases(u: int, v7: int, p: int, e: nat, i: int)
    requires Setting(p, e, i) && (u * v7) % p != 0
    ensures var w := Unity(u, v7, e);
            w % p == 1 || w % p == (-1) % p || ((w * w) % p == (-1) % p)
  {
    hide Pow;
    var w := Unity(u, v7, e);
    UnityToTheFourth(u * v7, p, e);
    RootOfMinusOne(p, e, i);
    RootOfSquare(w * w, 1, p);
    if (w * w) % p == 1 % p {
      RootOfSquare(w, 1, p);
    }
  }

  // If u / v is a square, u * v^7 is the square of v^4 * y.
  lemma SquareOfRoot(u: int, v: int, v3: int, v7: int, y: int, p: int)
    requires p > 0 && IsRoot(u, v, y, p)
    requires v3 % p == (v * v * v) % p && v7 % p == (v3 * v3 * v) % p
    ensures var z := v * v * v * v * y; (u * v7) % p == (z * z) % p
  {
    var a := v * v * v;
    CongMul(v3, a, v3, a, p);
    CongMul(v3 * v3, a * a, v, v, p);
    ModMod(v * y * y, p);
    CongMul(u, v * y * y, v7, a * a * v, p);
    var b := v * v;
    assert a == b * v && v * v * v * v * y == (b * b) * y by { MulAssoc(b, v, v); }
    SquareAlgebra(v, y, b);
  }

  lemma SquareAlgebra(v: int, y: int, b: int)
    requires b == v * v
    ensures (v * y * y) * ((b * v) * (b * v) * v) == ((b * b) * y) * ((b * b) * y)
  {
    assert (b * v) * (b * v) * v == (b * b) * (b * v);
    assert (v * y * y) * ((b * b) * (b * v)) == (y * y) * ((b * b) * (b * (v * v)));
    assert (y * y) * ((b * b) * (b * b)) == ((b * b) * y) * ((b * b) * y);
  }

  lemma UnityOfSquare(u: int, v7: int, z: int, p: int, e: nat)
    requires IsPrime(p) && p == 8 * e + 5 && (u * v7) % p == (z * z) % p && z % p != 0
    ensures var w := Unity(u, v7, e); (w * w) % p == 1
  {
    hide Pow;
    var f := 2 * e + 1;
    PowAdd(u * v7, f, f);
    PowCong(u * v7, z * z, f + f, p);
    PowOfProduct(z, z, f + f);
    PowAdd(z, f + f, f + f);
    assert (f + f) + (f + f) == p - 1;
    Fermat(z, p);
  }

  // With neither 1 nor -1 as root of unity there is no root.
  lemma NoRoot(u: int, v: int, v3: int, v7: int, y: int, p: int, e: nat, i: int)
    requires Setting(p, e, i) && 0 < u < p
    requires v3 % p == (v * v * v) % p && v7 % p == (v3 * v3 * v) % p
    requires var w := Unity(u, v7, e); (w * w) % p == (-1) % p
    ensures !IsRoot(u, v, y, p)
  {
    hide Unity;
    RootOfMinusOne(p, e, i);
    SmallMod(u, p);
    if IsRoot(u, v, y, p) {
      NonzeroRoot(u, v, y, p);
      SquareOfRoot(u, v, v3, v7, y, p);
      UnityOfSquare(u, v7, v * v * v * v * y, p, e);
    }
  }

  lemma NonzeroRoot(u: int, v: int, y: int, p: int)
    requires IsPrime(p) && 0 < u < p && IsRoot(u, v, y, p)
    ensures (v * v * v * v * y) % p != 0
  {
    SmallMod(0, p);
    if v % p == 0 {
      ZeroProduct(v, y, p);
    }
    if y % p == 0 {
      SquareCong(v, y, 0, p);
    }
    ProductNonzero(v, v, p);
    ProductNonzero(v * v, v, p);
    ProductNonzero(v * v * v, v, p);
    ProductNonzero(v * v * v * v, y, p);
  }

  lemma ZeroProduct(v: int, y: int, p: int)
    requires p > 0 && v % p == 0
    ensures (v * y * y) % p == 0
  {
    SmallMod(0, p);
    CongMul(v, 0, y * y, y * y, p);
    MulAssoc(v, y, y);
  }

  // The two candidates x and i * x: one of them is a root exactly if there is a root at all.
  lemma ChosenRoot(u: int, v: int, v3: int, v7: int, pow: int, p: int, e: nat, i: int)
    requires Setting(p, e, i) && 0 <= u < p
    requires v3 % p == (v * v * v) % p && v7 % p == (v3 * v3 * v) % p
    requires pow % p == Pow(u * v7, e) % p
    ensures var x := (u * v3 * pow) % p;
            var vx2, root2 := (v * x * x) % p, (x * i) % p;
            var useRoot1, useRoot2, noRoot := vx2 == u, vx2 == (-u) % p, vx2 == (-u * i) % p;
            && (useRoot1 || useRoot2 <==> exists y :: IsRoot(u, v, y, p))
            && (useRoot1 || useRoot2 ==> IsRoot(u, v, if useRoot2 || noRoot then root2 else x, p))
  {
    hide Unity, Pow;
    var x := (u * v3 * pow) % p;
    if u == 0 {
      ZeroNumerator(v, v3, pow, p, i);
    } else if v % p == 0 {
      ZeroDenominator(u, v, v3, pow, p);
    } else {
      KeyIdentity(u, v, v3, v7, pow, p, e);
      NonzeroSeventh(u, v, v3, v7, p);
      UnityCases(u, v7, p, e, i);
      Decide(u, v, v3, v7, x, p, e, i);
    }
  }

  lemma ZeroNumerator(v: int, v3: int, pow: int, p: int, i: int)
    requires p > 0
    ensures var x := (0 * v3 * pow) % p; x == 0 && (v * x * x) % p == 0 && (x * i) % p == 0 && IsRoot(0, v, 0, p)
  {
    SmallMod(0, p);
  }

  lemma ZeroDenominator(u: int, v: int, v3: int, pow: int, p: int)
    requires 0 < u < p && v % p == 0 && v3 % p == (v * v * v) % p
    ensures var x := (u * v3 * pow) % p; (v * x * x) % p == 0 && (-u) % p != 0
    ensures !exists y :: IsRoot(u, v, y, p)
  {
    SmallMod(0, p);
    var x := (u * v3 * pow) % p;
    ZeroProduct(v, x, p);
    DivModUnique(-u, -1, p - u, p);
    forall y ensures !IsRoot(u, v, y, p) {
      ZeroProduct(v, y, p);
    }
  }

  lemma NonzeroSeventh(u: int, v: int, v3: int, v7: int, p: int)
    requires IsPrime(p) && 0 < u < p && v % p != 0
    requires v3 % p == (v * v * v) % p && v7 % p == (v3 * v3 * v) % p
    ensures (u * v7) % p != 0
  {
    SmallMod(u, p);
    ProductNonzero(v, v, p);
    ProductNonzero(v * v, v, p);
    ProductNonzero(v3, v3, p);
    ProductNonzero(v3 * v3, v, p);
    ProductNonzero(u, v7, p);
  }

  // Comparing v * x^2 == u * w with u, -u and -u * i.
  lemma Decide(u: int, v: int, v3: int, v7: int, x: int, p: int, e: nat, i: int)
    requires Setting(p, e, i) && 0 < u < p
    requires v3 % p == (v * v * v) % p && v7 % p == (v3 * v3 * v) % p
    requires var w := Unity(u, v7, e);
             && (v * x * x) % p == (u * w) % p
             && (w % p == 1 || w % p == (-1) % p || (w * w) % p == (-1) % p)
    ensures var vx2, root2 := (v * x * x) % p, (x * i) % p;
            var useRoot1, useRoot2, noRoot := vx2 == u, vx2 == (-u) % p, vx2 == (-u * i) % p;
            && (useRoot1 || useRoot2 <==> exists y :: IsRoot(u, v, y, p))
            && (useRoot1 || useRoot2 ==> IsRoot(u, v, if useRoot2 || noRoot then root2 else x, p))
  {
    hide Unity;
    var w := Unity(u, v7, e);
    RootOfMinusOne(p, e, i);
    SmallMod(u, p);
    if w % p == 1 {
      CongMul(u, u, w, 1, p);
      OnlyFirst(u, p, e, i);
      assert IsRoot(u, v, x, p);
    } else if w % p == (-1) % p {
      CongMul(u, u, w, -1, p);
      SecondIsRoot(u, v, x, p, e, i);
      assert IsRoot(u, v, (x * i) % p, p);
    } else {
      NotRoots(u, w, p);
      forall y ensures !IsRoot(u, v, y, p) {
        NoRoot(u, v, v3, v7, y, p, e, i);
      }
    }
  }

  lemma OnlyFirst(u: int, p: int, e: nat, i: int)
    requires Setting(p, e, i) && 0 < u < p
    ensures (-u) % p != u && (-u * i) % p != u
  {
    RootOfMinusOne(p, e, i);
    SmallMod(u, p);
    DivModUnique(-u, -1, p - u, p);
    if (-u * i) % p == u {
      assert -u * i == u * -i;
      Cancel(u, 1, -i, p);
    }
  }

  lemma SecondIsRoot(u: int, v: int, x: int, p: int, e: nat, i: int)
    requires Setting(p, e, i) && 0 < u < p && (v * x * x) % p == (-u) % p
    ensures IsRoot(u, v, (x * i) % p, p)
  {
    RootOfMinusOne(p, e, i);
    ModMod(x * i, p);
    SquareCong(v, (x * i) % p, x * i, p);
    CongMul(v * x * x, -u, i * i, -1, p);
    SecondAlgebra(v, x, i);
    SmallMod(u, p);
  }

  lemma SecondAlgebra(v: int, x: int, i: int)
    ensures v * (x * i) * (x * i) == (v * x * x) * (i * i)
  {
    MulRegroup(x, i, x, i);
    MulAssoc(v, x * i, x * i);
    MulAssoc(v, x * x, i * i);
    MulAssoc(v, x, x);
  }

  lemma NotRoots(u: int, w: int, p: int)
    requires IsPrime(p) && p > 2 && 0 < u < p && w % p != 1 && w % p != (-1) % p
    ensures (u * w) % p != u && (u * w) % p != (-u) % p
  {
    SmallMod(u, p);
    SmallMod(1, p);
    if (u * w) % p == u {
      Cancel(u, w, 1, p);
    }
    if (u * w) % p == (-u) % p {
      assert -u == u * -1;
      Cancel(u, w, -1, p);
    }
  }
}
