// The square root of u / v modulo p = 2^255 - 19 (section 5.1.3 of RFC 8032), computed with a fixed addition chain.

module Ed25519Root {
  import opened ModArith
  import opened PrimeField
  import opened SquareRoots

  const P: int := 0x7fffffffffffffffffffffffffffffffffffffffffffffffffffffffffffffed

  const SQRT_M1: int := 19681161376707505956807079304988542015446066515923890162744021073123829784752

  // ----- the addition chain, for any modulus

  // k squarings modulo m.
  function Pow2(x: int, k: nat, m: int): int
    requires m > 0
  {
    if k == 0 then x else (Pow2(x, k - 1, m) * Pow2(x, k - 1, m)) % m
  }

  // x^(2^252 - 3), and x^3 as a by-product.
  function Pow252Minus3(x: int, m: int): (int, int)
    requires m > 0
  {
    var x2 := (x * x) % m;
    var b2 := (x2 * x) % m;
    var b4 := (Pow2(b2, 2, m) * b2) % m;
    var b5 := (Pow2(b4, 1, m) * x) % m;
    var b10 := (Pow2(b5, 5, m) * b5) % m;
    var b20 := (Pow2(b10, 10, m) * b10) % m;
    var b40 := (Pow2(b20, 20, m) * b20) % m;
    var b80 := (Pow2(b40, 40, m) * b40) % m;
    var b160 := (Pow2(b80, 80, m) * b80) % m;
    var b240 := (Pow2(b160, 80, m) * b80) % m;
    var b250 := (Pow2(b240, 10, m) * b10) % m;
    ((Pow2(b250, 2, m) * x) % m, b2)
  }

  lemma {:induction false} Pow2IsPower(x: int, k: nat, m: int)
    requires m > 0
    ensures Pow2(x, k, m) % m == Pow(x, Exp2(k)) % m
  {
    if k == 0 {
      assert Exp2(0) == 1 && Pow(x, 1) == x * Pow(x, 0);
    } else {
      Pow2IsPower(x, k - 1, m);
      var h, e := Pow2(x, k - 1, m), Exp2(k - 1);
      ModMod(h * h, m);
      CongMul(h, Pow(x, e), h, Pow(x, e), m);
      PowAdd(x, e, e);
      assert Exp2(k) == e + e;
    }
  }

  // n ones in binary.
  function Ones(n: nat): nat {
    Exp2(n) - 1
  }

  // a is x to the power of n ones, modulo m.
  ghost predicate IsOnesPower(a: int, x: int, n: nat, m: int)
    requires m > 0
  {
    a % m == Pow(x, Ones(n)) % m
  }

  // Shifting n ones up by k places and filling them with the k ones of b.
  lemma ChainStep(x: int, a: int, n: nat, b: int, k: nat, m: int)
    requires m > 0
    requires IsOnesPower(a, x, n, m) && IsOnesPower(b, x, k, m)
    ensures IsOnesPower((Pow2(a, k, m) * b) % m, x, n + k, m)
  {
    var e, s := Ones(n), Exp2(k);
    ShiftedPower(x, a, e, k, m);
    CongMul(Pow2(a, k, m), Pow(x, e * s), b, Pow(x, Ones(k)), m);
    ModMod(Pow2(a, k, m) * b, m);
    PowAdd(x, e * s, Ones(k));
    OnesShift(n, k);
  }

  lemma OnesShift(n: nat, k: nat)
    ensures Ones(n) * Exp2(k) >= 0
    ensures Ones(n) * Exp2(k) + Ones(k) == Ones(n + k)
  {
    PowAdd(2, n, k);
    MulNonneg(Ones(n), Exp2(k));
    assert (Exp2(n) - 1) * Exp2(k) == Exp2(n) * Exp2(k) - Exp2(k);
  }

  lemma ShiftedPower(x: int, a: int, e: nat, k: nat, m: int)
    requires m > 0
    requires a % m == Pow(x, e) % m
    ensures e * Exp2(k) >= 0
    ensures Pow2(a, k, m) % m == Pow(x, e * Exp2(k)) % m
  {
    Pow2IsPower(a, k, m);
    PowCong(a, Pow(x, e), Exp2(k), m);
    PowMul(x, e, Exp2(k));
  }

  function ChainExponent(): nat {
    Ones(250) * Exp2(2) + 1
  }

  // The chain computes the power 2^252 - 3 of every x.
  lemma ChainIsPower(x: int, m: int)
    requires m > 0
    ensures Pow252Minus3(x, m).0 % m == Pow(x, ChainExponent()) % m
    ensures 0 <= Pow252Minus3(x, m).0 < m
    ensures Pow252Minus3(x, m).1 % m == Pow(x, 3) % m
  {
    hide Pow, Exp2, Ones, Pow2, IsOnesPower;
    var x2 := (x * x) % m;
    var b2 := (x2 * x) % m;
    var b4 := (Pow2(b2, 2, m) * b2) % m;
    var b5 := (Pow2(b4, 1, m) * x) % m;
    var b10 := (Pow2(b5, 5, m) * b5) % m;
    var b20 := (Pow2(b10, 10, m) * b10) % m;
    var b40 := (Pow2(b20, 20, m) * b20) % m;
    var b80 := (Pow2(b40, 40, m) * b40) % m;
    var b160 := (Pow2(b80, 80, m) * b80) % m;
    var b240 := (Pow2(b160, 80, m) * b80) % m;
    var b250 := (Pow2(b240, 10, m) * b10) % m;
    ChainStart(x, m);
    ChainStep(x, b2, 2, b2, 2, m);
    ChainStep(x, b4, 4, x, 1, m);
    ChainStep(x, b5, 5, b5, 5, m);
    ChainStep(x, b10, 10, b10, 10, m);
    ChainStep(x, b20, 20, b20, 20, m);
    ChainStep(x, b40, 40, b40, 40, m);
    ChainStep(x, b80, 80, b80, 80, m);
    ChainStep(x, b160, 160, b80, 80, m);
    ChainStep(x, b240, 240, b10, 10, m);
    ChainEnd(x, b250, m);
  }

  lemma SmallPowers(x: int)
    ensures Pow(x, 1) == x && Pow(x, 3) == x * (x * x)
  {
    assert Pow(x, 0) == 1;
    assert Pow(x, 1) == x * 1;
    assert Pow(x, 2) == x * x;
  }

  lemma ChainStart(x: int, m: int)
    requires m > 0
    ensures IsOnesPower(x, x, 1, m) && IsOnesPower((((x * x) % m) * x) % m, x, 2, m)
    ensures ((((x * x) % m) * x) % m) % m == Pow(x, 3) % m
  {
    assert Ones(1) == 1 && Ones(2) == 3;
    SmallPowers(x);
    hide Pow;
    ModNoop(x * x, x, m);
    ModMod((x * x) * x, m);
    MulCommutes(x * x, x);
  }

  lemma ChainEnd(x: int, b: int, m: int)
    requires m > 0
    requires IsOnesPower(b, x, 250, m)
    ensures ((Pow2(b, 2, m) * x) % m) % m == Pow(x, ChainExponent()) % m
  {
    hide Ones, Exp2;
    ShiftedPower(x, b, Ones(250), 2, m);
    var e := Ones(250) * Exp2(2);
    CongMulLeft(Pow2(b, 2, m), Pow(x, e), x, m);
    ModMod(Pow2(b, 2, m) * x, m);
    MulCommutes(Pow(x, e), x);
    assert Pow(x, e + 1) == x * Pow(x, e);
  }

  // 2^252 - 3 == (p - 5) / 8.
  lemma ChainExponentValue()
    ensures ChainExponent() == Exp2(252) - 3
    ensures 8 * ChainExponent() + 5 == P
    ensures P == Exp2(255) - 19
  {
    PowersOfTwo();
    OnesShift(250, 2);
    assert Exp2(2) == 4;
  }

  lemma ExponentSum(a: nat, b: nat, x: int, y: int)
    requires Exp2(a) == x && Exp2(b) == y
    ensures Exp2(a + b) == x * y
  {
    PowAdd(2, a, b);
  }

  lemma SmallPowersOfTwo()
    ensures Exp2(2) == 4 && Exp2(3) == 8 && Exp2(10) == 0x400
  {
    assert Pow(2, 5) == 32;
    PowAdd(2, 5, 5);
  }

  lemma PowersOfTwo()
    ensures Exp2(252) == 7237005577332262213973186563042994240829374041602535252466099000494570602496
    ensures Exp2(255) == 8 * 7237005577332262213973186563042994240829374041602535252466099000494570602496
    ensures Exp2(252) == 4 * Exp2(250)
  {
    hide Pow, Exp2;
    SmallPowersOfTwo();
    ExponentSum(10, 10, 0x400, 0x400);
    ExponentSum(20, 20, 0x100000, 0x100000);
    ExponentSum(40, 40, 0x10000000000, 0x10000000000);
    ExponentSum(80, 80, 0x100000000000000000000, 0x100000000000000000000);
    ExponentSum(160, 80, 0x10000000000000000000000000000000000000000, 0x100000000000000000000);
    ExponentSum(240, 10, 0x1000000000000000000000000000000000000000000000000000000000000, 0x400);
    ExponentSum(250, 2, 0x400000000000000000000000000000000000000000000000000000000000000, 4);
    ExponentSum(252, 3, 0x1000000000000000000000000000000000000000000000000000000000000000, 8);
  }

  // ----- the square root

  lemma SqrtOfMinusOne()
    ensures (SQRT_M1 * SQRT_M1) % P == P - 1
  {
  }

  lemma Ed25519Setting()
    requires IsPrime(P)
    ensures Setting(P, ChainExponent(), SQRT_M1) && P % 2 == 1
  {
    hide IsPrime, ChainExponent;
    ChainExponentValue();
    SqrtOfMinusOne();
  }

  datatype Ratio = Ratio(isValid: bool, value: int)

  // The candidate (u * v^3) * (u * v^7)^((p - 5) / 8).
  function Candidate(u: int, v3: int, v7: int, p: int): int
    requires p > 0
  {
    (u * v3 * Pow252Minus3(u * v7, p).0) % p
  }

  // Whether the candidates are roots, and whether there is any root at all.
  lemma Candidates(u: int, v: int, p: int, i: int)
    requires Setting(p, ChainExponent(), i) && 0 <= u < p
    ensures var x := Candidate(u, Cube(v, p), Seventh(Cube(v, p), v, p), p);
            var vx2, root2 := Scaled(v, x, p), Mod(x * i, p);
            var useRoot1, useRoot2, noRoot := vx2 == u, vx2 == Mod(-u, p), vx2 == Mod(-u * i, p);
            && 0 <= x < p && 0 <= root2 < p
            && (useRoot1 || useRoot2 <==> exists y :: IsRoot(u, v, y, p))
            && (useRoot1 || useRoot2 ==> IsRoot(u, v, if useRoot2 || noRoot then root2 else x, p))
  {
    hide Pow252Minus3, IsRoot, ChainExponent, Pow;
    var v3 := Cube(v, p);
    var v7 := Seventh(v3, v, p);
    ModMod(v * v * v, p);
    ModMod(v3 * v3 * v, p);
    ChainIsPower(u * v7, p);
    ChosenRoot(u, v, v3, v7, Pow252Minus3(u * v7, p).0, p, ChainExponent(), i);
  }

  method UvRatio(u: int, v: int) returns (r: Ratio)
    requires IsPrime(P) && 0 <= u < P
    ensures r.isValid <==> exists y :: IsRoot(u, v, y, P)
    ensures r.isValid ==> IsRoot(u, v, r.value, P)
    ensures 0 <= r.value < P && r.value % 2 == 0
  {
    hide *;
    var v3 := Cube(v, P);
    var v7 := Seventh(v3, v, P);
    var x := Candidate(u, v3, v7, P);
    var vx2 := Scaled(v, x, P);
    var root1 := x;
    var root2 := Mod(x * SQRT_M1, P);
    var useRoot1 := vx2 == u;
    var useRoot2 := vx2 == Mod(-u, P);
    var noRoot := vx2 == Mod(-u * SQRT_M1, P);
    Ed25519Setting();
    Candidates(u, v, P, SQRT_M1);
    ghost var c := if useRoot2 || noRoot then root2 else root1;
    if useRoot1 {
      x := root1;
    }
    if useRoot2 || noRoot {
      x := root2;
    }
    EvenRoot(u, v, c, P);
    if IsOdd(x, P) {
      x := Mod(-x, P);
    }
    r := Ratio(useRoot1 || useRoot2, x);
  }
}
