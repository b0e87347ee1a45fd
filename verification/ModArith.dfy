// Integer arithmetic modulo m. Congruence of a and b modulo m is written a % m == b % m.

module ModArith {

  // ----- multiplication

  lemma MulNonneg(a: int, b: int)
    requires a >= 0 && b >= 0
    ensures a * b >= 0
  {
  }

  lemma MulAssoc(a: int, b: int, c: int)
    ensures (a * b) * c == a * (b * c)
  {
  }

  lemma MulCommutes(a: int, b: int)
    ensures a * b == b * a
  {
  }

  lemma MulRotate(x: int, a: int, b: int)
    ensures x * (a * b) == a * (b * x)
  {
    MulAssoc(x, a, b);
    MulAssoc(a, x, b);
  }

  lemma MulRegroup(a: int, b: int, x: int, y: int)
    ensures (a * b) * (x * y) == (a * x) * (b * y)
  {
    MulAssoc(a, b, x * y);
    MulAssoc(b, x, y);
    MulAssoc(x, b, y);
    MulAssoc(a, x, b * y);
  }

  // ----- division and congruence

  lemma DivModUnique(a: int, q: int, r: int, m: int)
    requires 0 <= r < m
    requires a == q * m + r
    ensures a / m == q && a % m == r
  {
    var q', r' := a / m, a % m;
    assert (q - q') * m == r' - r;
    MulBound(q - q', m);
  }

  // A nonzero multiple of m is at least m away from zero.
  lemma MulBound(d: int, m: int)
    requires m >= 0
    ensures d >= 0 ==> d * m >= 0
    ensures d >= 1 ==> d * m >= m
    ensures d <= -1 ==> d * m <= -m
  {
    if d >= 1 {
      assert (d - 1) * m >= 0;
    } else {
      assert (d + 1) * m <= m;
    }
  }

  lemma SmallMod(a: int, m: int)
    requires 0 <= a < m
    ensures a % m == a
  {
    DivModUnique(a, 0, a, m);
  }

  // Adding a multiple of the modulus changes nothing.
  lemma ModShift(a: int, k: int, m: int)
    requires m > 0
    ensures (a + k * m) % m == a % m
  {
    DivModUnique(a + k * m, a / m + k, a % m, m);
  }

  lemma ModMod(a: int, m: int)
    requires m > 0
    ensures (a % m) % m == a % m
  {
    SmallMod(a % m, m);
  }

  lemma ReduceOnce(total: int, u: int, carry: bool, m: int)
    requires 0 <= u < m
    requires total == u + (if carry then m else 0)
    ensures u == total % m
  {
    DivModUnique(total, if carry then 1 else 0, u, m);
  }

  // The converse of ModShift: congruent numbers differ by a multiple of the modulus.
  lemma CongWitness(a: int, b: int, m: int) returns (k: int)
    requires m > 0
    requires a % m == b % m
    ensures a == b + k * m
  {
    k := a / m - b / m;
    assert a == (a / m) * m + a % m;
    assert b == (b / m) * m + b % m;
  }

  lemma CongFromDiff(a: int, b: int, m: int)
    requires m > 0
    ensures a % m == b % m <==> (a - b) % m == 0
  {
    if a % m == b % m {
      var k := CongWitness(a, b, m);
      ModShift(0, k, m);
      SmallMod(0, m);
    }
    if (a - b) % m == 0 {
      assert a - b == ((a - b) / m) * m;
      ModShift(b, (a - b) / m, m);
    }
  }

  lemma CongAdd(a: int, a': int, b: int, b': int, m: int)
    requires m > 0
    requires a % m == a' % m && b % m == b' % m
    ensures (a + b) % m == (a' + b') % m
  {
    var k := CongWitness(a, a', m);
    var l := CongWitness(b, b', m);
    assert a + b == (a' + b') + (k + l) * m;
    ModShift(a' + b', k + l, m);
  }

  lemma CongSub(a: int, a': int, b: int, b': int, m: int)
    requires m > 0
    requires a % m == a' % m && b % m == b' % m
    ensures (a - b) % m == (a' - b') % m
  {
    var k := CongWitness(a, a', m);
    var l := CongWitness(b, b', m);
    assert a - b == (a' - b') + (k - l) * m;
    ModShift(a' - b', k - l, m);
  }

  lemma CongMulLeft(a: int, a': int, b: int, m: int)
    requires m > 0
    requires a % m == a' % m
    ensures (a * b) % m == (a' * b) % m
  {
    var k := CongWitness(a, a', m);
    ShiftedProduct(a', k, b, m);
    ModShift(a' * b, k * b, m);
  }

  lemma ShiftedProduct(a: int, k: int, b: int, m: int)
    ensures (a + k * m) * b == a * b + (k * b) * m
  {
    MulAssoc(k, m, b);
    MulAssoc(k, b, m);
    assert m * b == b * m;
    assert (a + k * m) * b == a * b + (k * m) * b;
  }

  lemma CongMul(a: int, a': int, b: int, b': int, m: int)
    requires m > 0
    requires a % m == a' % m && b % m == b' % m
    ensures (a * b) % m == (a' * b') % m
  {
    CongMulLeft(a, a', b, m);
    CongMulLeft(b, b', a', m);
    assert a' * b == b * a' && a' * b' == b' * a';
  }

  // A divisor of b and of r divides q * b + r.
  lemma DividesCombination(q: int, b: int, r: int, g: int)
    requires g > 0
    requires b % g == 0 && r % g == 0
    ensures (q * b + r) % g == 0
  {
    SmallMod(0, g);
    CongMulLeft(b, 0, q, g);
    assert b * q == q * b;
    CongAdd(q * b, 0, r, 0, g);
  }

  // Reducing the operands first does not change a sum, a difference or a product.
  lemma ModNoop(a: int, b: int, m: int)
    requires m > 0
    ensures (a % m + b) % m == (a + b) % m
    ensures (a % m - b) % m == (a - b) % m
    ensures (a - b % m) % m == (a - b) % m
    ensures (a % m * b) % m == (a * b) % m
    ensures (a * (b % m)) % m == (a * b) % m
  {
    ModMod(a, m);
    ModMod(b, m);
    CongAdd(a % m, a, b, b, m);
    CongSub(a % m, a, b, b, m);
    CongSub(a, a, b % m, b, m);
    CongMul(a % m, a, b, b, m);
    CongMul(a, a, b % m, b, m);
  }

  // ----- rounding up

  // Rounding a quotient up.
  function CeilDiv(a: int, b: int): int
    requires b > 0
  {
    -((-a) / b)
  }

  // k whole steps of w stay below n exactly if k is below the rounded quotient.
  lemma BelowCeil(n: int, w: int, k: int)
    requires w > 0
    ensures k < CeilDiv(n, w) <==> k * w < n
  {
    var q := (-n) / w;
    assert -n == q * w + (-n) % w;
    assert (k + q) * w == k * w + q * w;
    MulBound(k + q, w);
  }

  lemma CeilPositive(n: int, w: int)
    requires w > 0
    ensures CeilDiv(n, w) > 0 <==> n > 0
  {
    BelowCeil(n, w, 0);
  }

  function Min(a: int, b: int): int { if a <= b then a else b }

  // (-1)^n
  function Sign(n: int): int { if n % 2 == 0 then 1 else -1 }

  // ----- powers

  function Pow(b: int, e: nat): int {
    if e == 0 then 1 else b * Pow(b, e - 1)
  }

  lemma {:induction false} PowAdd(b: int, e: nat, f: nat)
    ensures Pow(b, e + f) == Pow(b, e) * Pow(b, f)
    decreases e
  {
    if e == 0 {
      assert Pow(b, 0) == 1;
    } else {
      PowAdd(b, e - 1, f);
      assert e + f - 1 == (e - 1) + f;
      assert Pow(b, e + f) == b * (Pow(b, e - 1) * Pow(b, f));
      assert b * (Pow(b, e - 1) * Pow(b, f)) == (b * Pow(b, e - 1)) * Pow(b, f);
    }
  }

  lemma {:induction false} PowMul(b: int, e: nat, f: nat)
    ensures 0 <= e * f
    ensures Pow(Pow(b, e), f) == Pow(b, e * f)
    decreases f
  {
    if f == 0 {
      assert e * f == 0;
    } else {
      PowMul(b, e, f - 1);
      assert e * f == e + e * (f - 1);
      PowAdd(b, e, e * (f - 1));
    }
  }

  lemma {:induction false} PowOfProduct(a: int, b: int, e: nat)
    ensures Pow(a * b, e) == Pow(a, e) * Pow(b, e)
  {
    if e != 0 {
      PowOfProduct(a, b, e - 1);
      MulRegroup(a, b, Pow(a, e - 1), Pow(b, e - 1));
    }
  }

  lemma {:induction false} PowCong(a: int, b: int, e: nat, m: int)
    requires m > 0
    requires a % m == b % m
    ensures Pow(a, e) % m == Pow(b, e) % m
  {
    if e != 0 {
      PowCong(a, b, e - 1, m);
      CongMul(a, b, Pow(a, e - 1), Pow(b, e - 1), m);
    }
  }

  lemma {:induction false} PowOfOne(e: nat)
    ensures Pow(1, e) == 1
  {
    if e != 0 { PowOfOne(e - 1); }
  }

  lemma {:induction false} PowOfZero(e: nat)
    requires e > 0
    ensures Pow(0, e) == 0
  {
  }

  lemma {:induction false} PowPositive(b: int, e: nat)
    requires b >= 1
    ensures Pow(b, e) >= 1
  {
    if e != 0 {
      PowPositive(b, e - 1);
      assert b * Pow(b, e - 1) >= 1;
    }
  }

  lemma {:induction false} PowMonotone(b: int, e: nat, f: nat)
    requires b >= 1 && e <= f
    ensures Pow(b, e) <= Pow(b, f)
  {
    PowAdd(b, e, f - e);
    PowPositive(b, e);
    PowPositive(b, f - e);
    assert Pow(b, e) * Pow(b, f - e) >= Pow(b, e);
  }

  function Exp2(n: nat): (r: int)
    ensures r >= 1
  {
    PowPositive(2, n);
    Pow(2, n)
  }

  // Splitting off the lowest base-m digit: a % (m * k) from a % m and the digits above it.
  lemma ModProduct(a: int, m: int, k: int)
    requires m > 0 && k > 0
    ensures m * k > 0
    ensures a % (m * k) == a % m + m * ((a / m) % k)
    ensures a / (m * k) == (a / m) / k
  {
    var q := a / m;
    MulBound(k, m);
    assert m * k == k * m;
    DigitRange(q % k, a % m, m, k);
    DigitSplit(m, k, q, q / k, q % k);
    DivModUnique(a, q / k, m * (q % k) + a % m, m * k);
  }

  lemma DigitSplit(m: int, k: int, q: int, h: int, d: int)
    requires q == k * h + d
    ensures m * q == h * (m * k) + m * d
  {
    assert m * (k * h + d) == m * (k * h) + m * d;
    assert m * (k * h) == h * (m * k);
  }

  lemma DigitRange(d: int, r: int, m: int, k: int)
    requires 0 <= d < k && 0 <= r < m
    ensures 0 <= m * d + r < m * k
  {
    MulNonneg(m, d);
    MulNonneg(m, k - 1 - d);
    assert m * (k - 1 - d) == m * k - m - m * d;
  }
}
