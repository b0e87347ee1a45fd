// The Rescue permutation, its separately written inverse, and the choice of the two exponents.

module RescuePermutation {
  import opened ModArith
  import opened PrimeField
  import opened Sums
  import opened Matrices

  // ----- the exponents alpha and 1/alpha

  const CANDIDATES: seq<nat> := [2, 3, 5, 7, 11, 13, 17, 19, 23, 29, 31, 37, 41, 43, 47]

  // Below 49 it is enough to try 2, 3 and 5.
  lemma SmallPrime(n: nat)
    requires 2 <= n < 49
    requires (n == 2 || n % 2 != 0) && (n == 3 || n % 3 != 0) && (n == 5 || n % 5 != 0)
    ensures IsPrime(n)
  {
    forall d {:trigger n % d} | 2 <= d < n
      ensures n % d != 0
    {
      NoDivisor(n, d);
    }
  }

  lemma NoDivisor(n: nat, d: nat)
    requires 2 <= d < n < 49
    requires (n == 2 || n % 2 != 0) && (n == 3 || n % 3 != 0) && (n == 5 || n % 5 != 0)
    ensures n % d != 0
  {
    var q := n / d;
    assert n == d * q + n % d;
    if n == d * q {
      SmallCofactor(n, d, q);
    }
  }

  lemma SmallCofactor(n: nat, d: nat, q: nat)
    requires 2 <= d < n < 49 && n == d * q
    ensures (n > 2 && n % 2 == 0) || (n > 3 && n % 3 == 0) || (n > 5 && n % 5 == 0)
  {
    if d >= 7 {
      MulNonneg(d - 7, q);
      assert q <= 6;
      assert q == 2 || q == 3 || q == 4 || q == 5 || q == 6;
    } else {
      assert d == 2 || d == 3 || d == 4 || d == 5 || d == 6;
    }
  }

  lemma CandidatesArePrime(i: nat)
    requires i < |CANDIDATES|
    ensures IsPrime(CANDIDATES[i])
  {
    SmallPrime(CANDIDATES[i]);
  }

  // A prime that does not divide m has an inverse modulo m.
  lemma PrimeInvertible(a: nat, m: nat)
    requires IsPrime(a) && m >= 1 && m % a != 0
    ensures Invert(a, m).Some?
  {
    CoprimeToPrime(m, a);
    var e := ExtendedGcd(m, a);
    BezoutIdentity(m, a);
    ModShift(e.y * a, e.x, m);
    MulCommutes(a, e.y);
    InvertComplete(a, m, e.y);
  }

  // The first candidate that does not divide p - 1.
  predicate IsFirstCandidate(alpha: nat, p: int) {
    exists i :: 0 <= i < |CANDIDATES| && alpha == CANDIDATES[i] && (p - 1) % CANDIDATES[i] != 0
                && forall k :: 0 <= k < i ==> (p - 1) % CANDIDATES[k] == 0
  }

  // Up to 47 every prime is a candidate.
  lemma PrimeIsCandidate(q: int)
    requires IsPrime(q) && q <= 47
    ensures q in CANDIDATES
  {
    assert q == 2 || q % 2 != 0;
    assert q == 3 || q % 3 != 0;
    assert q == 5 || q % 5 != 0;
  }

  // Every prime below q divides m.
  ghost predicate DivideBelow(q: int, m: int) {
    forall r: int {:trigger IsPrime(r)} :: IsPrime(r) && r < q ==> m % r == 0
  }

  // So alpha is the least prime that does not divide p - 1, if there is one up to 47.
  lemma FirstCandidateIsLeast(alpha: nat, p: int)
    ensures IsFirstCandidate(alpha, p) <==> IsPrime(alpha) && alpha <= 47 && (p - 1) % alpha != 0 && DivideBelow(alpha, p - 1)
  {
    hide DivideBelow;
    if IsFirstCandidate(alpha, p) {
      var i :| 0 <= i < |CANDIDATES| && alpha == CANDIDATES[i] && (p - 1) % CANDIDATES[i] != 0
               && forall k :: 0 <= k < i ==> (p - 1) % CANDIDATES[k] == 0;
      CandidatesArePrime(i);
      CandidatesBelow(i, p - 1);
    }
    if IsPrime(alpha) && alpha <= 47 && (p - 1) % alpha != 0 && DivideBelow(alpha, p - 1) {
      PrimeIsCandidate(alpha);
      var i :| 0 <= i < |CANDIDATES| && CANDIDATES[i] == alpha;
      CandidatesBelow(i, p - 1);
    }
  }

  // All primes below candidate i divide m exactly if the candidates before it do.
  lemma CandidatesBelow(i: nat, m: int)
    requires i < |CANDIDATES|
    ensures DivideBelow(CANDIDATES[i], m) <==> forall k :: 0 <= k < i ==> m % CANDIDATES[k] == 0
  {
    CandidatesIncrease(i);
    if DivideBelow(CANDIDATES[i], m) {
      forall k | 0 <= k < i
        ensures m % CANDIDATES[k] == 0
      {
        CandidatesArePrime(k);
      }
    }
    if forall k :: 0 <= k < i ==> m % CANDIDATES[k] == 0 {
      forall r: int | IsPrime(r) && r < CANDIDATES[i]
        ensures m % r == 0
      {
        PrimeIsCandidate(r);
        var k :| 0 <= k < |CANDIDATES| && CANDIDATES[k] == r;
        CandidatesIncrease(k);
      }
    }
  }

  lemma CandidatesIncrease(i: nat)
    requires i < |CANDIDATES|
    ensures forall k :: 0 <= k < i ==> CANDIDATES[k] < CANDIDATES[i]
  {
  }

  // The reduced inverse of alpha modulo p - 1.
  predicate IsExponentInverse(alpha: nat, alphaInverse: nat, p: int)
    requires p >= 2
  {
    alphaInverse < p - 1 && (alpha * alphaInverse) % (p - 1) == 1 % (p - 1)
  }

  lemma ExponentsUnique(a: nat, x: nat, b: nat, y: nat, p: int)
    requires p >= 2 && IsFirstCandidate(a, p) && IsFirstCandidate(b, p)
    requires IsExponentInverse(a, x, p) && IsExponentInverse(b, y, p)
    ensures a == b && x == y
  {
    var i :| 0 <= i < |CANDIDATES| && a == CANDIDATES[i] && (p - 1) % CANDIDATES[i] != 0
             && forall k :: 0 <= k < i ==> (p - 1) % CANDIDATES[k] == 0;
    var j :| 0 <= j < |CANDIDATES| && b == CANDIDATES[j] && (p - 1) % CANDIDATES[j] != 0
             && forall k :: 0 <= k < j ==> (p - 1) % CANDIDATES[k] == 0;
    assert i == j;
    InverseUnique(a, x, y, p - 1);
  }

  lemma InverseUnique(a: nat, x: nat, y: nat, m: int)
    requires m > 0 && x < m && y < m
    requires (a * x) % m == 1 % m && (a * y) % m == 1 % m
    ensures x == y
  {
    CongMul(a * x, 1, y, y, m);
    CongMul(a * y, 1, x, x, m);
    MulRotate(y, a, x);
    MulCommutes(a * x, y);
    MulRotate(x, a, y);
    MulCommutes(a * y, x);
    MulCommutes(x, y);
    SmallMod(x, m);
    SmallMod(y, m);
  }

  // The first candidate that does not divide p - 1, with its inverse; None when all fifteen divide it.
  method GetAlphaAndInverse(p: int) returns (res: Option<(nat, nat)>)
    requires p >= 2
    ensures res.None? <==> forall i :: 0 <= i < |CANDIDATES| ==> (p - 1) % CANDIDATES[i] == 0
    ensures res.Some? ==> IsFirstCandidate(res.value.0, p) && IsExponentInverse(res.value.0, res.value.1, p)
  {
    for i := 0 to |CANDIDATES|
      invariant forall k :: 0 <= k < i ==> (p - 1) % CANDIDATES[k] == 0
    {
      if (p - 1) % CANDIDATES[i] != 0 {
        CandidatesArePrime(i);
        PrimeInvertible(CANDIDATES[i], p - 1);
        var inverse := Invert(CANDIDATES[i], p - 1);
        return Some((CANDIDATES[i], inverse.value));
      }
    }
    res := None;
  }

  // The product of the two exponents is usable in Fermat's theorem: 1 plus a multiple of p - 1. (For p == 2 the
  // product is 0, which is congruent to 1 modulo 1 but is not.)
  lemma ExponentProduct(e: nat, f: nat, p: int)
    requires p >= 3 && (e * f) % (p - 1) == 1 % (p - 1)
    ensures e * f >= 1 && (e * f - 1) % (p - 1) == 0
  {
    SmallMod(1, p - 1);
    SmallMod(0, p - 1);
    MulNonneg(e, f);
    CongFromDiff(e * f, 1, p - 1);
  }

  // ----- the permutation

  datatype Mode = Cipher(key: seq<int>) | Hash(m: nat, capacity: nat)

  function ExponentForEven(mode: Mode, alpha: nat, alphaInverse: nat): nat {
    match mode
    case Cipher(_) => alphaInverse
    case Hash(_, _) => alpha
  }

  function ExponentForOdd(mode: Mode, alpha: nat, alphaInverse: nat): nat {
    match mode
    case Cipher(_) => alpha
    case Hash(_, _) => alphaInverse
  }

  datatype Params = Params(p: int, mode: Mode, alpha: nat, alphaInverse: nat, mds: Rows, mdsInverse: Rows, subkeys: seq<Rows>) {
    function Exponent(round: nat): nat {
      if round % 2 == 0 then ExponentForEven(mode, alpha, alphaInverse) else ExponentForOdd(mode, alpha, alphaInverse)
    }

    // n is the state size and c the number of columns of the states.
    ghost predicate WellFormed(n: nat, c: nat) {
      && IsPrime(p) && n >= 1 && c >= 1
      && IsMatrix(mds, n, n, p) && IsMatrix(mdsInverse, n, n, p)
      && subkeys != []
      && forall i :: 0 <= i < |subkeys| ==> IsMatrix(subkeys[i], n, c, p)
    }

    ghost predicate Invertible(n: nat) {
      && p >= 2
      && alpha * alphaInverse >= 1 && (alpha * alphaInverse - 1) % (p - 1) == 0
      && MulRows(mdsInverse, mds, p) == Identity(n)
      && MulRows(mds, mdsInverse, p) == Identity(n)
    }
  }

  function Round(s: Rows, e: nat, mds: Rows, key: Rows, p: int): Rows
    requires p > 0
  {
    AddRows(MulRows(mds, PowRows(s, e, p), p), key, p)
  }

  function InverseRound(s: Rows, e: nat, mdsInverse: Rows, key: Rows, p: int): Rows
    requires p > 0
  {
    PowRows(MulRows(mdsInverse, SubRows(s, key, p), p), e, p)
  }

  // The state after r rounds.
  function Forward(d: Params, s: Rows, r: nat): Rows
    requires d.p > 0 && r < |d.subkeys|
  {
    if r == 0 then AddRows(s, d.subkeys[0], d.p)
    else Round(Forward(d, s, r - 1), d.Exponent(r - 1), d.mds, d.subkeys[r], d.p)
  }

  // The state after r inverse rounds, before the initial key is removed.
  function Backward(d: Params, s: Rows, r: nat): Rows
    requires d.p > 0 && r < |d.subkeys|
  {
    if r == 0 then s
    else InverseRound(Backward(d, s, r - 1), d.Exponent(r - 1), d.mdsInverse, d.subkeys[|d.subkeys| - r], d.p)
  }

  function Permute(d: Params, s: Rows): Rows
    requires d.p > 0 && d.subkeys != []
  {
    Forward(d, s, |d.subkeys| - 1)
  }

  function PermuteInverse(d: Params, s: Rows): Rows
    requires d.p > 0 && d.subkeys != []
  {
    SubRows(Backward(d, s, |d.subkeys| - 1), d.subkeys[0], d.p)
  }

  lemma {:induction false} ForwardShape(d: Params, s: Rows, r: nat, n: nat, c: nat)
    requires d.WellFormed(n, c) && r < |d.subkeys| && HasShape(s, n, c)
    ensures IsMatrix(Forward(d, s, r), n, c, d.p)
  {
    hide AddRows, MulRows, PowRows;
    if r != 0 {
      ForwardShape(d, s, r - 1, n, c);
    }
  }

  lemma {:induction false} BackwardShape(d: Params, s: Rows, r: nat, n: nat, c: nat)
    requires d.WellFormed(n, c) && r < |d.subkeys| && IsMatrix(s, n, c, d.p)
    ensures IsMatrix(Backward(d, s, r), n, c, d.p)
  {
    hide SubRows, MulRows, PowRows;
    if r != 0 {
      BackwardShape(d, s, r - 1, n, c);
    }
  }

  // One round, spelled out with the exponent of its parity.
  lemma ForwardSteps(d: Params, s: Rows, r: nat)
    requires d.p > 0 && d.subkeys != [] && r < |d.subkeys|
    ensures Forward(d, s, 0) == AddRows(s, d.subkeys[0], d.p)
    ensures r + 1 < |d.subkeys| ==>
              var e := if r % 2 == 0 then ExponentForEven(d.mode, d.alpha, d.alphaInverse) else ExponentForOdd(d.mode, d.alpha, d.alphaInverse);
              Forward(d, s, r + 1) == AddRows(MulRows(d.mds, PowRows(Forward(d, s, r), e, d.p), d.p), d.subkeys[r + 1], d.p)
  {
    hide AddRows, MulRows, PowRows;
  }

  // One entry of the next state: row i of the matrix times the powers of column j, plus the round key. The cipher takes
  // the inverse exponent in even rounds and alpha in odd ones, the hash the other way round.
  lemma NextEntry(d: Params, s: Rows, r: nat, i: nat, j: nat, n: nat, c: nat)
    requires d.WellFormed(n, c) && HasShape(s, n, c) && r + 1 < |d.subkeys| && i < n && j < c
    ensures var e := if d.mode.Cipher? <==> r % 2 == 0 then d.alphaInverse else d.alpha;
            At(Forward(d, s, r + 1), i, j)
            == (Sum(t => At(d.mds, i, t) * Pow(At(Forward(d, s, r), t, j), e), n) + At(d.subkeys[r + 1], i, j)) % d.p
  {
    hide Forward, Sum, Pow, At;
    ForwardShape(d, s, r, n, c);
    ForwardSteps(d, s, r);
    var e := if d.mode.Cipher? <==> r % 2 == 0 then d.alphaInverse else d.alpha;
    RoundEntry(Forward(d, s, r), e, d.mds, d.subkeys[r + 1], i, j, n, c, d.p);
  }

  lemma FirstEntry(d: Params, s: Rows, i: nat, j: nat, n: nat, c: nat)
    requires d.WellFormed(n, c) && HasShape(s, n, c) && i < n && j < c
    ensures At(Forward(d, s, 0), i, j) == (At(s, i, j) + At(d.subkeys[0], i, j)) % d.p
  {
    ForwardSteps(d, s, 0);
  }

  lemma RoundEntry(s: Rows, e: nat, mds: Rows, key: Rows, i: nat, j: nat, n: nat, c: nat, p: int)
    requires p > 0 && n >= 1 && HasShape(s, n, c) && HasShape(mds, n, n) && i < n && j < c
    ensures At(AddRows(MulRows(mds, PowRows(s, e, p), p), key, p), i, j)
            == (Sum(t => At(mds, i, t) * Pow(At(s, t, j), e), n) + At(key, i, j)) % p
  {
    hide Pow;
    var powered := PowRows(s, e, p);
    var f := (t: int) => At(mds, i, t) * Pow(At(s, t, j), e);
    var g := (t: int) => At(mds, i, t) * At(powered, t, j);
    forall t | 0 <= t < n
      ensures g(t) % p == f(t) % p
    {
      ModNoop(At(mds, i, t), Pow(At(s, t, j), e), p);
    }
    SumCong(g, f, n, p);
    SumEqual(g, t => At(mds, i, t) * At(powered, t, j), n);
    SumEqual(f, t => At(mds, i, t) * Pow(At(s, t, j), e), n);
    ModNoop(Sum(f, n), At(key, i, j), p);
    ModNoop(Sum(g, n), At(key, i, j), p);
  }

  lemma BackwardSteps(d: Params, s: Rows, r: nat)
    requires d.p > 0 && d.subkeys != [] && r < |d.subkeys|
    ensures Backward(d, s, 0) == s
    ensures r + 1 < |d.subkeys| ==>
              var e := if r % 2 == 0 then ExponentForEven(d.mode, d.alpha, d.alphaInverse) else ExponentForOdd(d.mode, d.alpha, d.alphaInverse);
              Backward(d, s, r + 1) == PowRows(MulRows(d.mdsInverse, SubRows(Backward(d, s, r), d.subkeys[|d.subkeys| - 1 - r], d.p), d.p), e, d.p)
  {
    hide SubRows, MulRows, PowRows;
  }

  method RescuePermutation(d: Params, state: Rows, ghost n: nat, ghost c: nat, binSize: nat) returns (res: Result<seq<Rows>>)
    requires d.WellFormed(n, c) && Valid(state, d.p) && WideEnough(d.p, binSize)
    ensures res.Failure? <==> !HasShape(state, n, c)
    ensures res.Success? ==> |res.value| == |d.subkeys|
    ensures res.Success? ==> forall r :: 0 <= r < |d.subkeys| ==> res.value[r] == Forward(d, state, r)
  {
    hide AddRows, MulRows, PowRows, Forward, Round, Params.Exponent;
    ForwardSteps(d, state, 0);
    var exponentEven := ExponentForEven(d.mode, d.alpha, d.alphaInverse);
    var exponentOdd := ExponentForOdd(d.mode, d.alpha, d.alphaInverse);
    var first := Add(state, d.subkeys[0], false, d.p, binSize);
    if first.Failure? {
      return Failure(first.error);
    }
    var states := [first.value];
    for r := 0 to |d.subkeys| - 1
      invariant |states| == r + 1
      invariant forall k :: 0 <= k <= r ==> states[k] == Forward(d, state, k)
    {
      ForwardShape(d, state, r, n, c);
      ForwardSteps(d, state, r);
      var s := states[r];
      if r % 2 == 0 {
        s := PowElements(s, exponentEven, d.p);
      } else {
        s := PowElements(s, exponentOdd, d.p);
      }
      var product := MatMul(d.mds, s, d.p);
      var sum := Add(product.value, d.subkeys[r + 1], false, d.p, binSize);
      states := states + [sum.value];
    }
    res := Success(states);
  }

  method RescuePermutationInverse(d: Params, state: Rows, ghost n: nat, ghost c: nat, binSize: nat) returns (res: Result<seq<Rows>>)
    requires d.WellFormed(n, c) && Valid(state, d.p) && WideEnough(d.p, binSize)
    ensures res.Failure? <==> !HasShape(state, n, c)
    ensures res.Success? ==> |res.value| == |d.subkeys| && res.value[|d.subkeys| - 1] == PermuteInverse(d, state)
    ensures res.Success? ==> forall r :: 1 <= r < |d.subkeys| ==> res.value[r - 1] == Backward(d, state, r)
  {
    hide SubRows, MulRows, PowRows, Backward, InverseRound, Params.Exponent;
    BackwardSteps(d, state, 0);
    var exponentEven := ExponentForEven(d.mode, d.alpha, d.alphaInverse);
    var exponentOdd := ExponentForOdd(d.mode, d.alpha, d.alphaInverse);
    var states := [state];
    for r := 0 to |d.subkeys| - 1
      invariant |states| == r + 1
      invariant r > 0 ==> HasShape(state, n, c)
      invariant forall k :: 0 <= k <= r ==> states[k] == Backward(d, state, k)
    {
      if HasShape(state, n, c) {
        BackwardShape(d, state, r, n, c);
      }
      BackwardSteps(d, state, r);
      var difference := Sub(states[r], d.subkeys[|d.subkeys| - 1 - r], false, d.p, binSize);
      if difference.Failure? {
        return Failure(difference.error);
      }
      var product := MatMul(d.mdsInverse, difference.value, d.p);
      var s := product.value;
      if r % 2 == 0 {
        s := PowElements(s, exponentEven, d.p);
      } else {
        s := PowElements(s, exponentOdd, d.p);
      }
      states := states + [s];
    }
    if HasShape(state, n, c) {
      BackwardShape(d, state, |d.subkeys| - 1, n, c);
    }
    var last := Sub(states[|states| - 1], d.subkeys[0], false, d.p, binSize);
    if last.Failure? {
      return Failure(last.error);
    }
    res := Success(states[1..] + [last.value]);
  }

  // ----- inversion

  // An inverse round with the opposite exponent undoes a round, and a round undoes an inverse round.
  lemma RoundInverse(s: Rows, e: nat, f: nat, mds: Rows, mdsInverse: Rows, key: Rows, n: nat, c: nat, p: int)
    requires IsPrime(p) && n >= 1 && c >= 1
    requires IsMatrix(s, n, c, p) && IsMatrix(key, n, c, p) && IsMatrix(mds, n, n, p) && IsMatrix(mdsInverse, n, n, p)
    requires e * f >= 1 && (e * f - 1) % (p - 1) == 0
    requires MulRows(mdsInverse, mds, p) == Identity(n) && MulRows(mds, mdsInverse, p) == Identity(n)
    ensures InverseRound(Round(s, e, mds, key, p), f, mdsInverse, key, p) == s
    ensures Round(InverseRound(s, f, mdsInverse, key, p), e, mds, key, p) == s
  {
    hide AddRows, SubRows, MulRows, PowRows, Identity;
    var powered := PowRows(s, e, p);
    var mixed := MulRows(mds, powered, p);
    AddSubCancel(mixed, key, n, c, p);
    MulAssociative(mdsInverse, mds, powered, p);
    MulIdentity(powered, n, c, p);
    PowInverse(s, e, f, n, c, p);

    var difference := SubRows(s, key, p);
    var unmixed := MulRows(mdsInverse, difference, p);
    MulCommutes(e, f);
    PowInverse(unmixed, f, e, n, c, p);
    MulAssociative(mds, mdsInverse, difference, p);
    MulIdentity(difference, n, c, p);
    AddSubCancel(s, key, n, c, p);
  }

  // In cipher mode alpha undoes the even rounds, the first one included, and its inverse the odd ones; in hash mode the
  // other way round.
  lemma RoundUndone(d: Params, s: Rows, r: nat, n: nat, c: nat)
    requires d.WellFormed(n, c) && d.Invertible(n) && HasShape(s, n, c) && r + 1 < |d.subkeys|
    ensures var f := if d.mode.Cipher? <==> r % 2 == 0 then d.alpha else d.alphaInverse;
            PowRows(MulRows(d.mdsInverse, SubRows(Forward(d, s, r + 1), d.subkeys[r + 1], d.p), d.p), f, d.p) == Forward(d, s, r)
  {
    hide Forward, MulRows, Identity, AddRows, SubRows, PowRows;
    var f := if d.mode.Cipher? <==> r % 2 == 0 then d.alpha else d.alphaInverse;
    ForwardShape(d, s, r, n, c);
    ForwardSteps(d, s, r);
    MulCommutes(d.alpha, d.alphaInverse);
    RoundInverse(Forward(d, s, r), d.Exponent(r), f, d.mds, d.mdsInverse, d.subkeys[r + 1], n, c, d.p);
  }

  // Every state of the permutation determines the one it started from.
  lemma {:induction false} ForwardInjective(d: Params, s: Rows, t: Rows, r: nat, n: nat, c: nat)
    requires d.WellFormed(n, c) && d.Invertible(n) && IsMatrix(s, n, c, d.p) && IsMatrix(t, n, c, d.p) && r < |d.subkeys|
    ensures Forward(d, s, r) == Forward(d, t, r) ==> s == t
  {
    hide Forward, MulRows, Identity, AddRows, SubRows, PowRows;
    if r == 0 {
      ForwardSteps(d, s, 0);
      ForwardSteps(d, t, 0);
      AddSubCancel(s, d.subkeys[0], n, c, d.p);
      AddSubCancel(t, d.subkeys[0], n, c, d.p);
    } else {
      RoundUndone(d, s, r - 1, n, c);
      RoundUndone(d, t, r - 1, n, c);
      ForwardInjective(d, s, t, r - 1, n, c);
    }
  }

  // Rounds of opposite parity use mutually inverse exponents.
  lemma OppositeExponents(d: Params, r: nat, t: nat)
    requires (r + t) % 2 == 1
    ensures d.Exponent(r) * d.Exponent(t) == d.alpha * d.alphaInverse
  {
    MulCommutes(d.alpha, d.alphaInverse);
  }

  // With an odd number of subkeys, inverse round r undoes round |subkeys| - 1 - r.
  lemma {:induction false} BackwardRetraces(d: Params, s: Rows, r: nat, n: nat, c: nat)
    requires d.WellFormed(n, c) && d.Invertible(n) && |d.subkeys| % 2 == 1
    requires IsMatrix(s, n, c, d.p) && r < |d.subkeys|
    ensures Backward(d, Permute(d, s), r) == Forward(d, s, |d.subkeys| - 1 - r)
  {
    hide Round, InverseRound, MulRows, Identity;
    if r != 0 {
      var k := |d.subkeys| - 1 - r;
      BackwardRetraces(d, s, r - 1, n, c);
      ForwardShape(d, s, k, n, c);
      OppositeExponents(d, k, r - 1);
      assert Forward(d, s, k + 1) == Round(Forward(d, s, k), d.Exponent(k), d.mds, d.subkeys[k + 1], d.p);
      RoundInverse(Forward(d, s, k), d.Exponent(k), d.Exponent(r - 1), d.mds, d.mdsInverse, d.subkeys[k + 1], n, c, d.p);
    }
  }

  lemma {:induction false} ForwardRetraces(d: Params, s: Rows, r: nat, n: nat, c: nat)
    requires d.WellFormed(n, c) && d.Invertible(n) && |d.subkeys| % 2 == 1
    requires IsMatrix(s, n, c, d.p) && r < |d.subkeys|
    ensures Forward(d, PermuteInverse(d, s), r) == Backward(d, s, |d.subkeys| - 1 - r)
  {
    hide Round, InverseRound, MulRows, Identity, AddRows, SubRows;
    var k := |d.subkeys| - 1 - r;
    BackwardShape(d, s, k, n, c);
    if r == 0 {
      AddSubCancel(Backward(d, s, k), d.subkeys[0], n, c, d.p);
    } else {
      ForwardRetraces(d, s, r - 1, n, c);
      OppositeExponents(d, r - 1, k);
      assert Backward(d, s, k + 1) == InverseRound(Backward(d, s, k), d.Exponent(k), d.mdsInverse, d.subkeys[r], d.p);
      RoundInverse(Backward(d, s, k), d.Exponent(r - 1), d.Exponent(k), d.mds, d.mdsInverse, d.subkeys[r], n, c, d.p);
    }
  }

  // The inverse permutation undoes the permutation and the other way round, for every state and every odd-length
  // list of subkeys, in both modes.
  lemma PermutationInverses(d: Params, s: Rows, n: nat, c: nat)
    requires d.WellFormed(n, c) && d.Invertible(n) && |d.subkeys| % 2 == 1
    requires IsMatrix(s, n, c, d.p)
    ensures PermuteInverse(d, Permute(d, s)) == s
    ensures Permute(d, PermuteInverse(d, s)) == s
  {
    hide AddRows, SubRows, MulRows, Identity, Round, InverseRound, Params.Exponent;
    BackwardRetraces(d, s, |d.subkeys| - 1, n, c);
    AddSubCancel(s, d.subkeys[0], n, c, d.p);
    ForwardRetraces(d, s, |d.subkeys| - 1, n, c);
  }

  lemma PermuteInjective(d: Params, s: Rows, t: Rows, n: nat, c: nat)
    requires d.WellFormed(n, c) && d.Invertible(n)
    requires IsMatrix(s, n, c, d.p) && IsMatrix(t, n, c, d.p)
    ensures Permute(d, s) == Permute(d, t) ==> s == t
  {
    hide Forward, MulRows, Identity;
    ForwardInjective(d, s, t, |d.subkeys| - 1, n, c);
  }
}
