// The parameters of one Rescue instance: exponents, MDS matrix and its inverse, and the round keys.

module RescueDescription {
  import opened ModArith
  import opened PrimeField
  import opened Sums
  import opened Matrices
  import opened Cauchy
  import opened RescuePermutation

  // States are columns of m field elements.
  datatype RescueDesc = RescueDesc(params: Params, m: nat, nRounds: nat) {
    // What the constructor establishes.
    ghost predicate Sound() {
      && params.WellFormed(m, 1)
      && params.Invertible(m)
      && |params.subkeys| == 2 * nRounds + 1
    }
  }

  lemma SoundBasics(desc: RescueDesc)
    requires desc.Sound()
    ensures IsPrime(desc.params.p) && desc.params.p > 0 && desc.params.subkeys != []
  {
  }

  predicate InRange(xs: seq<int>, p: int) {
    forall j :: 0 <= j < |xs| ==> 0 <= xs[j] < p
  }

  function StateSize(mode: Mode): nat {
    match mode
    case Cipher(key) => |key|
    case Hash(m, _) => m
  }

  // All fifteen candidate exponents divide p - 1.
  predicate NoExponent(p: int) {
    forall i :: 0 <= i < |CANDIDATES| ==> (p - 1) % CANDIDATES[i] == 0
  }

  lemma NoExponentIff(p: int)
    ensures NoExponent(p) <==> forall q: int {:trigger IsPrime(q)} :: IsPrime(q) && q <= 47 ==> (p - 1) % q == 0
  {
    if NoExponent(p) {
      forall q: int | IsPrime(q) && q <= 47
        ensures (p - 1) % q == 0
      {
        PrimeIsCandidate(q);
      }
    }
    if forall q: int {:trigger IsPrime(q)} :: IsPrime(q) && q <= 47 ==> (p - 1) % q == 0 {
      forall i | 0 <= i < |CANDIDATES|
        ensures (p - 1) % CANDIDATES[i] == 0
      {
        CandidatesArePrime(i);
      }
    }
  }

  function Column(data: seq<int>): (v: Rows)
    ensures HasShape(v, |data|, 1)
    ensures forall i :: 0 <= i < |data| ==> v[i][0] == data[i]
  {
    seq(|data|, i requires 0 <= i < |data| => [data[i]])
  }

  method ToVec(data: seq<int>) returns (dataVec: Rows)
    ensures dataVec == Column(data)
  {
    dataVec := [];
    for i := 0 to |data|
      invariant dataVec == Column(data)[..i]
    {
      dataVec := dataVec + [[data[i]]];
    }
  }

  // A column vector of arbitrary integers, reduced.
  function Vector(data: seq<int>, p: int): (v: Rows)
    requires p > 0
  {
    Create(Column(data), p)
  }

  lemma VectorShape(data: seq<int>, p: int)
    requires p > 0
    ensures IsMatrix(Vector(data, p), |data|, 1, p)
    ensures forall i :: 0 <= i < |data| ==> Vector(data, p)[i][0] == data[i] % p
  {
    var v := Vector(data, p);
    forall i, j | 0 <= i < |data| && 0 <= j < 1
      ensures 0 <= v[i][j] < p
    {
      assert v[i][j] == data[i] % p;
    }
  }

  lemma SameVector(a: seq<int>, b: seq<int>, p: int)
    requires p > 0 && |a| == |b| && forall i :: 0 <= i < |a| ==> a[i] % p == b[i] % p
    ensures Vector(a, p) == Vector(b, p)
  {
    hide Vector;
    VectorShape(a, p);
    VectorShape(b, p);
    forall i | 0 <= i < |a|
      ensures Vector(a, p)[i] == Vector(b, p)[i]
    {
      assert Vector(a, p)[i][0] == Vector(b, p)[i][0];
    }
  }

  // Exponents and matrices, with the round constants in the place of the round keys.
  method NewParams(p: int, mode: Mode, roundConstants: seq<Rows>) returns (res: Option<Params>)
    requires IsPrime(p) && StateSize(mode) >= 1 && roundConstants != []
    requires forall i :: 0 <= i < |roundConstants| ==> IsMatrix(roundConstants[i], StateSize(mode), 1, p)
    ensures res.None? <==> NoExponent(p) || p <= 2 * StateSize(mode)
    ensures res.Some? ==> res.value.p == p && res.value.mode == mode && res.value.subkeys == roundConstants
    ensures res.Some? ==> IsFirstCandidate(res.value.alpha, p) && IsExponentInverse(res.value.alpha, res.value.alphaInverse, p)
    ensures res.Some? ==> res.value.mds == CauchyRows(StateSize(mode), p) && res.value.mdsInverse == InverseCauchyRows(StateSize(mode), p)
    ensures res.Some? ==> res.value.WellFormed(StateSize(mode), 1) && res.value.Invertible(StateSize(mode))
  {
    hide MulRows, CauchyRows, InverseCauchyRows, Identity;
    var m := StateSize(mode);
    var alphaAndInverse := GetAlphaAndInverse(p);
    if alphaAndInverse.None? {
      return None;
    }
    var (alpha, alphaInverse) := alphaAndInverse.value;
    var mdsMat := BuildCauchy(m, p);
    if mdsMat.None? {
      return None;
    }
    var mdsMatInverse := BuildInverseCauchy(m, p);
    CauchyInverse(m, p);
    ExponentProduct(alpha, alphaInverse, p);
    res := Some(Params(p, mode, alpha, alphaInverse, mdsMat.value, mdsMatInverse.value, roundConstants));
  }

  // The key schedule: all states of the permutation of the key under the round constants.
  method KeySchedule(d: Params, key: seq<int>, binSize: nat) returns (roundKeys: seq<Rows>)
    requires d.WellFormed(|key|, 1) && WideEnough(d.p, binSize)
    ensures |roundKeys| == |d.subkeys|
    ensures forall r :: 0 <= r < |d.subkeys| ==> roundKeys[r] == Forward(d, Vector(key, d.p), r) && IsMatrix(roundKeys[r], |key|, 1, d.p)
  {
    hide Forward;
    var keyData := ToVec(key);
    VectorShape(key, d.p);
    var keyVector := NewMatrix(keyData, d.p);
    var schedule := RescuePermutation.RescuePermutation(d, keyVector.value, |key|, 1, binSize);
    roundKeys := schedule.value;
    forall r | 0 <= r < |d.subkeys|
      ensures IsMatrix(roundKeys[r], |key|, 1, d.p)
    {
      ForwardShape(d, Vector(key, d.p), r, |key|, 1);
    }
  }

  // The round keys: the constants themselves for the hash, and their permutation of the key for the cipher.
  ghost function RoundKeys(d: Params, constants: seq<Rows>): (keys: seq<Rows>)
    requires d.p > 0
    ensures |keys| == |constants|
  {
    match d.mode
    case Hash(_, _) => constants
    case Cipher(key) =>
      seq(|constants|, r requires 0 <= r < |constants| => Forward(d.(subkeys := constants), Vector(key, d.p), r))
  }

  // The instance for a field, a mode and round constants.
  ghost predicate IsInstance(desc: RescueDesc, p: int, mode: Mode, nRounds: nat, constants: seq<Rows>) {
    var d := desc.params;
    && p >= 2 && d.p == p && d.mode == mode && desc.m == StateSize(mode) && desc.nRounds == nRounds
    && IsFirstCandidate(d.alpha, p) && IsExponentInverse(d.alpha, d.alphaInverse, p)
    && d.mds == CauchyRows(desc.m, p) && d.mdsInverse == InverseCauchyRows(desc.m, p)
    && d.subkeys == RoundKeys(d, constants)
  }

  // It is determined by these.
  lemma InstanceUnique(a: RescueDesc, b: RescueDesc, p: int, mode: Mode, nRounds: nat, constants: seq<Rows>)
    requires IsInstance(a, p, mode, nRounds, constants) && IsInstance(b, p, mode, nRounds, constants)
    ensures a == b
  {
    hide Forward, CauchyRows, InverseCauchyRows, IsFirstCandidate, IsExponentInverse, Vector;
    ExponentsUnique(a.params.alpha, a.params.alphaInverse, b.params.alpha, b.params.alphaInverse, p);
    assert a.params.(subkeys := constants) == b.params.(subkeys := constants);
    assert a.params.subkeys == b.params.subkeys;
  }

  // ----- the round keys of an instance, entry by entry

  predicate AreColumns(columns: seq<Rows>, m: nat, p: int) {
    forall r :: 0 <= r < |columns| ==> IsMatrix(columns[r], m, 1, p)
  }

  // The round keys of a cipher are the states of the permutation of the key under the round constants, which is itself
  // well formed and invertible.
  lemma ScheduleOf(desc: RescueDesc, p: int, key: seq<int>, nRounds: nat, constants: seq<Rows>)
    requires desc.Sound() && IsInstance(desc, p, Cipher(key), nRounds, constants) && AreColumns(constants, |key|, p)
    ensures p > 0 && |constants| == 2 * nRounds + 1 && desc.m == |key| && IsMatrix(Vector(key, p), |key|, 1, p)
    ensures var d := desc.params.(subkeys := constants);
            && d.WellFormed(|key|, 1) && d.Invertible(|key|)
            && forall r :: 0 <= r < |constants| ==> desc.params.subkeys[r] == Forward(d, Vector(key, p), r)
  {
    hide Forward, Vector, MulRows, Identity, CauchyRows, InverseCauchyRows, IsFirstCandidate, IsExponentInverse;
    VectorShape(key, p);
  }

  // The hash takes its constants as round keys.
  lemma HashKeys(desc: RescueDesc, p: int, m: nat, capacity: nat, nRounds: nat, constants: seq<Rows>)
    requires IsInstance(desc, p, Hash(m, capacity), nRounds, constants)
    ensures desc.params.subkeys == constants
  {
    hide CauchyRows, InverseCauchyRows, IsFirstCandidate, IsExponentInverse;
  }

  // The first round key of a cipher is its key plus the first constant.
  lemma FirstRoundKey(desc: RescueDesc, p: int, key: seq<int>, nRounds: nat, constants: seq<Rows>, i: nat)
    requires desc.Sound() && IsInstance(desc, p, Cipher(key), nRounds, constants) && AreColumns(constants, |key|, p)
    requires i < |key|
    ensures p > 0 && constants != [] && |constants| == |desc.params.subkeys|
    ensures At(desc.params.subkeys[0], i, 0) == (key[i] + At(constants[0], i, 0)) % p
  {
    hide Forward, Vector, IsInstance, RescueDesc.Sound, Params.WellFormed, Params.Invertible;
    ScheduleOf(desc, p, key, nRounds, constants);
    InstanceBasics(desc, p, Cipher(key), nRounds, constants);
    FirstEntry(desc.params.(subkeys := constants), Vector(key, p), i, 0, |key|, 1);
    VectorShape(key, p);
    assert At(Vector(key, p), i, 0) == Vector(key, p)[i][0];
    ModNoop(key[i], At(constants[0], i, 0), p);
  }

  lemma InstanceBasics(desc: RescueDesc, p: int, mode: Mode, nRounds: nat, constants: seq<Rows>)
    requires IsInstance(desc, p, mode, nRounds, constants)
    ensures desc.params.p == p > 0 && desc.params.mode == mode && desc.m == StateSize(mode)
    ensures |desc.params.subkeys| == |constants|
  {
    hide CauchyRows, InverseCauchyRows, IsFirstCandidate, IsExponentInverse;
  }

  // Each later one is one round of the one before under the next constant: entries are raised to 1/alpha in even rounds
  // and to alpha in odd ones, multiplied by the matrix, and the constant is added.
  lemma NextRoundKey(desc: RescueDesc, p: int, key: seq<int>, nRounds: nat, constants: seq<Rows>, r: nat, i: nat)
    requires desc.Sound() && IsInstance(desc, p, Cipher(key), nRounds, constants) && AreColumns(constants, |key|, p)
    requires r < 2 * nRounds && i < |key|
    ensures p > 0 && |constants| == |desc.params.subkeys| == 2 * nRounds + 1
    ensures var d := desc.params;
            var e := if r % 2 == 0 then d.alphaInverse else d.alpha;
            At(d.subkeys[r + 1], i, 0)
            == (Sum(t => At(d.mds, i, t) * Pow(At(d.subkeys[r], t, 0), e), |key|) + At(constants[r + 1], i, 0)) % p
  {
    hide Forward, Vector, IsInstance, RescueDesc.Sound, Params.WellFormed, Params.Invertible, Sum, Pow;
    ScheduleOf(desc, p, key, nRounds, constants);
    InstanceBasics(desc, p, Cipher(key), nRounds, constants);
    NextEntry(desc.params.(subkeys := constants), Vector(key, p), r, i, 0, |key|, 1);
    var d := desc.params;
    var e := if r % 2 == 0 then d.alphaInverse else d.alpha;
    SumEqual(t => At(d.mds, i, t) * Pow(At(Forward(d.(subkeys := constants), Vector(key, p), r), t, 0), e),
             t => At(d.mds, i, t) * Pow(At(d.subkeys[r], t, 0), e), |key|);
  }

  // The states of the permutation depend on the mode only through its kind.
  lemma {:induction false} ForwardIgnoresKey(d: Params, key: seq<int>, s: Rows, r: nat)
    requires d.p > 0 && r < |d.subkeys| && d.mode.Cipher?
    ensures Forward(d.(mode := Cipher(key)), s, r) == Forward(d, s, r)
  {
    hide Round, AddRows;
    if r > 0 { ForwardIgnoresKey(d, key, s, r - 1); }
  }

  // Any single round key tells keys of field elements apart, so different keys give different instances in every round.
  lemma RoundKeyTellsKey(a: RescueDesc, b: RescueDesc, p: int, key: seq<int>, other: seq<int>, nRounds: nat,
                         constants: seq<Rows>, r: nat)
    requires a.Sound() && IsInstance(a, p, Cipher(key), nRounds, constants) && AreColumns(constants, |key|, p)
    requires b.Sound() && IsInstance(b, p, Cipher(other), nRounds, constants) && |other| == |key|
    requires InRange(key, p) && InRange(other, p) && r <= 2 * nRounds
    ensures |a.params.subkeys| == |b.params.subkeys| == 2 * nRounds + 1
    ensures a.params.subkeys[r] == b.params.subkeys[r] <==> key == other
  {
    hide Forward, Vector, IsInstance, RescueDesc.Sound, Params.WellFormed, Params.Invertible, InRange;
    ScheduleOf(a, p, key, nRounds, constants);
    ScheduleOf(b, p, other, nRounds, constants);
    InstanceBasics(a, p, Cipher(key), nRounds, constants);
    InstanceBasics(b, p, Cipher(other), nRounds, constants);
    SameBut(a, b, p, key, other, nRounds, constants);
    var d := a.params.(subkeys := constants);
    ForwardIgnoresKey(d, other, Vector(other, p), r);
    ForwardInjective(d, Vector(key, p), Vector(other, p), r, |key|, 1);
    if Vector(key, p) == Vector(other, p) { VectorInjective(key, other, p); }
  }

  lemma SameBut(a: RescueDesc, b: RescueDesc, p: int, key: seq<int>, other: seq<int>, nRounds: nat, constants: seq<Rows>)
    requires IsInstance(a, p, Cipher(key), nRounds, constants) && IsInstance(b, p, Cipher(other), nRounds, constants)
    requires |key| == |other|
    ensures b.params.(subkeys := constants) == a.params.(subkeys := constants).(mode := Cipher(other))
  {
    hide RoundKeys, CauchyRows, InverseCauchyRows, IsFirstCandidate, IsExponentInverse;
    ExponentsUnique(a.params.alpha, a.params.alphaInverse, b.params.alpha, b.params.alphaInverse, p);
  }

  lemma VectorInjective(a: seq<int>, b: seq<int>, p: int)
    requires p > 0 && InRange(a, p) && InRange(b, p) && Vector(a, p) == Vector(b, p)
    ensures a == b
  {
    hide Vector;
    VectorShape(a, p);
    VectorShape(b, p);
    assert |a| == |Vector(a, p)| == |b|;
    forall i | 0 <= i < |a|
      ensures a[i] == b[i]
    {
      assert a[i] % p == Vector(a, p)[i][0] == b[i] % p;
      SmallMod(a[i], p);
      SmallMod(b[i], p);
    }
  }

  // The constructor, with the number of rounds and the sampled round constants as parameters.
  method NewRescueDesc(p: int, mode: Mode, nRounds: nat, roundConstants: seq<Rows>, binSize: nat) returns (res: Option<RescueDesc>)
    requires IsPrime(p) && WideEnough(p, binSize)
    requires |roundConstants| == 2 * nRounds + 1
    requires forall i :: 0 <= i < |roundConstants| ==> IsMatrix(roundConstants[i], StateSize(mode), 1, p)
    ensures res.None? <==> (mode.Cipher? && |mode.key| < 2) || StateSize(mode) == 0 || NoExponent(p) || p <= 2 * StateSize(mode)
    ensures res.Some? ==> IsInstance(res.value, p, mode, nRounds, roundConstants) && res.value.Sound()
    ensures res.Some? && mode.Hash? ==> res.value.params.subkeys == roundConstants
    ensures res.Some? && mode.Cipher? ==> forall i :: 0 <= i < |mode.key| ==>
              At(res.value.params.subkeys[0], i, 0) == (mode.key[i] + At(roundConstants[0], i, 0)) % p
  {
    hide MulRows, Identity, At, Forward, Vector, IsMatrix, CauchyRows, InverseCauchyRows, IsFirstCandidate, IsExponentInverse;
    if (mode.Cipher? && |mode.key| < 2) || StateSize(mode) == 0 {
      return None;
    }
    var params := NewParams(p, mode, roundConstants);
    if params.None? {
      return None;
    }
    var d := params.value;
    if mode.Cipher? {
      var roundKeys := KeySchedule(d, mode.key, binSize);
      d := d.(subkeys := roundKeys);
      assert d.(subkeys := roundConstants) == params.value;
    }
    res := Some(RescueDesc(d, StateSize(mode), nRounds));
    if mode.Cipher? {
      forall i | 0 <= i < |mode.key|
        ensures At(d.subkeys[0], i, 0) == (mode.key[i] + At(roundConstants[0], i, 0)) % p
      {
        FirstRoundKey(res.value, p, mode.key, nRounds, roundConstants, i);
      }
    }
  }

  method PermuteState(desc: RescueDesc, state: Rows, binSize: nat) returns (res: Result<Rows>)
    requires desc.Sound() && Valid(state, desc.params.p) && WideEnough(desc.params.p, binSize)
    ensures res.Failure? <==> !HasShape(state, desc.m, 1)
    ensures res.Success? ==> res.value == Permute(desc.params, state) && IsMatrix(res.value, desc.m, 1, desc.params.p)
    ensures res.Success? ==> res.value == Forward(desc.params, state, 2 * desc.nRounds)
  {
    hide Forward, Params.Invertible;
    var states := RescuePermutation.RescuePermutation(desc.params, state, desc.m, 1, binSize);
    if states.Failure? {
      return Failure(states.error);
    }
    ForwardShape(desc.params, state, 2 * desc.nRounds, desc.m, 1);
    res := Success(states.value[2 * desc.nRounds]);
  }

  method PermuteInverseState(desc: RescueDesc, state: Rows, binSize: nat) returns (res: Result<Rows>)
    requires desc.Sound() && Valid(state, desc.params.p) && WideEnough(desc.params.p, binSize)
    ensures res.Failure? <==> !HasShape(state, desc.m, 1)
    ensures res.Success? ==> res.value == PermuteInverse(desc.params, state)
  {
    hide Backward, Params.Invertible, PermuteInverse;
    var states := RescuePermutation.RescuePermutationInverse(desc.params, state, desc.m, 1, binSize);
    if states.Failure? {
      return Failure(states.error);
    }
    res := Success(states.value[2 * desc.nRounds]);
  }

  // permuteInverse undoes permute and the other way round, for every instance the constructor can build.
  lemma PermuteRoundTrip(desc: RescueDesc, state: Rows)
    requires desc.Sound() && IsMatrix(state, desc.m, 1, desc.params.p)
    ensures PermuteInverse(desc.params, Permute(desc.params, state)) == state
    ensures Permute(desc.params, PermuteInverse(desc.params, state)) == state
  {
    hide Permute, PermuteInverse, MulRows, Identity;
    PermutationInverses(desc.params, state, desc.m, 1);
  }
}
