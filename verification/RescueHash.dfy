// The Rescue-Prime sponge hash with padding.

module RescueHash {
  import opened ModArith
  import opened Matrices
  import opened ByteBuffers
  import opened RescuePermutation
  import opened RescueDescription

  const STATE_SIZE := 12
  const CAPACITY := 5
  const RATE := 7
  const DIGEST_LENGTH := 5

  // ----- padding

  function Padded(message: seq<int>, rate: nat): seq<int>
    requires rate >= 1
  {
    message + [1] + Zeros((-(|message| + 1)) % rate)
  }

  // The padded length is the least positive multiple of the rate above the message length.
  lemma PaddedLength(message: seq<int>, rate: nat)
    requires rate >= 1
    ensures var n := |Padded(message, rate)|; n % rate == 0 && |message| < n <= |message| + rate
  {
    var n := |message| + 1;
    var k := (-n) / rate;
    assert -n == k * rate + (-n) % rate;
    ModShift(0, -k, rate);
    SmallMod(0, rate);
    assert n + (-n) % rate == 0 + -k * rate;
  }

  method PadMessage(message: seq<int>, rate: nat) returns (paddedMessage: seq<int>)
    requires rate >= 1
    ensures paddedMessage == Padded(message, rate)
  {
    hide Padded;
    ghost var target := |Padded(message, rate)|;
    PaddedLength(message, rate);
    paddedMessage := message + [1];
    while |paddedMessage| % rate != 0
      invariant |message| < |paddedMessage| <= target
      invariant paddedMessage == message + [1] + Zeros(|paddedMessage| - |message| - 1)
      decreases target - |paddedMessage|
    {
      paddedMessage := paddedMessage + [0];
    }
    SameMultiple(|paddedMessage|, target, |message|, rate);
    PaddedByLength(message, rate);
  }

  lemma PaddedByLength(message: seq<int>, rate: nat)
    requires rate >= 1
    ensures var n := |Padded(message, rate)|;
            n > |message| && Padded(message, rate) == message + [1] + Zeros(n - |message| - 1)
  {
  }

  // A window of rate consecutive numbers holds one multiple of the rate.
  lemma SameMultiple(a: nat, b: nat, low: nat, rate: nat)
    requires rate >= 1 && low < a <= low + rate && low < b <= low + rate
    requires a % rate == 0 && b % rate == 0
    ensures a == b
  {
    var k := CongWitness(a, b, rate);
    MulBound(k, rate);
  }

  // Padding is injective on all messages, of equal and of different lengths.
  lemma PaddingInjective(a: seq<int>, b: seq<int>, rate: nat)
    requires rate >= 1 && Padded(a, rate) == Padded(b, rate)
    ensures a == b
  {
    hide Padded;
    var k := if |a| < |b| then |b| else |a|;
    PaddedAt(a, rate);
    PaddedAt(b, rate);
    assert Padded(a, rate)[k] == Padded(b, rate)[k];
    assert a == Padded(a, rate)[..|a|] && b == Padded(b, rate)[..|b|];
  }

  // The message, then a one, then zeros.
  lemma PaddedAt(message: seq<int>, rate: nat)
    requires rate >= 1
    ensures var x, n := Padded(message, rate), |message|;
            |x| > n && x[..n] == message && x[n] == 1 && forall k :: n < k < |x| ==> x[k] == 0
  {
  }

  // ----- the sponge

  // Block r of a padded message, with zeros in the capacity part.
  function Block(padded: seq<int>, r: nat): (b: seq<int>)
    requires RATE * (r + 1) <= |padded|
    ensures |b| == STATE_SIZE
  {
    padded[RATE * r..RATE * (r + 1)] + Zeros(STATE_SIZE - RATE)
  }

  function AbsorbBlock(d: Params, state: Rows, block: seq<int>): Rows
    requires d.p > 0 && d.subkeys != []
  {
    Permute(d, AddRows(state, Vector(block, d.p), d.p))
  }

  // The state after r blocks.
  function Absorb(d: Params, padded: seq<int>, r: nat): Rows
    requires d.p > 0 && d.subkeys != [] && RATE * r <= |padded|
  {
    if r == 0 then Vector(Zeros(STATE_SIZE), d.p) else AbsorbBlock(d, Absorb(d, padded, r - 1), Block(padded, r - 1))
  }

  ghost predicate HashDesc(desc: RescueDesc, binSize: nat) {
    desc.Sound() && desc.m == STATE_SIZE && WideEnough(desc.params.p, binSize)
  }

  lemma AbsorbBlockShape(desc: RescueDesc, state: Rows, block: seq<int>)
    requires desc.Sound() && desc.m == STATE_SIZE && HasShape(state, STATE_SIZE, 1)
    ensures IsMatrix(AbsorbBlock(desc.params, state, block), STATE_SIZE, 1, desc.params.p)
  {
    hide Forward, Params.Invertible, Vector;
    ForwardShape(desc.params, AddRows(state, Vector(block, desc.params.p), desc.params.p), 2 * desc.nRounds, STATE_SIZE, 1);
  }

  lemma AbsorbShape(desc: RescueDesc, padded: seq<int>, r: nat)
    requires desc.Sound() && desc.m == STATE_SIZE && RATE * r <= |padded|
    ensures IsMatrix(Absorb(desc.params, padded, r), STATE_SIZE, 1, desc.params.p)
  {
    hide AbsorbBlock, Vector;
    if r == 0 {
      VectorShape(Zeros(STATE_SIZE), desc.params.p);
    } else {
      AbsorbShape(desc, padded, r - 1);
      AbsorbBlockShape(desc, Absorb(desc.params, padded, r - 1), Block(padded, r - 1));
    }
  }

  // The state of the sponge after the whole message.
  function FinalState(d: Params, message: seq<int>): Rows
    requires d.p > 0 && d.subkeys != []
  {
    PaddedLength(message, RATE);
    Absorb(d, Padded(message, RATE), |Padded(message, RATE)| / RATE)
  }

  // The first five elements of the final state.
  function DigestOf(d: Params, message: seq<int>): seq<int>
    requires d.p > 0 && d.subkeys != []
  {
    var final := FinalState(d, message);
    seq(DIGEST_LENGTH, i => At(final, i, 0))
  }

  method AbsorbOne(desc: RescueDesc, state: Rows, block: seq<int>, binSize: nat) returns (next: Rows)
    requires HashDesc(desc, binSize) && IsMatrix(state, STATE_SIZE, 1, desc.params.p) && |block| == STATE_SIZE
    ensures next == AbsorbBlock(desc.params, state, block) && IsMatrix(next, STATE_SIZE, 1, desc.params.p)
  {
    hide Permute, Params.Invertible;
    VectorShape(block, desc.params.p);
    var data := ToVec(block);
    var s := NewMatrix(data, desc.params.p);
    var sum := Add(state, s.value, true, desc.params.p, binSize);
    var permuted := PermuteState(desc, sum.value, binSize);
    next := permuted.value;
  }

  method Digest(desc: RescueDesc, message: seq<int>, binSize: nat) returns (res: seq<int>)
    requires HashDesc(desc, binSize)
    ensures desc.params.p > 0 && desc.params.subkeys != [] && res == DigestOf(desc.params, message)
    ensures |res| == DIGEST_LENGTH && InRange(res, desc.params.p)
    ensures |message| <= 6 ==> forall i :: 0 <= i < 5 ==>
              res[i] == At(Permute(desc.params, Vector(message + [1] + Zeros(11 - |message|), desc.params.p)), i, 0)
  {
    hide AbsorbBlock, Vector, Padded, RescueDesc.Sound, Permute;
    SoundBasics(desc);
    if |message| <= 6 { ShortDigest(desc, message); }
    var p := desc.params.p;
    var paddedMessage := PadMessage(message, RATE);
    PaddedLength(message, RATE);
    VectorShape(Zeros(STATE_SIZE), p);
    var zeros := ToVec(Zeros(STATE_SIZE));
    var initial := NewMatrix(zeros, p);
    var state := initial.value;
    assert state == Absorb(desc.params, paddedMessage, 0) by { InitialState(p); }
    for r := 0 to |paddedMessage| / RATE
      invariant state == Absorb(desc.params, paddedMessage, r)
      invariant IsMatrix(state, STATE_SIZE, 1, p)
    {
      var data: seq<int> := [];
      for i := 0 to RATE
        invariant data == paddedMessage[RATE * r..RATE * r + i]
      {
        data := data + [paddedMessage[r * RATE + i]];
      }
      for i := RATE to STATE_SIZE
        invariant data == paddedMessage[RATE * r..RATE * (r + 1)] + Zeros(i - RATE)
      {
        data := data + [0];
      }
      state := AbsorbOne(desc, state, data, binSize);
    }
    res := [];
    for i := 0 to DIGEST_LENGTH
      invariant res == seq(i, k => At(state, k, 0))
    {
      res := res + [state[i][0]];
    }
  }

  lemma InitialState(p: int)
    requires p > 0
    ensures Create(Column(Zeros(STATE_SIZE)), p) == Vector(Zeros(STATE_SIZE), p)
  {
  }

  // ----- the sponge written out

  // The sponge starts with a column of twelve zeros.
  lemma SpongeStart(d: Params, padded: seq<int>)
    requires d.p > 0 && d.subkeys != []
    ensures |Absorb(d, padded, 0)| == 12 && forall i :: 0 <= i < 12 ==> Absorb(d, padded, 0)[i] == [0]
  {
    var v := Vector(Zeros(STATE_SIZE), d.p);
    VectorShape(Zeros(STATE_SIZE), d.p);
    SmallMod(0, d.p);
    forall i | 0 <= i < 12
      ensures v[i] == [0]
    {
      assert v[i][0] == 0;
    }
  }

  // Undoing the permutation and taking the block away gives the state before it.
  lemma AbsorbUndone(desc: RescueDesc, state: Rows, block: seq<int>)
    requires desc.Sound() && desc.m == STATE_SIZE == |block| && IsMatrix(state, STATE_SIZE, 1, desc.params.p)
    ensures desc.params.p > 0 && desc.params.subkeys != []
    ensures SubRows(PermuteInverse(desc.params, AbsorbBlock(desc.params, state, block)), Vector(block, desc.params.p), desc.params.p)
            == state
  {
    hide Permute, PermuteInverse, Vector, AddRows, SubRows, Params.Invertible, Params.WellFormed;
    SoundBasics(desc);
    VectorShape(block, desc.params.p);
    PermuteRoundTrip(desc, AddRows(state, Vector(block, desc.params.p), desc.params.p));
    AddSubCancel(state, Vector(block, desc.params.p), STATE_SIZE, 1, desc.params.p);
  }

  // Block r is seven elements of the padded message and five zeros.
  lemma SpongeStep(desc: RescueDesc, padded: seq<int>, r: nat)
    requires desc.Sound() && desc.m == STATE_SIZE && 7 * (r + 1) <= |padded|
    ensures desc.params.p > 0 && desc.params.subkeys != []
    ensures var d := desc.params;
            SubRows(PermuteInverse(d, Absorb(d, padded, r + 1)), Vector(padded[7 * r..7 * r + 7] + [0, 0, 0, 0, 0], d.p), d.p)
            == Absorb(d, padded, r)
  {
    hide PermuteInverse, AbsorbBlock, Vector, SubRows, Block, RescueDesc.Sound;
    SoundBasics(desc);
    BlockAt(padded, r);
    AbsorbShape(desc, padded, r);
    AbsorbUndone(desc, Absorb(desc.params, padded, r), Block(padded, r));
  }

  lemma BlockAt(padded: seq<int>, r: nat)
    requires RATE * (r + 1) <= |padded|
    ensures Block(padded, r) == padded[7 * r..7 * r + 7] + [0, 0, 0, 0, 0]
  {
    assert Zeros(5) == [0, 0, 0, 0, 0];
  }

  // The digest is the first five elements of the last state.
  lemma DigestElement(d: Params, message: seq<int>, i: nat)
    requires d.p > 0 && d.subkeys != [] && i < 5
    ensures |DigestOf(d, message)| == 5 && 7 * (|Padded(message, 7)| / 7) == |Padded(message, 7)|
    ensures DigestOf(d, message)[i] == At(Absorb(d, Padded(message, 7), |Padded(message, 7)| / 7), i, 0)
  {
    hide Absorb, Padded;
    PaddedLength(message, RATE);
  }

  lemma AddToZero(v: Rows, n: nat, p: int)
    requires p > 0 && n >= 1 && IsMatrix(v, n, 1, p)
    ensures AddRows(Vector(Zeros(n), p), v, p) == v
  {
    hide Vector;
    VectorShape(Zeros(n), p);
    var z := Vector(Zeros(n), p);
    forall i, j | 0 <= i < n && 0 <= j < 1
      ensures At(AddRows(z, v, p), i, j) == At(v, i, j)
    {
      SmallMod(0, p);
      SmallMod(v[i][0], p);
      assert z[i][0] == 0;
    }
    MatrixEqual(AddRows(z, v, p), v, n, 1);
  }

  // A message of up to six elements is one block: its digest is the head of one permutation.
  lemma ShortDigest(desc: RescueDesc, message: seq<int>)
    requires desc.Sound() && desc.m == STATE_SIZE && |message| <= 6
    ensures desc.params.p > 0 && desc.params.subkeys != [] && |DigestOf(desc.params, message)| == 5
    ensures var d := desc.params;
            forall i :: 0 <= i < 5 ==>
              DigestOf(d, message)[i] == At(Permute(d, Vector(message + [1] + Zeros(11 - |message|), d.p)), i, 0)
  {
    hide Permute, Vector, RescueDesc.Sound, AddRows, Absorb;
    SoundBasics(desc);
    var d := desc.params;
    var padded := Padded(message, RATE);
    PaddedLength(message, RATE);
    assert |padded| == 7;
    var block := message + [1] + Zeros(11 - |message|);
    assert Block(padded, 0) == block;
    assert Absorb(d, padded, 1) == Permute(d, Vector(block, d.p)) by { OneBlock(d, padded, block); }
    forall i | 0 <= i < 5
      ensures DigestOf(d, message)[i] == At(Permute(d, Vector(block, d.p)), i, 0)
    {
      DigestElement(d, message, i);
    }
  }

  lemma OneBlock(d: Params, padded: seq<int>, block: seq<int>)
    requires d.p > 0 && d.subkeys != [] && |padded| == 7 && Block(padded, 0) == block
    ensures Absorb(d, padded, 1) == Permute(d, Vector(block, d.p))
  {
    hide Permute, Vector, AddRows;
    VectorShape(block, d.p);
    AddToZero(Vector(block, d.p), STATE_SIZE, d.p);
    assert Absorb(d, padded, 1) == AbsorbBlock(d, Absorb(d, padded, 0), block);
  }

  // From one state, different blocks of field elements lead to different states: the permutation loses nothing.
  lemma AbsorbInjective(desc: RescueDesc, state: Rows, a: seq<int>, b: seq<int>)
    requires desc.Sound() && desc.m == STATE_SIZE && IsMatrix(state, STATE_SIZE, 1, desc.params.p)
    requires |a| == STATE_SIZE == |b| && InRange(a, desc.params.p) && InRange(b, desc.params.p)
    ensures AbsorbBlock(desc.params, state, a) == AbsorbBlock(desc.params, state, b) ==> a == b
  {
    hide Permute, Vector, Params.Invertible, Params.WellFormed, AddRows, InRange;
    SoundBasics(desc);
    var p := desc.params.p;
    var u, v := Vector(a, p), Vector(b, p);
    VectorShape(a, p);
    VectorShape(b, p);
    if AbsorbBlock(desc.params, state, a) == AbsorbBlock(desc.params, state, b) {
      PermuteInjective(desc.params, AddRows(state, u, p), AddRows(state, v, p), STATE_SIZE, 1);
      AddInjective(state, u, v, STATE_SIZE, p);
      VectorInjective(a, b, p);
    }
  }

  lemma AddInjective(s: Rows, u: Rows, v: Rows, n: nat, p: int)
    requires p > 0 && n >= 1 && IsMatrix(s, n, 1, p) && IsMatrix(u, n, 1, p) && IsMatrix(v, n, 1, p)
    requires AddRows(s, u, p) == AddRows(s, v, p)
    ensures u == v
  {
    forall i, j | 0 <= i < n && 0 <= j < 1
      ensures At(u, i, j) == At(v, i, j)
    {
      assert AddRows(s, u, p)[i][j] == AddRows(s, v, p)[i][j];
      assert At(s, i, j) == s[i][j] && At(u, i, j) == u[i][j] && At(v, i, j) == v[i][j];
      CongSub(s[i][j] + u[i][j], s[i][j] + v[i][j], s[i][j], s[i][j], p);
      SmallMod(u[i][j], p);
      SmallMod(v[i][j], p);
    }
    MatrixEqual(u, v, n, 1);
  }

  // Equal blocks lead to one state only from one state, so a difference stays until the end.
  lemma {:induction false} DifferenceStays(desc: RescueDesc, a: seq<int>, b: seq<int>, r: nat, n: nat)
    requires desc.Sound() && desc.m == STATE_SIZE && r <= n && |a| == |b| == RATE * n
    requires a[RATE * r..] == b[RATE * r..]
    ensures Absorb(desc.params, a, n) == Absorb(desc.params, b, n) ==> Absorb(desc.params, a, r) == Absorb(desc.params, b, r)
    decreases n - r
  {
    hide PermuteInverse, Absorb, Vector, SubRows, RescueDesc.Sound;
    if r < n {
      SoundBasics(desc);
      assert a[RATE * (r + 1)..] == a[RATE * r..][RATE..] == b[RATE * (r + 1)..];
      DifferenceStays(desc, a, b, r + 1, n);
      SpongeStep(desc, a, r);
      SpongeStep(desc, b, r);
      assert a[7 * r..7 * r + 7] == a[RATE * r..][..RATE] == b[7 * r..7 * r + 7];
    }
  }

  lemma {:induction false} AbsorbPrefix(d: Params, a: seq<int>, b: seq<int>, r: nat)
    requires d.p > 0 && d.subkeys != [] && RATE * r <= |a| && RATE * r <= |b| && a[..RATE * r] == b[..RATE * r]
    ensures Absorb(d, a, r) == Absorb(d, b, r)
  {
    hide AbsorbBlock, Vector;
    if r > 0 {
      assert a[..RATE * (r - 1)] == a[..RATE * r][..RATE * (r - 1)] == b[..RATE * (r - 1)];
      AbsorbPrefix(d, a, b, r - 1);
      assert Block(a, r - 1) == Block(b, r - 1) by {
        assert a[RATE * (r - 1)..RATE * r] == a[..RATE * r][RATE * (r - 1)..] == b[RATE * (r - 1)..RATE * r];
      }
    }
  }

  // Padded messages of field elements that differ in one block only end in different states.
  lemma OneBlockDiffers(desc: RescueDesc, a: seq<int>, b: seq<int>, r: nat, n: nat)
    requires desc.Sound() && desc.m == STATE_SIZE && r < n && |a| == |b| == RATE * n
    requires InRange(a, desc.params.p) && InRange(b, desc.params.p)
    requires a[..RATE * r] == b[..RATE * r] && a[RATE * (r + 1)..] == b[RATE * (r + 1)..]
    ensures Absorb(desc.params, a, n) == Absorb(desc.params, b, n) ==> a == b
  {
    hide Absorb, AbsorbBlock, Block, InRange, RescueDesc.Sound;
    SoundBasics(desc);
    var d := desc.params;
    if Absorb(d, a, n) == Absorb(d, b, n) {
      DifferenceStays(desc, a, b, r + 1, n);
      AbsorbPrefix(d, a, b, r);
      AbsorbShape(desc, a, r);
      NextState(d, a, r);
      NextState(d, b, r);
      BlockInRange(a, r, d.p);
      BlockInRange(b, r, d.p);
      AbsorbInjective(desc, Absorb(d, a, r), Block(a, r), Block(b, r));
      SameParts(a, b, r);
    }
  }

  lemma NextState(d: Params, padded: seq<int>, r: nat)
    requires d.p > 0 && d.subkeys != [] && RATE * (r + 1) <= |padded|
    ensures Absorb(d, padded, r + 1) == AbsorbBlock(d, Absorb(d, padded, r), Block(padded, r))
  {
    hide AbsorbBlock, Block;
  }

  lemma BlockInRange(padded: seq<int>, r: nat, p: int)
    requires RATE * (r + 1) <= |padded| && InRange(padded, p) && p > 0
    ensures InRange(Block(padded, r), p)
  {
  }

  lemma SameParts(a: seq<int>, b: seq<int>, r: nat)
    requires RATE * (r + 1) <= |a| == |b| && a[..RATE * r] == b[..RATE * r] && Block(a, r) == Block(b, r)
    requires a[RATE * (r + 1)..] == b[RATE * (r + 1)..]
    ensures a == b
  {
    forall k | 0 <= k < |a|
      ensures a[k] == b[k]
    {
      if k < RATE * r {
        assert a[k] == a[..RATE * r][k] && b[k] == b[..RATE * r][k];
      } else if k < RATE * (r + 1) {
        assert a[k] == Block(a, r)[k - RATE * r] && b[k] == Block(b, r)[k - RATE * r];
      } else {
        assert a[k] == a[RATE * (r + 1)..][k - RATE * (r + 1)] && b[k] == b[RATE * (r + 1)..][k - RATE * (r + 1)];
      }
    }
  }

  // ----- the digest sees a message modulo p

  function Residues(xs: seq<int>, p: int): (r: seq<int>)
    requires p > 0
    ensures |r| == |xs|
  {
    seq(|xs|, i requires 0 <= i < |xs| => xs[i] % p)
  }

  // Two messages with the same residues have the same digest.
  lemma ResiduesDetermineDigest(d: Params, x: seq<int>, y: seq<int>)
    requires d.p > 0 && d.subkeys != [] && Residues(x, d.p) == Residues(y, d.p)
    ensures DigestOf(d, x) == DigestOf(d, y)
  {
    hide FinalState;
    ResiduesDetermineState(d, x, y);
  }

  lemma ResiduesDetermineState(d: Params, x: seq<int>, y: seq<int>)
    requires d.p > 0 && d.subkeys != [] && Residues(x, d.p) == Residues(y, d.p)
    ensures FinalState(d, x) == FinalState(d, y)
  {
    hide Padded, Absorb;
    var a, b := Padded(x, RATE), Padded(y, RATE);
    PaddedResidues(x, y, d.p);
    PaddedLength(x, RATE);
    assert RATE * (|a| / RATE) == |a| == |b|;
    ResiduesDetermineAbsorb(d, a, b, |a| / RATE);
  }

  lemma PaddedResidues(x: seq<int>, y: seq<int>, p: int)
    requires p > 0 && Residues(x, p) == Residues(y, p)
    ensures |Padded(x, RATE)| == |Padded(y, RATE)|
    ensures forall i :: 0 <= i < |Padded(x, RATE)| ==> Padded(x, RATE)[i] % p == Padded(y, RATE)[i] % p
  {
    assert |Residues(x, p)| == |Residues(y, p)|;
    forall i | 0 <= i < |x|
      ensures x[i] % p == y[i] % p
    {
      assert Residues(x, p)[i] == Residues(y, p)[i];
    }
  }

  lemma {:induction false} ResiduesDetermineAbsorb(d: Params, a: seq<int>, b: seq<int>, r: nat)
    requires d.p > 0 && d.subkeys != [] && |a| == |b| && RATE * r <= |a|
    requires forall i :: 0 <= i < |a| ==> a[i] % d.p == b[i] % d.p
    ensures Absorb(d, a, r) == Absorb(d, b, r)
  {
    hide AbsorbBlock, Block, Vector;
    if r > 0 {
      ResiduesDetermineAbsorb(d, a, b, r - 1);
      SameBlock(a, b, r - 1, d.p);
      AbsorbSame(d, Absorb(d, a, r - 1), Block(a, r - 1), Block(b, r - 1));
    }
  }

  lemma SameBlock(a: seq<int>, b: seq<int>, r: nat, p: int)
    requires p > 0 && |a| == |b| && RATE * (r + 1) <= |a|
    requires forall i :: 0 <= i < |a| ==> a[i] % p == b[i] % p
    ensures Vector(Block(a, r), p) == Vector(Block(b, r), p)
  {
    hide Vector;
    SameVector(Block(a, r), Block(b, r), p);
  }

  lemma AbsorbSame(d: Params, state: Rows, a: seq<int>, b: seq<int>)
    requires d.p > 0 && d.subkeys != [] && Vector(a, d.p) == Vector(b, d.p)
    ensures AbsorbBlock(d, state, a) == AbsorbBlock(d, state, b)
  {
    hide Vector, Permute, AddRows;
  }

  // ----- one block decides

  lemma PaddedInField(x: seq<int>, p: int)
    requires InRange(x, p) && p >= 2
    ensures InRange(Padded(x, RATE), p)
  {
  }

  lemma PaddedApart(x: seq<int>, y: seq<int>, r: nat)
    requires |x| == |y| && 7 * r < |x| && forall k :: 0 <= k < |x| && x[k] != y[k] ==> 7 * r <= k < 7 * r + 7
    ensures var a, b := Padded(x, 7), Padded(y, 7);
            && |a| == |b| && 7 * (r + 1) <= |a|
            && a[..7 * r] == b[..7 * r] && a[7 * (r + 1)..] == b[7 * (r + 1)..]
  {
    PaddedLength(x, 7);
    var a, b := Padded(x, 7), Padded(y, 7);
    assert forall k :: 0 <= k < |a| && !(7 * r <= k < 7 * r + 7) ==> a[k] == b[k];
  }

  // Messages of one length whose residues differ inside one block only end in different states.
  lemma OneBlockDecides(desc: RescueDesc, x: seq<int>, y: seq<int>, r: nat)
    requires desc.Sound() && desc.m == STATE_SIZE && |x| == |y| && desc.params.p > 0
    requires forall k :: 0 <= k < |x| && x[k] % desc.params.p != y[k] % desc.params.p ==> 7 * r <= k < 7 * r + 7
    ensures desc.params.subkeys != []
    ensures FinalState(desc.params, x) == FinalState(desc.params, y) <==> Residues(x, desc.params.p) == Residues(y, desc.params.p)
  {
    hide FinalState, RescueDesc.Sound;
    SoundBasics(desc);
    var p := desc.params.p;
    var u, v := Residues(x, p), Residues(y, p);
    ResiduesTwice(x, p);
    ResiduesTwice(y, p);
    ResiduesDetermineState(desc.params, x, u);
    ResiduesDetermineState(desc.params, y, v);
    if u != v { FieldBlockDecides(desc, u, v, r); }
  }

  lemma ResiduesTwice(x: seq<int>, p: int)
    requires p > 0
    ensures Residues(Residues(x, p), p) == Residues(x, p) && InRange(Residues(x, p), p)
  {
    forall i | 0 <= i < |x|
      ensures Residues(Residues(x, p), p)[i] == Residues(x, p)[i]
    {
      ModMod(x[i], p);
    }
  }

  lemma FieldBlockDecides(desc: RescueDesc, x: seq<int>, y: seq<int>, r: nat)
    requires desc.Sound() && desc.m == STATE_SIZE && |x| == |y| && x != y
    requires InRange(x, desc.params.p) && InRange(y, desc.params.p)
    requires forall k :: 0 <= k < |x| && x[k] != y[k] ==> 7 * r <= k < 7 * r + 7
    ensures desc.params.p > 0 && desc.params.subkeys != []
    ensures FinalState(desc.params, x) != FinalState(desc.params, y)
  {
    hide Padded, Absorb, RescueDesc.Sound;
    SoundBasics(desc);
    var k :| 0 <= k < |x| && x[k] != y[k];
    var a, b := Padded(x, RATE), Padded(y, RATE);
    PaddedLength(x, RATE);
    PaddedInField(x, desc.params.p);
    PaddedInField(y, desc.params.p);
    PaddedApart(x, y, r);
    OneBlockDiffers(desc, a, b, r, |a| / RATE);
    if a == b { PaddingInjective(x, y, RATE); }
  }
}
