// The constructor of the cipher: a shared secret as field elements, their hash as key, and the cipher instance.

module RescueKey {
  import opened ModArith
  import opened PrimeField
  import opened Matrices
  import opened LittleEndian
  import opened ByteBuffers
  import opened Pieces
  import opened RescuePermutation
  import opened RescueDescription
  import opened RescueHash
  import opened RescueCipher
  import opened Cauchy

  // ----- the shared secret as field elements

  function Chunks(secret: seq<byte>, chunkSize: nat): (c: seq<int>)
    requires chunkSize >= 1
    ensures |c| == PieceCount(|secret|, chunkSize)
  {
    seq(PieceCount(|secret|, chunkSize), i requires 0 <= i < PieceCount(|secret|, chunkSize) => Value(Piece(secret, chunkSize, i)))
  }

  // The Curve25519 base field takes the secret whole; other fields take it in chunks of one byte less than an element.
  function Converted(secret: seq<byte>, baseField: bool, fieldBytes: nat): seq<int>
    requires fieldBytes >= 2
  {
    if baseField then [Value(secret)] else Chunks(secret, fieldBytes - 1)
  }

  method ConvertSecret(secret: seq<byte>, baseField: bool, fieldBytes: nat) returns (converted: seq<int>)
    requires fieldBytes >= 2
    ensures converted == Converted(secret, baseField, fieldBytes)
  {
    converted := [];
    if baseField {
      var v := DeserializeLE(secret);
      converted := converted + [v];
    } else {
      var chunkSize := fieldBytes - 1;
      var nChunks := PieceCount(|secret|, chunkSize);
      for i := 0 to nChunks
        invariant converted == Chunks(secret, chunkSize)[..i]
      {
        PieceExtends(secret, chunkSize, i);
        var v := DeserializeLE(secret[i * chunkSize..Min((i + 1) * chunkSize, |secret|)]);
        converted := converted + [v];
      }
    }
  }

  // The base field: the value of all bytes. Other fields: the value of each stretch of one byte less than an element.
  lemma ConvertedAt(secret: seq<byte>, fieldBytes: nat, i: nat)
    requires fieldBytes >= 2
    ensures Converted(secret, true, fieldBytes) == [Value(secret)]
    ensures var c, w := Converted(secret, false, fieldBytes), fieldBytes - 1;
            && (i < |c| <==> i * w < |secret|)
            && (i < |c| ==> 0 <= i * w <= Min((i + 1) * w, |secret|) && c[i] == Value(secret[i * w..Min((i + 1) * w, |secret|)]))
  {
    hide Value;
    var w := fieldBytes - 1;
    BelowCeil(|secret|, w, i);
    MulNonneg(i, w);
    assert (i + 1) * w == i * w + w;
  }

  // ----- what is hashed

  // Counter 1, the secret, and the key length.
  function KeyMaterial(converted: seq<int>): seq<int> {
    [1] + converted + [BLOCK_SIZE]
  }

  lemma MaterialLayout(c: seq<int>)
    ensures |KeyMaterial(c)| == |c| + 2
    ensures KeyMaterial(c)[0] == 1 && KeyMaterial(c)[1..|c| + 1] == c && KeyMaterial(c)[|c| + 1] == 5
  {
  }

  // The material has the residues of the secret, no more and no less.
  lemma MaterialResidues(a: seq<int>, b: seq<int>, p: int)
    requires p > 0
    ensures Residues(KeyMaterial(a), p) == Residues(KeyMaterial(b), p) <==> Residues(a, p) == Residues(b, p)
  {
    MaterialSplits(a, p);
    MaterialSplits(b, p);
    var x, y := Residues(KeyMaterial(a), p), Residues(KeyMaterial(b), p);
    assert x[1..|x| - 1] == Residues(a, p) && y[1..|y| - 1] == Residues(b, p);
  }

  lemma MaterialSplits(c: seq<int>, p: int)
    requires p > 0
    ensures Residues(KeyMaterial(c), p) == [1 % p] + Residues(c, p) + [5 % p]
  {
  }

  lemma ChunkRange(secret: seq<byte>, chunkSize: nat, i: nat)
    requires chunkSize >= 1 && i < PieceCount(|secret|, chunkSize)
    ensures 0 <= Chunks(secret, chunkSize)[i] < Pow256(chunkSize)
  {
    var c := Piece(secret, chunkSize, i);
    ValueRange(c);
    PowMonotone(256, |c|, chunkSize);
  }

  // For a field order above 256^(BYTES - 1) the chunks determine the secret, also after reduction into the field.
  lemma ChunksInjective(a: seq<byte>, b: seq<byte>, fieldBytes: nat, p: int)
    requires fieldBytes >= 2 && |a| == |b| && p > Pow256(fieldBytes - 1)
    ensures Residues(KeyMaterial(Converted(a, false, fieldBytes)), p) == Residues(KeyMaterial(Converted(b, false, fieldBytes)), p)
            <==> a == b
  {
    hide Pow256, Value, Residues, KeyMaterial;
    var chunkSize := fieldBytes - 1;
    MaterialResidues(Chunks(a, chunkSize), Chunks(b, chunkSize), p);
    if Residues(Chunks(a, chunkSize), p) == Residues(Chunks(b, chunkSize), p) {
      ChunksTell(a, b, chunkSize, p);
    }
  }

  lemma ChunksTell(a: seq<byte>, b: seq<byte>, chunkSize: nat, p: int)
    requires chunkSize >= 1 && |a| == |b| && p > Pow256(chunkSize)
    requires Residues(Chunks(a, chunkSize), p) == Residues(Chunks(b, chunkSize), p)
    ensures a == b
  {
    hide Pow256, Value;
    forall k | 0 <= k < |a|
      ensures a[k] == b[k]
    {
      var i := k / chunkSize;
      PieceOf(|a|, chunkSize, k);
      ChunkRange(a, chunkSize, i);
      ChunkRange(b, chunkSize, i);
      var x, y := Chunks(a, chunkSize)[i], Chunks(b, chunkSize)[i];
      assert Residues(Chunks(a, chunkSize), p)[i] == Residues(Chunks(b, chunkSize), p)[i];
      SmallMod(x, p);
      SmallMod(y, p);
      ValueInjective(Piece(a, chunkSize, i), Piece(b, chunkSize, i));
      assert Piece(a, chunkSize, i)[k - i * chunkSize] == a[k];
      assert Piece(b, chunkSize, i)[k - i * chunkSize] == b[k];
    }
  }

  // ----- the base field: one number for the whole secret

  // What is hashed for a secret over the base field, modulo p.
  function BaseMaterial(secret: seq<byte>, p: int): seq<int>
    requires p > 0
  {
    Residues(KeyMaterial(Converted(secret, true, 32)), p)
  }

  lemma BaseResidues(a: seq<byte>, b: seq<byte>, p: int)
    requires p > 0
    ensures BaseMaterial(a, p) == BaseMaterial(b, p) <==> Value(a) % p == Value(b) % p
  {
    hide Value, KeyMaterial;
    MaterialResidues([Value(a)], [Value(b)], p);
    assert Residues([Value(a)], p)[0] == Value(a) % p && Residues([Value(b)], p)[0] == Value(b) % p;
  }

  // Secrets below the modulus are told apart.
  lemma SmallSecretsDiffer(a: seq<byte>, b: seq<byte>, p: int)
    requires |a| == |b| == 32 && Value(a) < p && Value(b) < p
    ensures BaseMaterial(a, p) == BaseMaterial(b, p) <==> a == b
  {
    hide Value, BaseMaterial;
    BaseResidues(a, b, p);
    SmallMod(Value(a), p);
    SmallMod(Value(b), p);
    if Value(a) == Value(b) { ValueInjective(a, b); }
  }

  // Another secret with the same material modulo p.
  ghost predicate HasTwin(a: seq<byte>, p: int)
    requires p > 0
  {
    exists b: seq<byte> :: |b| == 32 && b != a && BaseMaterial(b, p) == BaseMaterial(a, p)
  }

  // A secret shares its material with another one exactly if it reaches the modulus, or stays below 2^256 when the
  // modulus is added.
  lemma BaseFieldSecrets(a: seq<byte>, p: int)
    requires p > 0 && |a| == 32
    ensures HasTwin(a, p) <==> Value(a) >= p || Value(a) + p < Pow256(32)
  {
    hide Value, Bytes, Pow256, BaseMaterial;
    var v := Value(a);
    ValueRange(a);
    if v >= p {
      TwinAt(a, v - p, p);
    } else if v + p < Pow256(32) {
      TwinAt(a, v + p, p);
    } else {
      forall b: seq<byte> | |b| == 32 && BaseMaterial(b, p) == BaseMaterial(a, p)
        ensures b == a
      {
        BaseResidues(b, a, p);
        ValueRange(b);
        var k := CongWitness(Value(b), v, p);
        MulBound(k, p);
        assert k == 0;
        ValueInjective(a, b);
      }
    }
  }

  lemma TwinAt(a: seq<byte>, w: int, p: int)
    requires p > 0 && |a| == 32 && 0 <= w < Pow256(32) && (w == Value(a) - p || w == Value(a) + p)
    ensures HasTwin(a, p)
  {
    hide Value, Bytes, Pow256, BaseMaterial;
    var b := Bytes(w, 32);
    RoundTrip(w, 32);
    ModShift(Value(a), 1, p);
    ModShift(Value(a), -1, p);
    BaseResidues(b, a, p);
  }

  // For a modulus of at most 2^255 every secret has a twin.
  lemma EverySecretHasTwin(a: seq<byte>, p: int)
    requires p > 0 && |a| == 32 && 2 * p <= Pow256(32)
    ensures HasTwin(a, p)
  {
    BaseFieldSecrets(a, p);
  }

  // ----- the cipher for a shared secret

  datatype KeyError = SecretLength | BadParameters

  datatype KeyOutcome = Ready(desc: RescueDesc) | Refused(error: KeyError)

  // The cipher instance whose key is the digest of the material under the Rescue-Prime instance.
  ghost predicate IsKeyedBy(desc: RescueDesc, h: RescueDesc, p: int, hashRounds: nat, hashConstants: seq<Rows>,
                            cipherRounds: nat, cipherConstants: seq<Rows>, material: seq<int>) {
    && h.Sound() && IsInstance(h, p, Hash(STATE_SIZE, CAPACITY), hashRounds, hashConstants)
    && IsInstance(desc, p, Cipher(DigestOf(h.params, material)), cipherRounds, cipherConstants)
  }

  // The instance for one secret.
  ghost predicate IsCipherFor(desc: RescueDesc, secret: seq<byte>, p: int, baseField: bool, fieldBytes: nat,
                              hashRounds: nat, hashConstants: seq<Rows>, cipherRounds: nat, cipherConstants: seq<Rows>)
    requires fieldBytes >= 2
  {
    exists h: RescueDesc ::
      IsKeyedBy(desc, h, p, hashRounds, hashConstants, cipherRounds, cipherConstants, KeyMaterial(Converted(secret, baseField, fieldBytes)))
  }

  method NewCipher(secret: seq<byte>, p: int, baseField: bool, fieldBytes: nat, binSize: nat,
                   hashRounds: nat, hashConstants: seq<Rows>, cipherRounds: nat, cipherConstants: seq<Rows>)
    returns (res: KeyOutcome)
    requires IsPrime(p) && WideEnough(p, binSize) && fieldBytes >= 2
    requires |hashConstants| == 2 * hashRounds + 1 && |cipherConstants| == 2 * cipherRounds + 1
    requires forall i :: 0 <= i < |hashConstants| ==> IsMatrix(hashConstants[i], STATE_SIZE, 1, p)
    requires forall i :: 0 <= i < |cipherConstants| ==> IsMatrix(cipherConstants[i], DIGEST_LENGTH, 1, p)
    ensures res == Refused(SecretLength) <==> |secret| != 32
    ensures res == Refused(BadParameters) <==> |secret| == 32 && (NoExponent(p) || p <= 2 * STATE_SIZE)
    ensures res.Ready? ==> CipherDesc(res.desc, binSize)
    ensures res.Ready? ==>
              IsCipherFor(res.desc, secret, p, baseField, fieldBytes, hashRounds, hashConstants, cipherRounds, cipherConstants)
  {
    hide RescueDesc.Sound, DigestOf, Forward, Vector, IsMatrix, Converted, Params.Exponent, NoExponent, RoundKeys,
         CauchyRows, InverseCauchyRows, IsFirstCandidate, IsExponentInverse;
    if |secret| != 32 {
      return Refused(SecretLength);
    }
    var hashDesc := NewRescueDesc(p, Hash(STATE_SIZE, CAPACITY), hashRounds, hashConstants, binSize);
    if hashDesc.None? {
      return Refused(BadParameters);
    }
    var converted := ConvertSecret(secret, baseField, fieldBytes);
    var rescueKey := Digest(hashDesc.value, KeyMaterial(converted), binSize);
    var cipherDesc := NewRescueDesc(p, Cipher(rescueKey), cipherRounds, cipherConstants, binSize);
    if cipherDesc.None? {
      return Refused(BadParameters);
    }
    res := Ready(cipherDesc.value);
    assert IsKeyedBy(res.desc, hashDesc.value, p, hashRounds, hashConstants, cipherRounds, cipherConstants, KeyMaterial(converted));
  }

  // The instance for a secret is determined by the residues of the converted secret. So two secrets over the base field
  // that are congruent modulo p lead to one and the same cipher.
  lemma SameResiduesSameCipher(desc: RescueDesc, a: seq<byte>, other: RescueDesc, b: seq<byte>,
                               p: int, baseField: bool, fieldBytes: nat, hashRounds: nat, hashConstants: seq<Rows>,
                               cipherRounds: nat, cipherConstants: seq<Rows>)
    requires p > 0 && fieldBytes >= 2
    requires IsCipherFor(desc, a, p, baseField, fieldBytes, hashRounds, hashConstants, cipherRounds, cipherConstants)
    requires IsCipherFor(other, b, p, baseField, fieldBytes, hashRounds, hashConstants, cipherRounds, cipherConstants)
    requires Residues(Converted(a, baseField, fieldBytes), p) == Residues(Converted(b, baseField, fieldBytes), p)
    ensures desc == other
  {
    hide RescueDesc.Sound, IsInstance, Converted, Residues, KeyMaterial, DigestOf;
    var x, y := KeyMaterial(Converted(a, baseField, fieldBytes)), KeyMaterial(Converted(b, baseField, fieldBytes));
    var h: RescueDesc :| IsKeyedBy(desc, h, p, hashRounds, hashConstants, cipherRounds, cipherConstants, x);
    var g: RescueDesc :| IsKeyedBy(other, g, p, hashRounds, hashConstants, cipherRounds, cipherConstants, y);
    InstanceUnique(h, g, p, Hash(STATE_SIZE, CAPACITY), hashRounds, hashConstants);
    InstanceModulus(h, p, Hash(STATE_SIZE, CAPACITY), hashRounds, hashConstants);
    MaterialResidues(Converted(a, baseField, fieldBytes), Converted(b, baseField, fieldBytes), p);
    SoundBasics(h);
    ResiduesDetermineDigest(h.params, x, y);
    InstanceUnique(desc, other, p, Cipher(DigestOf(h.params, x)), cipherRounds, cipherConstants);
  }

  lemma InstanceModulus(h: RescueDesc, p: int, mode: Mode, nRounds: nat, constants: seq<Rows>)
    requires IsInstance(h, p, mode, nRounds, constants)
    ensures h.params.p == p
  {
  }

  // The secrets 0 and p, two different byte strings, have the same key under every hash instance.
  lemma TwoSecretsOneKey(d: Params)
    requires 0 < d.p < Pow256(32) && d.subkeys != []
    ensures Bytes(0, 32) != Bytes(d.p, 32)
    ensures DigestOf(d, KeyMaterial(Converted(Bytes(0, 32), true, 32))) == DigestOf(d, KeyMaterial(Converted(Bytes(d.p, 32), true, 32)))
  {
    hide Value, Bytes, Pow256, Residues, Converted, KeyMaterial, DigestOf;
    var p := d.p;
    var a, b := Bytes(0, 32), Bytes(p, 32);
    RoundTrip(0, 32);
    RoundTrip(p, 32);
    DivModUnique(p, 1, 0, p);
    SmallMod(0, p);
    BaseResidues(a, b, p);
    ResiduesDetermineDigest(d, KeyMaterial(Converted(a, true, 32)), KeyMaterial(Converted(b, true, 32)));
  }

  // Over the base field the key is the head of one permutation of the column 1, secret, 5, 1, and zeros.
  lemma BaseFieldKey(desc: RescueDesc, h: RescueDesc, secret: seq<byte>, p: int, fieldBytes: nat, hashRounds: nat,
                     hashConstants: seq<Rows>, cipherRounds: nat, cipherConstants: seq<Rows>)
    requires p > 0 && fieldBytes >= 2
    requires IsKeyedBy(desc, h, p, hashRounds, hashConstants, cipherRounds, cipherConstants,
                       KeyMaterial(Converted(secret, true, fieldBytes)))
    ensures h.params.p == p && h.params.subkeys != []
    ensures h.params.mode == Hash(12, 5) && h.m == 12 && desc.params.mode.Cipher? && desc.m == |desc.params.mode.key| == 5
    ensures forall i :: 0 <= i < 5 ==>
              desc.params.mode.key[i] == At(Permute(h.params, Vector([1, Value(secret), 5, 1, 0, 0, 0, 0, 0, 0, 0, 0], p)), i, 0)
  {
    hide Value, Permute, Vector, DigestOf, RoundKeys, RescueDesc.Sound, CauchyRows, InverseCauchyRows, IsFirstCandidate, IsExponentInverse;
    var material := KeyMaterial(Converted(secret, true, fieldBytes));
    SoundBasics(h);
    assert material == [1, Value(secret), 5];
    ShortDigest(h, material);
    assert material + [1] + Zeros(8) == [1, Value(secret), 5, 1, 0, 0, 0, 0, 0, 0, 0, 0];
  }

  lemma ThreeElements(v: int, secret: seq<byte>)
    requires v == Value(secret)
    ensures KeyMaterial(Converted(secret, true, 32)) == [1, v, 5]
  {
    hide Value;
  }

  // Secrets with different residues put the hash into different states, whose heads are the keys.
  lemma SecretsTellStates(h: RescueDesc, a: seq<byte>, b: seq<byte>)
    requires h.Sound() && h.m == STATE_SIZE
    ensures h.params.p > 0 && h.params.subkeys != []
    ensures FinalState(h.params, KeyMaterial(Converted(a, true, 32))) == FinalState(h.params, KeyMaterial(Converted(b, true, 32)))
            <==> Value(a) % h.params.p == Value(b) % h.params.p
  {
    hide Value, FinalState, RescueDesc.Sound, KeyMaterial, Converted, Residues;
    SoundBasics(h);
    BaseResidues(a, b, h.params.p);
    ThreeElements(Value(a), a);
    ThreeElements(Value(b), b);
    OneBlockDecides(h, KeyMaterial(Converted(a, true, 32)), KeyMaterial(Converted(b, true, 32)), 0);
  }
}
