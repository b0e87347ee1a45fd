// The Rescue cipher in counter mode: blocks of five field elements, 16-byte nonces, 32-byte serialized elements.

module RescueCipher {
  import opened ModArith
  import opened ConstantTime
  import opened Matrices
  import opened FieldEncoding
  import opened LittleEndian
  import opened RescuePermutation
  import opened RescueDescription

  const BLOCK_SIZE := 5

  datatype CipherError = NonceLength | CiphertextLength | PlaintextRange | ValueTooLarge

  datatype Outcome<+T> = Ok(value: T) | Err(error: CipherError)

  // ----- the key stream

  function CounterBlock(nonce: int, i: nat): (block: seq<int>)
    ensures |block| == BLOCK_SIZE
  {
    [nonce, i, 0, 0, 0]
  }

  // The permuted counter block, and element j of the stream of all blocks.
  function KeyBlock(d: Params, nonce: int, i: nat): Rows
    requires d.p > 0 && d.subkeys != []
  {
    Permute(d, Vector(CounterBlock(nonce, i), d.p))
  }

  function KeyElement(d: Params, nonce: int, j: nat): int
    requires d.p > 0 && d.subkeys != []
  {
    At(KeyBlock(d, nonce, j / BLOCK_SIZE), j % BLOCK_SIZE, 0)
  }

  ghost predicate CipherDesc(desc: RescueDesc, binSize: nat) {
    desc.Sound() && desc.m == BLOCK_SIZE && WideEnough(desc.params.p, binSize)
  }

  lemma KeyBlockShape(desc: RescueDesc, nonce: int, i: nat)
    requires desc.Sound() && desc.m == BLOCK_SIZE
    ensures IsMatrix(KeyBlock(desc.params, nonce, i), BLOCK_SIZE, 1, desc.params.p)
  {
    hide Forward, Params.Invertible, Vector;
    VectorShape(CounterBlock(nonce, i), desc.params.p);
    ForwardShape(desc.params, Vector(CounterBlock(nonce, i), desc.params.p), 2 * desc.nRounds, BLOCK_SIZE, 1);
  }

  lemma KeyElementRange(desc: RescueDesc, nonce: int, j: nat)
    requires desc.Sound() && desc.m == BLOCK_SIZE
    ensures 0 <= KeyElement(desc.params, nonce, j) < desc.params.p
  {
    hide KeyBlock;
    KeyBlockShape(desc, nonce, j / BLOCK_SIZE);
    var b := KeyBlock(desc.params, nonce, j / BLOCK_SIZE);
    assert At(b, j % BLOCK_SIZE, 0) == b[j % BLOCK_SIZE][0];
  }

  method GetCounter(nonce: int, nBlocks: nat) returns (counter: seq<int>)
    ensures |counter| == BLOCK_SIZE * nBlocks
    ensures forall i :: 0 <= i < nBlocks ==> counter[BLOCK_SIZE * i..BLOCK_SIZE * i + BLOCK_SIZE] == CounterBlock(nonce, i)
    ensures forall i :: 0 <= i < nBlocks ==>
              counter[5 * i] == nonce && counter[5 * i + 1] == i
              && counter[5 * i + 2] == 0 && counter[5 * i + 3] == 0 && counter[5 * i + 4] == 0
  {
    counter := [];
    for i := 0 to nBlocks
      invariant |counter| == BLOCK_SIZE * i
      invariant forall k :: 0 <= k < i ==> counter[BLOCK_SIZE * k..BLOCK_SIZE * k + BLOCK_SIZE] == CounterBlock(nonce, k)
    {
      ghost var before := counter;
      counter := counter + [nonce];
      counter := counter + [i];
      for j := 2 to BLOCK_SIZE
        invariant counter == before + CounterBlock(nonce, i)[..j]
      {
        counter := counter + [0];
      }
      assert CounterBlock(nonce, i)[..BLOCK_SIZE] == CounterBlock(nonce, i);
    }
    forall i | 0 <= i < nBlocks
      ensures counter[5 * i] == nonce && counter[5 * i + 1] == i
      ensures counter[5 * i + 2] == 0 && counter[5 * i + 3] == 0 && counter[5 * i + 4] == 0
    {
      BlockAt(counter, nonce, i);
    }
  }

  lemma BlockAt(counter: seq<int>, nonce: int, i: nat)
    requires 5 * i + 5 <= |counter| && counter[5 * i..5 * i + 5] == CounterBlock(nonce, i)
    ensures counter[5 * i] == nonce && counter[5 * i + 1] == i
    ensures counter[5 * i + 2] == 0 && counter[5 * i + 3] == 0 && counter[5 * i + 4] == 0
  {
    var block := counter[5 * i..5 * i + 5];
    assert counter[5 * i] == block[0] && counter[5 * i + 1] == block[1];
    assert counter[5 * i + 2] == block[2] && counter[5 * i + 3] == block[3] && counter[5 * i + 4] == block[4];
  }

  // ----- what encryption and decryption compute

  // Element j of the key stream, written out.
  lemma KeyElementIs(d: Params, nonce: int, j: nat)
    requires d.p > 0 && d.subkeys != []
    ensures KeyElement(d, nonce, j) == At(Permute(d, Vector([nonce, j / 5, 0, 0, 0], d.p)), j % 5, 0)
  {
    hide Permute, Vector, At;
  }

  function Encrypted(d: Params, plaintext: seq<int>, nonce: int): (c: seq<int>)
    requires d.p > 0 && d.subkeys != []
    ensures |c| == |plaintext|
  {
    seq(|plaintext|, j requires 0 <= j < |plaintext| => (plaintext[j] + KeyElement(d, nonce, j)) % d.p)
  }

  // Decryption does not check its operands: on a number outside the field it is the raw constant-time computation.
  function Decrypted(d: Params, ciphertext: seq<int>, nonce: int, binSize: nat): (t: seq<int>)
    requires d.p > 0 && d.subkeys != [] && binSize >= 1
    ensures |t| == |ciphertext|
  {
    seq(|ciphertext|, j requires 0 <= j < |ciphertext| => CtFieldSub(ciphertext[j], KeyElement(d, nonce, j), d.p, binSize))
  }

  // Element j of a ciphertext is plaintext element j plus entry j % 5 of the permuted column nonce, j / 5, 0, 0, 0.
  lemma EncryptedElement(d: Params, plaintext: seq<int>, nonce: int, j: nat)
    requires d.p > 0 && d.subkeys != [] && j < |plaintext|
    ensures Encrypted(d, plaintext, nonce)[j]
            == (plaintext[j] + At(Permute(d, Vector([nonce, j / 5, 0, 0, 0], d.p)), j % 5, 0)) % d.p
  {
    hide Permute, Vector, At, KeyElement;
    KeyElementIs(d, nonce, j);
  }

  // On a field element decryption takes the same entry away.
  lemma DecryptedElement(desc: RescueDesc, ciphertext: seq<int>, nonce: int, binSize: nat, j: nat)
    requires CipherDesc(desc, binSize) && j < |ciphertext| && 0 <= ciphertext[j] < desc.params.p
    ensures desc.params.p > 0 && desc.params.subkeys != []
    ensures var d := desc.params;
            Decrypted(d, ciphertext, nonce, binSize)[j]
            == (ciphertext[j] - At(Permute(d, Vector([nonce, j / 5, 0, 0, 0], d.p)), j % 5, 0)) % d.p
  {
    hide Permute, Vector, At, KeyElement, RescueDesc.Sound, CtFieldSub;
    SoundBasics(desc);
    KeyElementIs(desc.params, nonce, j);
    KeyElementRange(desc, nonce, j);
    CtFieldSubExact(ciphertext[j], KeyElement(desc.params, nonce, j), desc.params.p, binSize);
  }

  // One block of at most five elements; first is the position of its first element.
  method EncryptBatch(desc: RescueDesc, ptxt: seq<int>, cntr: seq<int>, binSize: nat, ghost nonce: int, ghost block: nat)
    returns (res: Outcome<seq<int>>)
    requires CipherDesc(desc, binSize) && |ptxt| <= BLOCK_SIZE && cntr == CounterBlock(nonce, block)
    ensures res.Err? ==> res.error == PlaintextRange
    ensures res.Err? <==> !InRange(ptxt, desc.params.p)
    ensures res.Ok? ==> |res.value| == |ptxt| && forall i :: 0 <= i < |ptxt| ==>
              res.value[i] == (ptxt[i] + KeyElement(desc.params, nonce, BLOCK_SIZE * block + i)) % desc.params.p
  {
    hide CtFieldAdd, EncryptGuard, Permute, Vector, RescueDesc.Sound, InRange, KeyElement, KeyBlock, CounterBlock;
    SoundBasics(desc);
    var p := desc.params.p;
    var encryptedCounter := EncryptCounter(desc, cntr, binSize);
    var ciphertext: seq<int> := [];
    NothingInRange(p);
    assert ptxt[..0] == [];
    for i := 0 to |ptxt|
      invariant |ciphertext| == i && InRange(ptxt[..i], p)
      invariant forall k :: 0 <= k < i ==> ciphertext[k] == (ptxt[k] + At(encryptedCounter, k, 0)) % p
    {
      EncryptGuardExact(ptxt[i], p, binSize);
      RangeStep(ptxt, i, p);
      if !EncryptGuard(ptxt[i], p, binSize) {
        return Err(PlaintextRange);
      }
      CtFieldAddExact(ptxt[i], encryptedCounter[i][0], p, binSize);
      ciphertext := ciphertext + [CtFieldAdd(ptxt[i], encryptedCounter[i][0], p, binSize)];
    }
    assert ptxt[..|ptxt|] == ptxt;
    BlockElements(desc.params, nonce, block);
    res := Ok(ciphertext);
  }

  lemma RangeStep(xs: seq<int>, i: nat, p: int)
    requires i < |xs|
    ensures InRange(xs[..i], p) && 0 <= xs[i] < p ==> InRange(xs[..i + 1], p)
    ensures !(0 <= xs[i] < p) ==> !InRange(xs, p)
  {
  }

  lemma BlockElements(d: Params, nonce: int, block: nat)
    requires d.p > 0 && d.subkeys != []
    ensures forall i :: 0 <= i < BLOCK_SIZE ==> KeyElement(d, nonce, BLOCK_SIZE * block + i) == At(KeyBlock(d, nonce, block), i, 0)
    ensures KeyBlock(d, nonce, block) == Permute(d, Vector(CounterBlock(nonce, block), d.p))
  {
    hide Permute, Vector;
    forall i | 0 <= i < BLOCK_SIZE
      ensures KeyElement(d, nonce, BLOCK_SIZE * block + i) == At(KeyBlock(d, nonce, block), i, 0)
    {
      DivModUnique(BLOCK_SIZE * block + i, block, i, BLOCK_SIZE);
    }
  }

  method EncryptCounter(desc: RescueDesc, cntr: seq<int>, binSize: nat) returns (e: Rows)
    requires CipherDesc(desc, binSize) && |cntr| == BLOCK_SIZE
    ensures e == Permute(desc.params, Vector(cntr, desc.params.p)) && IsMatrix(e, BLOCK_SIZE, 1, desc.params.p)
  {
    hide Permute, Params.Invertible;
    VectorShape(cntr, desc.params.p);
    var data := ToVec(cntr);
    var column := NewMatrix(data, desc.params.p);
    var permuted := PermuteState(desc, column.value, binSize);
    e := permuted.value;
  }

  method DecryptBatch(desc: RescueDesc, ctxt: seq<int>, cntr: seq<int>, binSize: nat, ghost nonce: int, ghost block: nat)
    returns (decrypted: seq<int>)
    requires CipherDesc(desc, binSize) && |ctxt| <= BLOCK_SIZE && cntr == CounterBlock(nonce, block)
    ensures |decrypted| == |ctxt| && forall i :: 0 <= i < |ctxt| ==>
              decrypted[i] == CtFieldSub(ctxt[i], KeyElement(desc.params, nonce, BLOCK_SIZE * block + i), desc.params.p, binSize)
  {
    hide CtFieldSub, Permute, Vector, RescueDesc.Sound, KeyElement, KeyBlock, CounterBlock;
    SoundBasics(desc);
    var p := desc.params.p;
    var encryptedCounter := EncryptCounter(desc, cntr, binSize);
    decrypted := [];
    for i := 0 to |ctxt|
      invariant |decrypted| == i
      invariant forall k :: 0 <= k < i ==> decrypted[k] == CtFieldSub(ctxt[k], At(encryptedCounter, k, 0), p, binSize)
    {
      decrypted := decrypted + [CtFieldSub(ctxt[i], encryptedCounter[i][0], p, binSize)];
    }
    BlockElements(desc.params, nonce, block);
  }

  function BlockCount(length: nat): nat {
    CeilDiv(length, BLOCK_SIZE)
  }

  lemma NothingInRange(p: int)
    ensures InRange([], p)
  {
  }

  lemma SliceInRange(xs: seq<int>, a: nat, b: nat, p: int)
    requires a <= b <= |xs|
    ensures InRange(xs, p) ==> InRange(xs[a..b], p)
  {
  }

  method EncryptRaw(desc: RescueDesc, plaintext: seq<int>, nonce: seq<byte>, binSize: nat) returns (res: Outcome<seq<int>>)
    requires CipherDesc(desc, binSize)
    ensures res == if |nonce| != 16 then Err(NonceLength)
                   else if !InRange(plaintext, desc.params.p) then Err(PlaintextRange)
                   else Ok(Encrypted(desc.params, plaintext, Value(nonce)))
    ensures desc.params.p > 0 && desc.params.subkeys != []
    ensures res.Ok? ==> |res.value| == |plaintext|
    ensures res.Ok? ==> forall j :: 0 <= j < |plaintext| ==>
              res.value[j]
              == (plaintext[j] + At(Permute(desc.params, Vector([Value(nonce), j / 5, 0, 0, 0], desc.params.p)), j % 5, 0))
                 % desc.params.p
  {
    hide KeyElement, RescueDesc.Sound, InRange, CounterBlock, BlockCount, Encrypted, Value, Permute, Vector, At;
    SoundBasics(desc);
    if |nonce| != 16 {
      return Err(NonceLength);
    }
    var nBlocks := BlockCount(|plaintext|);
    var nonceValue := DeserializeLE(nonce);
    var counter := GetCounter(nonceValue, nBlocks);
    ghost var all := Encrypted(desc.params, plaintext, nonceValue);
    var ciphertext: seq<int> := [];
    NothingInRange(desc.params.p);
    assert plaintext[..0] == [];
    BlockBounds(|plaintext|, 0);
    for i := 0 to nBlocks
      invariant |ciphertext| == Min(BLOCK_SIZE * i, |plaintext|)
      invariant InRange(plaintext[..|ciphertext|], desc.params.p)
      invariant ciphertext == all[..|ciphertext|]
    {
      var cnt := BLOCK_SIZE * i;
      BlockBounds(|plaintext|, i);
      var batch := plaintext[cnt..Min(cnt + BLOCK_SIZE, |plaintext|)];
      var newCiphertext := EncryptBatch(desc, batch, counter[cnt..cnt + BLOCK_SIZE], binSize, nonceValue, i);
      SliceInRange(plaintext, cnt, cnt + |batch|, desc.params.p);
      if newCiphertext.Err? {
        return Err(newCiphertext.error);
      }
      EncryptedSlice(desc.params, plaintext, nonceValue, cnt, newCiphertext.value);
      ExtendRange(plaintext, cnt, cnt + |batch|, desc.params.p);
      ciphertext := ciphertext + newCiphertext.value;
    }
    BlockBounds(|plaintext|, nBlocks);
    assert plaintext[..|plaintext|] == plaintext && all[..|all|] == all;
    res := Ok(ciphertext);
    forall j | 0 <= j < |plaintext|
      ensures all[j]
              == (plaintext[j] + At(Permute(desc.params, Vector([nonceValue, j / 5, 0, 0, 0], desc.params.p)), j % 5, 0))
                 % desc.params.p
    {
      EncryptedElement(desc.params, plaintext, nonceValue, j);
    }
  }

  // The blocks before block i are full, and the last block reaches the end.
  lemma BlockBounds(length: nat, i: nat)
    ensures i < BlockCount(length) ==> BLOCK_SIZE * i < length
    ensures i >= BlockCount(length) ==> BLOCK_SIZE * i >= length
  {
    BelowCeil(length, BLOCK_SIZE, i);
  }

  lemma EncryptedSlice(d: Params, plaintext: seq<int>, nonce: int, from: nat, part: seq<int>)
    requires d.p > 0 && d.subkeys != [] && from + |part| <= |plaintext|
    requires forall k :: 0 <= k < |part| ==> part[k] == (plaintext[from..from + |part|][k] + KeyElement(d, nonce, from + k)) % d.p
    ensures Encrypted(d, plaintext, nonce)[from..from + |part|] == part
  {
    hide KeyElement;
    forall k | 0 <= k < |part|
      ensures Encrypted(d, plaintext, nonce)[from + k] == part[k]
    {
      assert plaintext[from..from + |part|][k] == plaintext[from + k];
    }
  }

  lemma ExtendRange(xs: seq<int>, a: nat, b: nat, p: int)
    requires a <= b <= |xs| && InRange(xs[..a], p) && InRange(xs[a..b], p)
    ensures InRange(xs[..b], p)
  {
    forall j | 0 <= j < b
      ensures 0 <= xs[..b][j] < p
    {
      if j < a {
        assert xs[..a][j] == xs[j];
      } else {
        assert xs[a..b][j - a] == xs[j];
      }
    }
  }

  method DecryptRaw(desc: RescueDesc, ciphertext: seq<int>, nonce: seq<byte>, binSize: nat) returns (res: Outcome<seq<int>>)
    requires CipherDesc(desc, binSize)
    ensures res == if |nonce| != 16 then Err(NonceLength) else Ok(Decrypted(desc.params, ciphertext, Value(nonce), binSize))
  {
    hide KeyElement, RescueDesc.Sound, CtFieldSub, CounterBlock, BlockCount, Decrypted, Value;
    if |nonce| != 16 {
      return Err(NonceLength);
    }
    var nBlocks := BlockCount(|ciphertext|);
    var nonceValue := DeserializeLE(nonce);
    var counter := GetCounter(nonceValue, nBlocks);
    SoundBasics(desc);
    ghost var all := Decrypted(desc.params, ciphertext, nonceValue, binSize);
    var decrypted: seq<int> := [];
    BlockBounds(|ciphertext|, 0);
    for i := 0 to nBlocks
      invariant |decrypted| == Min(BLOCK_SIZE * i, |ciphertext|)
      invariant decrypted == all[..|decrypted|]
    {
      var cnt := BLOCK_SIZE * i;
      BlockBounds(|ciphertext|, i);
      var batch := ciphertext[cnt..Min(cnt + BLOCK_SIZE, |ciphertext|)];
      var newDecrypted := DecryptBatch(desc, batch, counter[cnt..cnt + BLOCK_SIZE], binSize, nonceValue, i);
      DecryptedSlice(desc.params, ciphertext, nonceValue, binSize, cnt, newDecrypted);
      decrypted := decrypted + newDecrypted;
    }
    BlockBounds(|ciphertext|, nBlocks);
    assert all[..|all|] == all;
    res := Ok(decrypted);
  }

  lemma DecryptedSlice(d: Params, ciphertext: seq<int>, nonce: int, binSize: nat, from: nat, part: seq<int>)
    requires d.p > 0 && d.subkeys != [] && binSize >= 1 && from + |part| <= |ciphertext|
    requires forall k :: 0 <= k < |part| ==>
               part[k] == CtFieldSub(ciphertext[from..from + |part|][k], KeyElement(d, nonce, from + k), d.p, binSize)
    ensures Decrypted(d, ciphertext, nonce, binSize)[from..from + |part|] == part
  {
    hide KeyElement, CtFieldSub;
    forall k | 0 <= k < |part|
      ensures Decrypted(d, ciphertext, nonce, binSize)[from + k] == part[k]
    {
      assert ciphertext[from..from + |part|][k] == ciphertext[from + k];
    }
  }

  // ----- 32-byte serialization

  function SerializeAll(xs: seq<int>): (s: seq<seq<byte>>)
    ensures |s| == |xs|
  {
    seq(|xs|, j requires 0 <= j < |xs| => Bytes(xs[j], 32))
  }

  function DeserializeAll(ss: seq<seq<byte>>): (xs: seq<int>)
    ensures |xs| == |ss|
  {
    seq(|ss|, j requires 0 <= j < |ss| => Value(ss[j]))
  }

  predicate FitsIn32Bytes(xs: seq<int>) {
    forall j :: 0 <= j < |xs| ==> xs[j] < Pow256(32)
  }

  // For a field order of at most 2^256 the last error cannot occur.
  method Encrypt(desc: RescueDesc, plaintext: seq<int>, nonce: seq<byte>, binSize: nat) returns (res: Outcome<seq<seq<byte>>>)
    requires CipherDesc(desc, binSize)
    ensures res == if |nonce| != 16 then Err(NonceLength)
                   else if !InRange(plaintext, desc.params.p) then Err(PlaintextRange)
                   else if !FitsIn32Bytes(Encrypted(desc.params, plaintext, Value(nonce))) then Err(ValueTooLarge)
                   else Ok(SerializeAll(Encrypted(desc.params, plaintext, Value(nonce))))
    ensures desc.params.p <= Pow256(32) ==> res != Err(ValueTooLarge)
    ensures desc.params.p > 0 && desc.params.subkeys != []
    ensures res.Ok? ==> |res.value| == |plaintext| && forall j :: 0 <= j < |plaintext| ==>
              res.value[j] == Bytes(Encrypted(desc.params, plaintext, Value(nonce))[j], 32)
  {
    hide KeyElement, RescueDesc.Sound, Bytes, Pow256, Permute, Vector, At, InRange;
    var raw := EncryptRaw(desc, plaintext, nonce, binSize);
    if raw.Err? {
      return Err(raw.error);
    }
    var out: seq<seq<byte>> := [];
    for i := 0 to |raw.value|
      invariant out == SerializeAll(raw.value)[..i]
      invariant FitsIn32Bytes(raw.value[..i])
    {
      var ok, bytes := SerializeChecked(raw.value[i], 32);
      if !ok {
        return Err(ValueTooLarge);
      }
      assert raw.value[..i + 1] == raw.value[..i] + [raw.value[i]];
      out := out + [bytes[..]];
    }
    assert raw.value[..|raw.value|] == raw.value;
    assert out == SerializeAll(raw.value);
    res := Ok(out);
  }

  method Decrypt(desc: RescueDesc, ciphertext: seq<seq<byte>>, nonce: seq<byte>, binSize: nat) returns (res: Outcome<seq<int>>)
    requires CipherDesc(desc, binSize)
    ensures res == if exists j :: 0 <= j < |ciphertext| && |ciphertext[j]| != 32 then Err(CiphertextLength)
                   else if |nonce| != 16 then Err(NonceLength)
                   else Ok(Decrypted(desc.params, DeserializeAll(ciphertext), Value(nonce), binSize))
  {
    hide KeyElement, RescueDesc.Sound, Value;
    var raw: seq<int> := [];
    for i := 0 to |ciphertext|
      invariant raw == DeserializeAll(ciphertext)[..i]
      invariant forall k :: 0 <= k < i ==> |ciphertext[k]| == 32
    {
      if |ciphertext[i]| != 32 {
        return Err(CiphertextLength);
      }
      var value := DeserializeLE(ciphertext[i]);
      raw := raw + [value];
    }
    assert raw == DeserializeAll(ciphertext);
    res := DecryptRaw(desc, raw, nonce, binSize);
  }

  // ----- theorems

  // Decrypting an encryption returns the plaintext: any length, any nonce, through the 32-byte serialization.
  lemma CipherRoundTrip(desc: RescueDesc, plaintext: seq<int>, nonce: int, binSize: nat)
    requires CipherDesc(desc, binSize) && desc.params.p <= Pow256(32) && InRange(plaintext, desc.params.p)
    ensures Decrypted(desc.params, DeserializeAll(SerializeAll(Encrypted(desc.params, plaintext, nonce))), nonce, binSize) == plaintext
  {
    hide KeyElement, RescueDesc.Sound, CtFieldSub, Bytes, Value, Pow256;
    SoundBasics(desc);
    var d, p := desc.params, desc.params.p;
    var c := Encrypted(d, plaintext, nonce);
    var t := Decrypted(d, DeserializeAll(SerializeAll(c)), nonce, binSize);
    forall j | 0 <= j < |plaintext|
      ensures t[j] == plaintext[j]
    {
      var k := KeyElement(d, nonce, j);
      KeyElementRange(desc, nonce, j);
      RoundTrip(c[j], 32);
      CtFieldSubExact(c[j], k, p, binSize);
      ModNoop(plaintext[j] + k, k, p);
      SmallMod(plaintext[j], p);
    }
  }

  // Encryption commutes with taking prefixes, because element j depends on plaintext[j], the nonce and j alone.
  lemma EncryptPrefix(d: Params, plaintext: seq<int>, k: nat, nonce: int)
    requires d.p > 0 && d.subkeys != [] && k <= |plaintext|
    ensures Encrypted(d, plaintext[..k], nonce) == Encrypted(d, plaintext, nonce)[..k]
  {
    hide KeyElement;
  }

  // Key-stream blocks are equal exactly if nonce and block number agree modulo p: distinct pairs below p have distinct
  // blocks, and block numbers or nonces that differ by p share one.
  lemma KeyBlocksEqualIff(desc: RescueDesc, nonce: int, i: nat, nonce': int, i': nat)
    requires desc.Sound() && desc.m == BLOCK_SIZE
    ensures desc.params.p > 0 && desc.params.subkeys != []
    ensures KeyBlock(desc.params, nonce, i) == KeyBlock(desc.params, nonce', i')
            <==> nonce % desc.params.p == nonce' % desc.params.p && i % desc.params.p == i' % desc.params.p
  {
    hide Permute, Vector, Params.Invertible, Params.WellFormed;
    SoundBasics(desc);
    var p := desc.params.p;
    var b, b' := CounterBlock(nonce, i), CounterBlock(nonce', i');
    VectorShape(b, p);
    VectorShape(b', p);
    if KeyBlock(desc.params, nonce, i) == KeyBlock(desc.params, nonce', i') {
      PermuteInjective(desc.params, Vector(b, p), Vector(b', p), BLOCK_SIZE, 1);
      assert b[0] % p == b'[0] % p && b[1] % p == b'[1] % p;
    }
    if nonce % p == nonce' % p && i % p == i' % p {
      SameVector(b, b', p);
    }
  }

  // What decryption makes of any integer: the wrapped difference with the key stream, with p added once when that is
  // negative. Below 2^(binSize - 2) nothing wraps, and the result is a field element exactly if c < k + p.
  lemma DecryptAny(desc: RescueDesc, ciphertext: seq<int>, nonce: int, binSize: nat, j: nat)
    requires CipherDesc(desc, binSize) && j < |ciphertext|
    ensures desc.params.p > 0 && desc.params.subkeys != []
    ensures var p, k := desc.params.p, KeyElement(desc.params, nonce, j);
            var d := Wrap(ciphertext[j] - k, binSize);
            var t := Decrypted(desc.params, ciphertext, nonce, binSize)[j];
            && t == (if d < 0 then d + p else d)
            && (0 <= t < p <==> -p <= d < p)
            && (0 <= ciphertext[j] < Exp2(binSize - 2) ==> d == ciphertext[j] - k && (0 <= t < p <==> ciphertext[j] < k + p))
  {
    hide KeyElement, RescueDesc.Sound, CtFieldSub, Wrap;
    SoundBasics(desc);
    var p, k := desc.params.p, KeyElement(desc.params, nonce, j);
    KeyElementRange(desc, nonce, j);
    CtFieldSubAny(ciphertext[j], k, p, binSize);
    FieldSizes(p, binSize);
    if 0 <= ciphertext[j] < Exp2(binSize - 2) {
      SmallDifferenceFits(ciphertext[j], k, binSize);
      WrapUnique(ciphertext[j] - k, ciphertext[j] - k, binSize);
    }
  }

  lemma SmallDifferenceFits(c: int, k: int, n: nat)
    requires n >= 2 && 0 <= c < Exp2(n - 2) && 0 <= k < Exp2(n - 1)
    ensures Fits(c - k, n)
  {
    assert Exp2(n - 1) == 2 * Exp2(n - 2);
  }
}
