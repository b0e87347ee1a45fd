// Signed integers as field elements and back, and the range guards, all on the constant-time integer unit with
// n-bit operands. The field order p and the width n are parameters; n leaves two bits above every field element.

module FieldEncoding {
  import opened ModArith
  import opened PrimeField
  import opened ConstantTime
  import opened Matrices

  // ----- the guards

  predicate EncodeGuard(v: int, p: int, n: nat)
    requires n >= 1
  {
    !(!VerifyBinSize(v, n - 1) || CtLt(v, -(p - 1), n) || !CtLt(v, p, n))
  }

  predicate EncryptGuard(x: int, p: int, n: nat)
    requires n >= 1
  {
    !(!VerifyBinSize(x, n - 1) || CtSignBit(x, n) || !CtLt(x, p, n))
  }

  // A comparison whose difference may leave the n-bit range on the positive side only: it wraps to "less than".
  lemma CtLtAbove(x: int, y: int, n: nat)
    requires n >= 1
    requires -Exp2(n - 1) <= x - y < 2 * Exp2(n - 1)
    ensures CtLt(x, y, n) <==> x < y || x - y >= Exp2(n - 1)
  {
    hide CtLt, Wrap;
    var d, m := x - y, Exp2(n);
    assert m == 2 * Exp2(n - 1);
    CtLtIsExact(x, y, n);
    if d >= Exp2(n - 1) {
      ModShift(d, -1, m);
      WrapUnique(d, d - m, n);
    }
  }

  // The encoder accepts exactly -(p - 1) <= v <= p - 1, for every integer v, also where v + (p - 1) wraps.
  lemma EncodeGuardExact(v: int, p: int, n: nat)
    requires p >= 2 && WideEnough(p, n)
    ensures EncodeGuard(v, p, n) <==> -(p - 1) <= v <= p - 1
  {
    hide CtLt, VerifyBinSize;
    FieldSizes(p, n);
    VerifyBinSizeIsRange(v, n - 1);
    if VerifyBinSize(v, n - 1) {
      CtLtAbove(v, -(p - 1), n);
      if -(p - 1) <= v {
        CtExact(v, p, n);
      }
    }
  }

  // Encryption accepts exactly 0 <= x < p, for every integer x.
  lemma EncryptGuardExact(x: int, p: int, n: nat)
    requires p >= 2 && WideEnough(p, n)
    ensures EncryptGuard(x, p, n) <==> 0 <= x < p
  {
    hide CtLt, VerifyBinSize, CtSignBit, CtSub;
    FieldSizes(p, n);
    VerifyBinSizeIsRange(x, n - 1);
    if VerifyBinSize(x, n - 1) {
      SignBitIsNegative(x, n);
      if x >= 0 {
        CtExact(x, p, n);
      }
    }
  }

  // ----- encoding

  function EncodeBigInt(v: int, p: int, n: nat): Option<int>
    requires n >= 1
  {
    if !EncodeGuard(v, p, n) then None
    else Some(CtSelect(CtSignBit(v, n), CtAdd(v, p, n), v, n))
  }

  function DecodeBigInt(v: int, p: int, n: nat): int
    requires n >= 1
  {
    var twoInv := (p + 1) / 2;
    CtSelect(CtLt(v, twoInv, n), v, CtSub(v, p, n), n)
  }

  // The encoding of an accepted integer is its residue.
  lemma EncodeIsResidue(v: int, p: int, n: nat)
    requires p >= 2 && WideEnough(p, n)
    ensures EncodeBigInt(v, p, n) == if -(p - 1) <= v <= p - 1 then Some(v % p) else None
  {
    hide CtSelect, CtAdd, CtSub, CtLt, CtSignBit, EncodeGuard;
    EncodeGuardExact(v, p, n);
    FieldSizes(p, n);
    if -(p - 1) <= v <= p - 1 {
      SignBitIsNegative(v, n);
      CtExact(v, p, n);
      CtSelectExact(v < 0, v + p, v, n);
      DivModUnique(v, if v < 0 then -1 else 0, if v < 0 then v + p else v, p);
    }
  }

  // A field element decodes to its representative nearest to zero.
  lemma DecodeIsCentred(v: int, p: int, n: nat)
    requires p >= 2 && WideEnough(p, n) && 0 <= v < p
    ensures DecodeBigInt(v, p, n) == if 2 * v < p then v else v - p
  {
    hide CtSelect, CtAdd, CtSub, CtLt;
    FieldSizes(p, n);
    var twoInv := (p + 1) / 2;
    CtExact(v, twoInv, n);
    CtExact(v, p, n);
    CtSelectExact(v < twoInv, v, v - p, n);
  }

  // Encoding and decoding returns v exactly when |v| <= (p - 1) / 2.
  lemma EncodeThenDecode(v: int, p: int, n: nat)
    requires p >= 3 && p % 2 == 1 && WideEnough(p, n)
    requires -(p - 1) <= v <= p - 1
    ensures var e := EncodeBigInt(v, p, n);
            e.Some? && 0 <= e.value < p && (DecodeBigInt(e.value, p, n) == v <==> -((p - 1) / 2) <= v <= (p - 1) / 2)
  {
    hide EncodeBigInt, DecodeBigInt;
    EncodeIsResidue(v, p, n);
    DivModUnique(v, if v < 0 then -1 else 0, if v < 0 then v + p else v, p);
    DecodeIsCentred(v % p, p, n);
  }

  // Decoding and encoding is the identity on the whole field.
  lemma DecodeThenEncode(v: int, p: int, n: nat)
    requires p >= 2 && WideEnough(p, n) && 0 <= v < p
    ensures EncodeBigInt(DecodeBigInt(v, p, n), p, n) == Some(v)
  {
    hide EncodeBigInt, DecodeBigInt;
    DecodeIsCentred(v, p, n);
    var c := DecodeBigInt(v, p, n);
    EncodeIsResidue(c, p, n);
    DivModUnique(c, if c < 0 then -1 else 0, v, p);
  }
}
