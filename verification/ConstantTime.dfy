// The bit-level integer unit of the Rescue cipher: two's-complement bit lists, a ripple-carry adder, and the
// addition, subtraction, comparison and selection built on it.

module ConstantTime {
  import opened ModArith
  import opened Bits

  // ----- reading and writing bits

  function Digit(b: bool): int { if b then 1 else 0 }

  // A bit shifted into position i.
  function Weight(b: bool, i: nat): int { if b then Exp2(i) else 0 }

  // Bit i of x: ((x >> i) & 1) === 1, where >> rounds towards minus infinity.
  predicate CtSignBit(x: int, i: nat) {
    (x / Exp2(i)) % 2 == 1
  }

  // The n lowest bits of x, least significant first.
  function ToBits(x: int, n: nat): (bits: seq<bool>)
    ensures |bits| == n
  {
    if n == 0 then [] else ToBits(x, n - 1) + [CtSignBit(x, n - 1)]
  }

  method ToBinLE(x: int, binSize: nat) returns (res: seq<bool>)
    ensures res == ToBits(x, binSize)
  {
    res := [];
    for i := 0 to binSize
      invariant res == ToBits(x, i)
    {
      res := res + [CtSignBit(x, i)];
    }
  }

  // The value of a bit list read as an unsigned number.
  function Unsigned(bits: seq<bool>): int {
    if bits == [] then 0
    else Unsigned(bits[..|bits| - 1]) + Weight(bits[|bits| - 1], |bits| - 1)
  }

  lemma UnsignedSnoc(bits: seq<bool>, b: bool)
    ensures Unsigned(bits + [b]) == Unsigned(bits) + Weight(b, |bits|)
  {
    assert (bits + [b])[..|bits|] == bits;
  }

  lemma {:induction false} UnsignedRange(bits: seq<bool>)
    ensures 0 <= Unsigned(bits) < Exp2(|bits|)
  {
    if bits != [] {
      UnsignedRange(bits[..|bits| - 1]);
      assert Exp2(|bits|) == 2 * Exp2(|bits| - 1);
    }
  }

  lemma BitWeight(x: int, i: nat)
    ensures Weight(CtSignBit(x, i), i) == Exp2(i) * (x / Exp2(i) % 2)
  {
    hide Exp2;
    var q, m := x / Exp2(i), Exp2(i);
    assert q % 2 == 0 || q % 2 == 1;
    assert m * 0 == 0 && m * 1 == m;
  }

  lemma DoublePower(n: nat)
    requires n >= 1
    ensures Exp2(n) == Exp2(n - 1) * 2
  {
  }

  // Reading back the n lowest bits of any integer, negative ones included, gives its residue modulo 2^n.
  lemma {:induction false} UnsignedOfBits(x: int, n: nat)
    ensures Unsigned(ToBits(x, n)) == x % Exp2(n)
  {
    if n == 0 {
      assert Exp2(0) == 1;
    } else {
      hide Unsigned, Exp2, Weight, CtSignBit;
      UnsignedOfBits(x, n - 1);
      UnsignedSnoc(ToBits(x, n - 1), CtSignBit(x, n - 1));
      BitWeight(x, n - 1);
      DoublePower(n);
      ModProduct(x, Exp2(n - 1), 2);
    }
  }

  // The value of a bit list whose last bit carries negative weight.
  function FromBits(bits: seq<bool>): int
    requires bits != []
  {
    var last := |bits| - 1;
    Unsigned(bits[..last]) - Weight(bits[last], last)
  }

  method FromBinLE(xBin: seq<bool>) returns (res: int)
    requires xBin != []
    ensures res == FromBits(xBin)
  {
    var acc: nat := 0;
    for i := 0 to |xBin| - 1
      invariant acc == Unsigned(xBin[..i])
    {
      UnsignedRange(xBin[..i]);
      BitOrDisjoint(acc, Digit(xBin[i]), i);
      assert Digit(xBin[i]) * Exp2(i) == Weight(xBin[i], i);
      UnsignedSnoc(xBin[..i], xBin[i]);
      assert xBin[..i + 1] == xBin[..i] + [xBin[i]];
      acc := BitOr(acc, Weight(xBin[i], i));
    }
    res := acc - Weight(xBin[|xBin| - 1], |xBin| - 1);
  }

  // ----- the number in [-2^(n-1), 2^(n-1)) congruent to v modulo 2^n

  function Wrap(v: int, n: nat): int
    requires n >= 1
  {
    var r := v % Exp2(n);
    if r < Exp2(n - 1) then r else r - Exp2(n)
  }

  predicate Fits(v: int, n: nat)
    requires n >= 1
  {
    -Exp2(n - 1) <= v < Exp2(n - 1)
  }

  // Wrap is determined by its range and its residue.
  lemma WrapUnique(v: int, r: int, n: nat)
    requires n >= 1
    ensures Fits(Wrap(v, n), n) && Wrap(v, n) % Exp2(n) == v % Exp2(n)
    ensures Fits(r, n) && r % Exp2(n) == v % Exp2(n) ==> r == Wrap(v, n)
  {
    var m := Exp2(n);
    assert m == 2 * Exp2(n - 1);
    var w := Wrap(v, n);
    ModMod(v, m);
    ModShift(v % m, -1, m);
    if Fits(r, n) && r % m == v % m {
      var k := CongWitness(r, w, m);
      MulBound(k, m);
    }
  }

  lemma WrapCong(u: int, v: int, n: nat)
    requires n >= 1
    requires u % Exp2(n) == v % Exp2(n)
    ensures Wrap(u, n) == Wrap(v, n)
  {
  }

  lemma FromBitsIsWrap(bits: seq<bool>)
    requires bits != []
    ensures FromBits(bits) == Wrap(Unsigned(bits), |bits|)
  {
    var n := |bits|;
    UnsignedRange(bits);
    UnsignedRange(bits[..n - 1]);
    SmallMod(Unsigned(bits), Exp2(n));
    assert Exp2(n) == 2 * Exp2(n - 1);
  }

  // ----- the ripple-carry adder

  // The carry out of one position, in the form the adder computes it.
  function CarryOut(x: bool, y: bool, carry: bool): bool {
    var yXorCarry := y != carry;
    y != (yXorCarry && (x != y))
  }

  // The carry into position i.
  function CarryAt(x: seq<bool>, y: seq<bool>, carryIn: bool, i: nat): bool
    requires i <= |x| && i <= |y|
  {
    if i == 0 then carryIn else CarryOut(x[i - 1], y[i - 1], CarryAt(x, y, carryIn, i - 1))
  }

  function AddBits(x: seq<bool>, y: seq<bool>, carryIn: bool, n: nat): (res: seq<bool>)
    requires n <= |x| && n <= |y|
    ensures |res| == n
  {
    if n == 0 then []
    else AddBits(x, y, carryIn, n - 1) + [x[n - 1] != (y[n - 1] != CarryAt(x, y, carryIn, n - 1))]
  }

  method Adder(xBin: seq<bool>, yBin: seq<bool>, carryIn: bool, binSize: nat) returns (res: seq<bool>)
    requires binSize <= |xBin| && binSize <= |yBin|
    ensures res == AddBits(xBin, yBin, carryIn, binSize)
    ensures var total := Unsigned(xBin[..binSize]) + Unsigned(yBin[..binSize]) + Digit(carryIn);
            Unsigned(res) == if total < Exp2(binSize) then total else total - Exp2(binSize)
  {
    res := [];
    var carry := carryIn;
    for i := 0 to binSize
      invariant res == AddBits(xBin, yBin, carryIn, i)
      invariant carry == CarryAt(xBin, yBin, carryIn, i)
    {
      var yXorCarry := yBin[i] != carry;
      res := res + [xBin[i] != yXorCarry];
      carry := yBin[i] != (yXorCarry && (xBin[i] != yBin[i]));
    }
    AdderConserves(xBin, yBin, carryIn, binSize);
    UnsignedRange(res);
  }

  // What the adder conserves: operands and carry-in equal the sum bits and the carry-out.
  lemma {:induction false} AdderConserves(x: seq<bool>, y: seq<bool>, carryIn: bool, n: nat)
    requires n <= |x| && n <= |y|
    ensures Unsigned(x[..n]) + Unsigned(y[..n]) + Digit(carryIn)
         == Unsigned(AddBits(x, y, carryIn, n)) + Weight(CarryAt(x, y, carryIn, n), n)
  {
    if n == 0 {
      assert Exp2(0) == 1;
    } else {
      AdderConserves(x, y, carryIn, n - 1);
      UnsignedPrefix(x, n);
      UnsignedPrefix(y, n);
      UnsignedSnoc(AddBits(x, y, carryIn, n - 1), x[n - 1] != (y[n - 1] != CarryAt(x, y, carryIn, n - 1)));
      assert Exp2(n) == 2 * Exp2(n - 1);
    }
  }

  lemma UnsignedPrefix(bits: seq<bool>, n: nat)
    requires 1 <= n <= |bits|
    ensures Unsigned(bits[..n]) == Unsigned(bits[..n - 1]) + Weight(bits[n - 1], n - 1)
  {
    assert bits[..n] == bits[..n - 1] + [bits[n - 1]];
    UnsignedSnoc(bits[..n - 1], bits[n - 1]);
  }

  lemma WeightIsMultiple(b: bool, n: nat)
    ensures Weight(b, n) == Digit(b) * Exp2(n)
  {
    hide Exp2;
    var m := Exp2(n);
    assert 0 * m == 0 && 1 * m == m;
  }

  lemma AdderCong(x: seq<bool>, y: seq<bool>, carryIn: bool, n: nat)
    requires |x| == |y| == n
    ensures (Unsigned(x) + Unsigned(y) + Digit(carryIn)) % Exp2(n) == Unsigned(AddBits(x, y, carryIn, n)) % Exp2(n)
  {
    hide AddBits, CarryAt, Unsigned, Exp2, Weight, Digit;
    AdderConserves(x, y, carryIn, n);
    assert x[..n] == x && y[..n] == y;
    WeightIsMultiple(CarryAt(x, y, carryIn, n), n);
    ModShift(Unsigned(AddBits(x, y, carryIn, n)), Digit(CarryAt(x, y, carryIn, n)), Exp2(n));
  }

  // ----- arithmetic

  function Complement(bits: seq<bool>): (res: seq<bool>)
    ensures |res| == |bits|
  {
    seq(|bits|, i requires 0 <= i < |bits| => bits[i] == false)
  }

  lemma {:induction false} ComplementValue(bits: seq<bool>)
    ensures Unsigned(Complement(bits)) == Exp2(|bits|) - 1 - Unsigned(bits)
  {
    if bits == [] {
      assert Exp2(0) == 1;
    } else {
      var n := |bits|;
      ComplementValue(bits[..n - 1]);
      assert Complement(bits)[..n - 1] == Complement(bits[..n - 1]);
      assert Exp2(n) == 2 * Exp2(n - 1);
    }
  }

  function CtAdd(x: int, y: int, n: nat): int
    requires n >= 1
  {
    FromBits(AddBits(ToBits(x, n), ToBits(y, n), false, n))
  }

  function CtSub(x: int, y: int, n: nat): int
    requires n >= 1
  {
    FromBits(AddBits(ToBits(x, n), Complement(ToBits(y, n)), true, n))
  }

  predicate CtLt(x: int, y: int, n: nat)
    requires n >= 1
  {
    CtSignBit(CtSub(x, y, n), n)
  }

  function CtSelect(b: bool, x: int, y: int, n: nat): int
    requires n >= 1
  {
    CtAdd(y, Digit(b) * CtSub(x, y, n), n)
  }

  predicate VerifyBinSize(x: int, k: nat) {
    x / Exp2(k) == 0 || x / Exp2(k) == -1
  }

  // For all integers x and y, ctAdd is addition modulo 2^n in the signed range.
  lemma CtAddIsWrap(x: int, y: int, n: nat)
    requires n >= 1
    ensures CtAdd(x, y, n) == Wrap(x + y, n)
  {
    var s := AddBits(ToBits(x, n), ToBits(y, n), false, n);
    AddBitsCong(x, y, n);
    FromBitsIsWrap(s);
    WrapCong(Unsigned(s), x + y, n);
  }

  lemma AddBitsCong(x: int, y: int, n: nat)
    ensures Unsigned(AddBits(ToBits(x, n), ToBits(y, n), false, n)) % Exp2(n) == (x + y) % Exp2(n)
  {
    hide AddBits, ToBits, Unsigned, Exp2;
    AdderCong(ToBits(x, n), ToBits(y, n), false, n);
    UnsignedOfBits(x, n);
    UnsignedOfBits(y, n);
    ResidueSum(Unsigned(ToBits(x, n)), Unsigned(ToBits(y, n)), x, y, Exp2(n));
  }

  // For all integers x and y, ctSub is subtraction modulo 2^n in the signed range.
  lemma CtSubIsWrap(x: int, y: int, n: nat)
    requires n >= 1
    ensures CtSub(x, y, n) == Wrap(x - y, n)
  {
    var s := AddBits(ToBits(x, n), Complement(ToBits(y, n)), true, n);
    SubBitsCong(x, y, n);
    FromBitsIsWrap(s);
    WrapCong(Unsigned(s), x - y, n);
  }

  lemma SubBitsCong(x: int, y: int, n: nat)
    ensures Unsigned(AddBits(ToBits(x, n), Complement(ToBits(y, n)), true, n)) % Exp2(n) == (x - y) % Exp2(n)
  {
    hide AddBits, ToBits, Unsigned, Exp2, Complement;
    AdderCong(ToBits(x, n), Complement(ToBits(y, n)), true, n);
    UnsignedOfBits(x, n);
    ComplementOfBits(y, n);
    ResidueDifference(Unsigned(ToBits(x, n)), Unsigned(Complement(ToBits(y, n))), x, y, Exp2(n));
  }

  lemma ComplementOfBits(y: int, n: nat)
    ensures Unsigned(Complement(ToBits(y, n))) == Exp2(n) - 1 - y % Exp2(n)
  {
    UnsignedOfBits(y, n);
    ComplementValue(ToBits(y, n));
  }

  lemma ResidueSum(u: int, v: int, x: int, y: int, m: int)
    requires m > 0 && u == x % m && v == y % m
    ensures (u + v + 0) % m == (x + y) % m
  {
    ModMod(x, m);
    ModMod(y, m);
    CongAdd(u, x, v, y, m);
  }

  lemma ResidueDifference(u: int, v: int, x: int, y: int, m: int)
    requires m > 0 && u == x % m && v == m - 1 - y % m
    ensures (u + v + 1) % m == (x - y) % m
  {
    ModMod(x, m);
    ModMod(y, m);
    CongSub(u, x, y % m, y, m);
    ModShift(u - y % m, 1, m);
  }

  // The sign bit of a number that fits in one more bit.
  lemma SignBitIsNegative(x: int, n: nat)
    requires Fits(x, n + 1)
    ensures CtSignBit(x, n) <==> x < 0
  {
    if x < 0 {
      DivModUnique(x, -1, x + Exp2(n), Exp2(n));
    } else {
      DivModUnique(x, 0, x, Exp2(n));
    }
  }

  // ctLt is the sign of the wrapped difference, so it is exact whenever the difference fits.
  lemma CtLtIsExact(x: int, y: int, n: nat)
    requires n >= 1
    ensures CtLt(x, y, n) <==> Wrap(x - y, n) < 0
    ensures Fits(x - y, n) ==> (CtLt(x, y, n) <==> x < y)
  {
    CtSubIsWrap(x, y, n);
    WrapUnique(x - y, x - y, n);
    assert Exp2(n) == 2 * Exp2(n - 1);
    SignBitIsNegative(Wrap(x - y, n), n);
  }

  // ctSelect returns the chosen operand modulo 2^n even when the inner subtraction wraps.
  lemma CtSelectIsWrap(b: bool, x: int, y: int, n: nat)
    requires n >= 1
    ensures CtSelect(b, x, y, n) == Wrap(if b then x else y, n)
    ensures Fits(if b then x else y, n) ==> CtSelect(b, x, y, n) == if b then x else y
  {
    var m, d := Exp2(n), CtSub(x, y, n);
    CtSubIsWrap(x, y, n);
    CtAddIsWrap(y, Digit(b) * d, n);
    if b {
      WrapUnique(x - y, x - y, n);
      CongAdd(y, y, d, x - y, m);
      assert y + (x - y) == x && Digit(b) * d == d;
      WrapCong(y + d, x, n);
    }
    WrapUnique(if b then x else y, if b then x else y, n);
  }

  // All operations are exact on operands whose true result fits.
  lemma CtExact(x: int, y: int, n: nat)
    requires n >= 1
    ensures Fits(x + y, n) ==> CtAdd(x, y, n) == x + y
    ensures Fits(x - y, n) ==> CtSub(x, y, n) == x - y && (CtLt(x, y, n) <==> x < y)
  {
    CtAddIsWrap(x, y, n);
    CtSubIsWrap(x, y, n);
    CtLtIsExact(x, y, n);
    WrapUnique(x + y, x + y, n);
    WrapUnique(x - y, x - y, n);
  }

  lemma CtSelectExact(b: bool, x: int, y: int, n: nat)
    requires n >= 1
    requires Fits(if b then x else y, n)
    ensures CtSelect(b, x, y, n) == if b then x else y
  {
    CtSelectIsWrap(b, x, y, n);
  }

  lemma VerifyBinSizeIsRange(x: int, k: nat)
    ensures VerifyBinSize(x, k) <==> -Exp2(k) <= x < Exp2(k)
  {
    var m := Exp2(k);
    if 0 <= x < m {
      DivModUnique(x, 0, x, m);
    } else if -m <= x < 0 {
      DivModUnique(x, -1, x + m, m);
    }
  }
}
