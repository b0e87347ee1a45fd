// Little-endian byte strings: the serializers of the Rescue cipher and of the Arcium client, and the seed encoder of
// the task scheduler.

module LittleEndian {
  import opened ModArith
  import opened Bits

  type byte = b: int | 0 <= b < 256

  // ----- byte strings as numbers

  function Value(bytes: seq<byte>): nat {
    if bytes == [] then 0 else bytes[0] + 256 * Value(bytes[1..])
  }

  // The n lowest base-256 digits of v in two's complement: & takes residues and >> rounds down.
  function Bytes(v: int, n: nat): (bytes: seq<byte>)
    ensures |bytes| == n
    decreases n
  {
    if n == 0 then [] else [v % 256] + Bytes(v / 256, n - 1)
  }

  function Pow256(n: nat): (r: int)
    ensures r >= 1
  {
    PowPositive(256, n);
    Pow(256, n)
  }

  lemma {:induction false} ValueRange(bytes: seq<byte>)
    ensures Value(bytes) < Pow256(|bytes|)
  {
    if bytes != [] {
      ValueRange(bytes[1..]);
    }
  }

  // Reading back what was written gives the value modulo 256^n, for negative values as well.
  lemma {:induction false} ValueOfBytes(v: int, n: nat)
    ensures Value(Bytes(v, n)) == v % Pow256(n)
    decreases n
  {
    if n == 0 {
      assert Pow256(0) == 1;
    } else {
      ValueOfBytes(v / 256, n - 1);
      assert Bytes(v, n)[1..] == Bytes(v / 256, n - 1);
      ModProduct(v, 256, Pow256(n - 1));
    }
  }

  lemma {:induction false} BytesOfValue(bytes: seq<byte>)
    ensures Bytes(Value(bytes), |bytes|) == bytes
  {
    if bytes != [] {
      BytesOfValue(bytes[1..]);
      DivModUnique(Value(bytes), Value(bytes[1..]), bytes[0], 256);
    }
  }

  lemma ValueInjective(a: seq<byte>, b: seq<byte>)
    requires |a| == |b| && Value(a) == Value(b)
    ensures a == b
  {
    BytesOfValue(a);
    BytesOfValue(b);
  }

  // Numbers below 256^n survive the round trip; two of them never share an encoding.
  lemma RoundTrip(v: int, n: nat)
    requires 0 <= v < Pow256(n)
    ensures Value(Bytes(v, n)) == v
  {
    ValueOfBytes(v, n);
    SmallMod(v, Pow256(n));
  }

  lemma {:induction false} ValueAppend(a: seq<byte>, b: seq<byte>)
    ensures Value(a + b) == Value(a) + Pow256(|a|) * Value(b)
  {
    if a == [] {
      assert a + b == b;
      assert Pow256(0) == 1;
    } else {
      ValueAppend(a[1..], b);
      assert (a + b)[1..] == a[1..] + b;
      MulAssoc(256, Pow256(|a| - 1), Value(b));
    }
  }

  // What is left of v after i bytes have been shifted out.
  function ShiftedOut(v: int, i: nat): int {
    if i == 0 then v else ShiftedOut(v, i - 1) / 256
  }

  lemma {:induction false} ShiftedOutIsQuotient(v: int, i: nat)
    ensures ShiftedOut(v, i) == v / Pow256(i)
  {
    if i == 0 {
      assert Pow256(0) == 1;
    } else {
      ShiftedOutIsQuotient(v, i - 1);
      assert Pow256(i) == 256 * Pow256(i - 1);
      ModProduct(v, Pow256(i - 1), 256);
      MulCommutes(Pow256(i - 1), 256);
    }
  }

  // The bytes still to be written are those of the shifted value.
  lemma {:induction false} BytesAt(v: int, n: nat, i: nat)
    requires i < n
    ensures Bytes(v, n)[i] == ShiftedOut(v, i) % 256
    ensures Bytes(v, n)[i..] == Bytes(ShiftedOut(v, i), n - i)
  {
    if i > 0 {
      BytesAt(v, n, i - 1);
      assert Bytes(v, n)[i..] == Bytes(v, n)[i - 1..][1..];
    }
  }

  // Byte i is digit i of the number to base 256, the lowest first.
  lemma ByteIs(v: int, n: nat, i: nat)
    requires i < n
    ensures Bytes(v, n)[i] == v / Pow256(i) % 256
  {
    BytesAt(v, n, i);
    ShiftedOutIsQuotient(v, i);
  }

  // ----- serializers

  // The variant that silently truncates.
  method SerializeTruncating(value: int, length: nat) returns (buffer: array<byte>)
    ensures fresh(buffer) && buffer[..] == Bytes(value, length)
  {
    buffer := new byte[length](_ => 0);
    var remaining := value;
    for i := 0 to length
      invariant remaining == ShiftedOut(value, i)
      invariant buffer[..i] == Bytes(value, length)[..i]
    {
      BytesAt(value, length, i);
      buffer[i] := remaining % 256;
      remaining := remaining / 256;
    }
  }

  // The variant that throws when something is left over. The test is remaining > 0, so no negative value throws.
  method SerializeChecked(value: int, lengthInBytes: nat) returns (ok: bool, result: array<byte>)
    ensures ok <==> value < Pow256(lengthInBytes)
    ensures fresh(result) && result[..] == Bytes(value, lengthInBytes)
  {
    result := new byte[lengthInBytes](_ => 0);
    var tempVal := value;
    for i := 0 to lengthInBytes
      invariant tempVal == ShiftedOut(value, i)
      invariant result[..i] == Bytes(value, lengthInBytes)[..i]
    {
      BytesAt(value, lengthInBytes, i);
      result[i] := tempVal % 256;
      tempVal := tempVal / 256;
    }
    ShiftedOutIsQuotient(value, lengthInBytes);
    PositiveQuotient(value, Pow256(lengthInBytes));
    ok := !(tempVal > 0);
  }

  lemma PositiveQuotient(v: int, m: int)
    requires m > 0
    ensures v / m > 0 <==> v >= m
  {
    var q := v / m;
    assert v == q * m + v % m;
    MulBound(q, m);
  }

  lemma {:induction false} ByteShift(i: nat)
    ensures Exp2(8 * i) == Pow256(i)
  {
    if i > 0 {
      ByteShift(i - 1);
      PowAdd(2, 8, 8 * (i - 1));
      assert Pow(2, 8) == 256;
    }
  }

  method DeserializeLE(bytes: seq<byte>) returns (result: nat)
    ensures result == Value(bytes)
  {
    result := 0;
    for i := 0 to |bytes|
      invariant result == Value(bytes[..i])
    {
      ValueRange(bytes[..i]);
      ByteShift(i);
      BitOrDisjoint(result, bytes[i], 8 * i);
      assert bytes[..i + 1] == bytes[..i] + [bytes[i]];
      ValueAppend(bytes[..i], [bytes[i]]);
      MulCommutes(bytes[i], Exp2(8 * i));
      assert Value([bytes[i]]) == bytes[i];
      result := BitOr(result, bytes[i] * Exp2(8 * i));
    }
    assert bytes[..|bytes|] == bytes;
  }

  // ----- the seed encoder with early exit

  lemma {:induction false} BytesOfZero(n: nat)
    ensures forall i :: 0 <= i < n ==> Bytes(0, n)[i] == 0
  {
    if n > 0 { BytesOfZero(n - 1); }
  }

  lemma {:induction false} ShiftedOutSign(v: int, i: nat)
    ensures v >= 0 ==> ShiftedOut(v, i) >= 0
  {
    if i > 0 { ShiftedOutSign(v, i - 1); }
  }

  lemma NothingShifted(v: int)
    ensures ShiftedOut(v, 0) == v
  {
  }

  lemma OneMoreShifted(v: int, i: nat)
    ensures ShiftedOut(v, i + 1) == ShiftedOut(v, i) / 256
  {
  }

  // Stopping as soon as nothing positive is left: the same bytes for every non-negative value, zeros for a negative one.
  method BigIntToSeed(bigIntValue: int, byteLength: nat) returns (bytes: array<byte>)
    ensures fresh(bytes) && bytes[..] == Bytes(if bigIntValue < 0 then 0 else bigIntValue, byteLength)
  {
    bytes := new byte[byteLength](_ => 0);
    var value := bigIntValue;
    var i := 0;
    ghost var v := if bigIntValue < 0 then 0 else bigIntValue;
    hide Bytes, ShiftedOut;
    NothingShifted(v);
    while i < byteLength && value > 0
      invariant i <= byteLength
      invariant if bigIntValue < 0 then i == 0 && value == bigIntValue else value == ShiftedOut(v, i)
      invariant bytes[..i] == Bytes(v, byteLength)[..i]
      invariant forall k :: i <= k < byteLength ==> bytes[k] == 0
    {
      BytesAt(v, byteLength, i);
      OneMoreShifted(v, i);
      bytes[i] := value % 256;
      value := value / 256;
      i := i + 1;
    }
    RestOfSeed(v, byteLength, i);
    assert bytes[..] == bytes[..i] + bytes[i..];
    assert bytes[i..] == Bytes(v, byteLength)[i..];
  }

  // As soon as nothing is left, the remaining bytes are zero.
  lemma RestOfSeed(v: nat, n: nat, i: nat)
    requires i <= n && (i < n ==> ShiftedOut(v, i) <= 0)
    ensures forall k :: i <= k < n ==> Bytes(v, n)[k] == 0
    ensures Bytes(v, n) == Bytes(v, n)[..i] + Bytes(v, n)[i..]
  {
    hide ShiftedOut, Bytes;
    if i < n {
      ShiftedOutSign(v, i);
      BytesAt(v, n, i);
      BytesOfZero(n - i);
      forall k | i <= k < n
        ensures Bytes(v, n)[k] == 0
      {
        assert Bytes(v, n)[k] == Bytes(v, n)[i..][k - i];
      }
    }
  }

  // The seed encoder and the truncating serializer agree exactly on non-negative values and on multiples of 256^n.
  lemma SeedAgreesWithSerializer(v: int, n: nat)
    ensures Bytes(if v < 0 then 0 else v, n) == Bytes(v, n) <==> v >= 0 || v % Pow256(n) == 0
  {
    ValueOfBytes(v, n);
    ValueOfBytes(0, n);
    SmallMod(0, Pow256(n));
    if v < 0 && v % Pow256(n) == 0 {
      ValueInjective(Bytes(0, n), Bytes(v, n));
    }
  }

  // Two numbers share their n bytes exactly when they agree modulo 256^n.
  lemma SameBytesIff(a: int, b: int, n: nat)
    ensures Bytes(a, n) == Bytes(b, n) <==> a % Pow256(n) == b % Pow256(n)
  {
    ValueOfBytes(a, n);
    ValueOfBytes(b, n);
    if a % Pow256(n) == b % Pow256(n) {
      ValueInjective(Bytes(a, n), Bytes(b, n));
    }
  }

  // Distinct ids below 256^n have distinct seeds.
  lemma SeedsDistinct(a: nat, b: nat, n: nat)
    requires a < Pow256(n) && b < Pow256(n) && a != b
    ensures Bytes(a, n) != Bytes(b, n)
  {
    RoundTrip(a, n);
    RoundTrip(b, n);
  }
}
