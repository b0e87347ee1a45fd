// Reading byte strings at a position: what it means for a field to lie there, and big-endian numbers.

module ByteReaders {
  import opened ModArith
  import opened LittleEndian

  // The field lies at the position.
  predicate HasAt(data: seq<byte>, offset: nat, field: seq<byte>) {
    offset + |field| <= |data| && data[offset..offset + |field|] == field
  }

  lemma HasBoth(data: seq<byte>, offset: nat, a: seq<byte>, b: seq<byte>)
    ensures HasAt(data, offset, a + b) <==> HasAt(data, offset, a) && HasAt(data, offset + |a|, b)
  {
    if offset + |a| + |b| <= |data| {
      var field := data[offset..offset + |a| + |b|];
      assert field == data[offset..offset + |a|] + data[offset + |a|..offset + |a| + |b|];
      assert field[..|a|] == data[offset..offset + |a|] && field[|a|..] == data[offset + |a|..offset + |a| + |b|];
      assert (a + b)[..|a|] == a && (a + b)[|a|..] == b;
    }
  }

  // A slice stops at the end of the data.
  function Slice(data: seq<byte>, from: nat, to: nat): (slice: seq<byte>)
    requires from <= to
    ensures to <= |data| ==> |slice| == to - from && HasAt(data, from, slice)
    ensures to > |data| ==> |slice| < to - from || from == to
  {
    if from >= |data| then [] else data[from..if to <= |data| then to else |data|]
  }

  // ----- big-endian numbers

  function BytesBE(v: nat, n: nat): (bytes: seq<byte>)
    ensures |bytes| == n
  {
    if n == 0 then [] else BytesBE(v / 256, n - 1) + [v % 256]
  }

  function ValueBE(bytes: seq<byte>): nat {
    if bytes == [] then 0 else 256 * ValueBE(bytes[..|bytes| - 1]) + bytes[|bytes| - 1]
  }

  lemma {:induction false} ValueOfBytesBE(v: nat, n: nat)
    requires v < Pow256(n)
    ensures ValueBE(BytesBE(v, n)) == v
    decreases n
  {
    if n == 0 {
      assert Pow256(0) == 1;
    } else {
      assert Pow256(n) == 256 * Pow256(n - 1);
      ValueOfBytesBE(v / 256, n - 1);
      assert BytesBE(v, n)[..n - 1] == BytesBE(v / 256, n - 1);
    }
  }

  lemma {:induction false} BytesOfValueBE(bytes: seq<byte>)
    ensures BytesBE(ValueBE(bytes), |bytes|) == bytes
    ensures ValueBE(bytes) < Pow256(|bytes|)
  {
    if bytes == [] {
      assert Pow256(0) == 1;
    } else {
      var n := |bytes| - 1;
      BytesOfValueBE(bytes[..n]);
      DivModUnique(ValueBE(bytes), ValueBE(bytes[..n]), bytes[n], 256);
      assert Pow256(n + 1) == 256 * Pow256(n);
    }
  }

  // Byte i of n is digit n - 1 - i of the number to base 256: the highest comes first.
  lemma {:induction false} ByteBEIs(v: nat, n: nat, i: nat)
    requires i < n
    ensures BytesBE(v, n)[i] == v / Pow256(n - 1 - i) % 256
    decreases n
  {
    if i == n - 1 {
      assert Pow256(0) == 1;
    } else {
      ByteBEIs(v / 256, n - 1, i);
      assert Pow256(n - 1 - i) == 256 * Pow256(n - 2 - i);
      ModProduct(v, 256, Pow256(n - 2 - i));
      assert BytesBE(v, n)[i] == BytesBE(v / 256, n - 1)[i];
    }
  }

  lemma OneAndTwoBytes(v: nat)
    ensures v < 0x100 ==> BytesBE(v, 1) == [v]
    ensures v < 0x1_0000 ==> BytesBE(v, 2) == [v / 256, v % 256]
  {
    hide BytesBE;
    ShortBE(v);
    TwoBE(v);
    if v < 0x100 { SmallMod(v, 256); }
    if v < 0x1_0000 { SmallMod(v / 256, 256); }
  }

  lemma TwoBE(v: nat)
    ensures BytesBE(v, 2) == [v / 256 % 256, v % 256]
  {
    ShortBE(v / 256);
  }

  lemma ShortBE(v: nat)
    ensures BytesBE(v, 1) == [v % 256]
  {
    assert BytesBE(v / 256, 0) == [];
  }

  // A number is read at a position exactly if its bytes lie there.
  lemma NumberAt(data: seq<byte>, offset: nat, n: nat, v: nat)
    requires offset + n <= |data| && v < Pow256(n)
    ensures ValueBE(data[offset..offset + n]) == v <==> HasAt(data, offset, BytesBE(v, n))
  {
    ValueOfBytesBE(v, n);
    BytesOfValueBE(data[offset..offset + n]);
  }

  // ----- hexadecimal names

  function HexDigit(d: nat): char
    requires d < 16
  {
    "0123456789abcdef"[d]
  }

  // The digits 0 to 9 and then the letters from a on.
  lemma HexDigitIs(d: nat)
    requires d < 16
    ensures HexDigit(d) as int == if d < 10 then '0' as int + d else 'a' as int + d - 10
  {
  }

  function Hex(bytes: seq<byte>): (hex: string)
    ensures |hex| == 2 * |bytes|
  {
    if bytes == [] then ""
    else
      var b := bytes[|bytes| - 1];
      Hex(bytes[..|bytes| - 1]) + [HexDigit(b / 16), HexDigit(b % 16)]
  }

  lemma HexSnoc(bytes: seq<byte>)
    requires bytes != []
    ensures var n := |bytes| - 1;
            && Hex(bytes)[..2 * n] == Hex(bytes[..n])
            && Hex(bytes)[2 * n] == HexDigit(bytes[n] / 16) && Hex(bytes)[2 * n + 1] == HexDigit(bytes[n] % 16)
  {
  }

  // Byte i of the string is written as its high digit and its low digit.
  lemma {:induction false} HexAt(bytes: seq<byte>, i: nat)
    requires i < |bytes|
    ensures Hex(bytes)[2 * i] == HexDigit(bytes[i] / 16) && Hex(bytes)[2 * i + 1] == HexDigit(bytes[i] % 16)
  {
    hide Hex, HexDigit;
    var n := |bytes| - 1;
    HexSnoc(bytes);
    if i < n {
      HexAt(bytes[..n], i);
      assert Hex(bytes)[2 * i] == Hex(bytes)[..2 * n][2 * i] && Hex(bytes)[2 * i + 1] == Hex(bytes)[..2 * n][2 * i + 1];
    }
  }

  // Different byte strings have different names.
  lemma {:induction false} HexInjective(a: seq<byte>, b: seq<byte>)
    requires Hex(a) == Hex(b)
    ensures a == b
  {
    hide Hex, HexDigit;
    assert |a| == |b|;
    if a != [] {
      var n := |a| - 1;
      HexSnoc(a);
      HexSnoc(b);
      HexInjective(a[..n], b[..n]);
      DigitsDiffer(a[n] / 16, b[n] / 16);
      DigitsDiffer(a[n] % 16, b[n] % 16);
      assert a == a[..n] + [a[n]] && b == b[..n] + [b[n]];
    }
  }

  lemma DigitsDiffer(d: nat, e: nat)
    requires d < 16 && e < 16
    ensures HexDigit(d) == HexDigit(e) <==> d == e
  {
  }
}
