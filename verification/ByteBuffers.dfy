// Byte buffers that are filled piece by piece.

module ByteBuffers {
  import opened LittleEndian

  function Zeros(n: nat): (bytes: seq<byte>)
    ensures |bytes| == n && forall i :: 0 <= i < n ==> bytes[i] == 0
  {
    seq(n, _ => 0)
  }

  // A byte string filled up with zeros.
  function Pad(bytes: seq<byte>, n: nat): (padded: seq<byte>)
    requires |bytes| <= n
    ensures |padded| == n
    ensures forall i :: 0 <= i < n ==> padded[i] == if i < |bytes| then bytes[i] else 0
  {
    bytes + Zeros(n - |bytes|)
  }

  method NewBuffer(n: nat) returns (buffer: array<byte>)
    ensures fresh(buffer) && buffer[..] == Zeros(n)
  {
    buffer := new byte[n](_ => 0);
  }

  // Copying a byte string to a position. What lies before it and after it stays.
  method SetAt(target: array<byte>, source: seq<byte>, offset: nat)
    requires offset + |source| <= target.Length
    modifies target
    ensures target[..offset] == old(target[..offset])
    ensures target[offset..offset + |source|] == source
    ensures target[offset + |source|..] == old(target[offset + |source|..])
    ensures target[..offset + |source|] == old(target[..offset]) + source
  {
    for i := 0 to |source|
      invariant target[..offset] == old(target[..offset])
      invariant target[offset..offset + i] == source[..i]
      invariant target[offset + i..] == old(target[offset + i..])
    {
      target[offset + i] := source[i];
    }
    assert target[..offset + |source|] == target[..offset] + target[offset..offset + |source|];
  }
}
