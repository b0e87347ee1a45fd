// Cutting a byte string into pieces of one length, the last of which may be shorter.

module Pieces {
  import opened ModArith
  import opened LittleEndian

  function PieceCount(length: nat, w: int): (n: nat)
    requires w > 0
    ensures n == CeilDiv(length, w)
  {
    BelowCeil(length, w, -1);
    MulBound(-1, w);
    CeilDiv(length, w)
  }

  // Piece k of s, in steps of w.
  function Piece(s: seq<byte>, w: int, k: nat): (piece: seq<byte>)
    requires w > 0 && k < PieceCount(|s|, w)
    ensures 0 < |piece| <= w
    ensures k * w < |s| && |piece| == Min((k + 1) * w, |s|) - k * w
  {
    BelowCeil(|s|, w, k);
    MulNonneg(k, w);
    assert (k + 1) * w == k * w + w;
    s[k * w..Min((k + 1) * w, |s|)]
  }

  // The next piece continues where the pieces before it end.
  lemma PieceExtends(s: seq<byte>, w: int, k: nat)
    requires w > 0 && k < PieceCount(|s|, w)
    ensures 0 <= k * w <= |s| && 0 <= (k + 1) * w
    ensures s[..k * w] + Piece(s, w, k) == s[..Min((k + 1) * w, |s|)]
  {
    BelowCeil(|s|, w, k);
    MulNonneg(k, w);
    assert (k + 1) * w == k * w + w;
  }

  // Position x lies in piece x / w.
  lemma PieceOf(length: nat, w: int, x: nat)
    requires w > 0 && x < length
    ensures x / w < PieceCount(length, w)
    ensures 0 <= x / w * w <= x < x / w * w + w
  {
    assert x == x / w * w + x % w;
    MulNonneg(x / w, w);
    BelowCeil(length, w, x / w);
  }
}
