// Choosing a free slot in the bitmap of a task queue, and the two-byte seed that names it.

module TaskSlots {
  import opened ModArith
  import opened PrimeField
  import opened LittleEndian

  predicate BitOf(b: byte, i: nat) {
    b / Exp2(i) % 2 != 0
  }

  predicate Taken(bitmap: seq<byte>, id: nat)
    requires id < 8 * |bitmap|
  {
    BitOf(bitmap[id / 8], id % 8)
  }

  // The slot is free and every slot before it is taken.
  predicate LeastFree(bitmap: seq<byte>, id: nat) {
    && id < 8 * |bitmap|
    && !Taken(bitmap, id)
    && forall j :: 0 <= j < id ==> Taken(bitmap, j)
  }

  predicate AllTaken(bitmap: seq<byte>) {
    forall j :: 0 <= j < 8 * |bitmap| ==> Taken(bitmap, j)
  }

  lemma SmallPowers()
    ensures Exp2(0) == 1 && Exp2(1) == 2 && Exp2(2) == 4 && Exp2(3) == 8
    ensures Exp2(4) == 16 && Exp2(5) == 32 && Exp2(6) == 64 && Exp2(7) == 128
  {
    assert Exp2(4) == 2 * Exp2(3);
  }

  lemma BitAt(b: byte, i: nat, p: int)
    requires p > 0 && Exp2(i) == p
    ensures BitOf(b, i) <==> b / p % 2 != 0
  {
  }

  function Digit(bit: bool): int { if bit then 1 else 0 }

  // Slot i of a byte is its bit of weight 2^i.
  lemma BitsOfByte(b: byte)
    ensures b == Digit(BitOf(b, 0)) + 2 * Digit(BitOf(b, 1)) + 4 * Digit(BitOf(b, 2)) + 8 * Digit(BitOf(b, 3))
                 + 16 * Digit(BitOf(b, 4)) + 32 * Digit(BitOf(b, 5)) + 64 * Digit(BitOf(b, 6)) + 128 * Digit(BitOf(b, 7))
  {
    hide BitOf, Exp2, Digit, Shifted;
    NextBit(b, 0);
    NextBit(b, 1);
    NextBit(b, 2);
    NextBit(b, 3);
    NextBit(b, 4);
    NextBit(b, 5);
    NextBit(b, 6);
    NextBit(b, 7);
    ShiftedEnds(b);
  }

  function Shifted(b: int, i: nat): int { b / Exp2(i) }

  lemma NextBit(b: byte, i: nat)
    ensures Shifted(b, i) == Digit(BitOf(b, i)) + 2 * Shifted(b, i + 1)
  {
    assert Exp2(i + 1) == 2 * Exp2(i);
    MulCommutes(Exp2(i), 2);
    ModProduct(b, Exp2(i), 2);
  }

  lemma ShiftedEnds(b: byte)
    ensures Shifted(b, 0) == b && Shifted(b, 8) == 0
  {
    hide Exp2;
    SmallPowers();
    assert Exp2(8) == 256 by { EighthPower(); }
    DivModUnique(b, 0, b, 256);
    DivModUnique(b, b, 0, 1);
  }

  lemma EighthPower()
    ensures Exp2(8) == 256
  {
    SmallPowers();
    assert Exp2(8) == 2 * Exp2(7);
  }

  // A byte has all its bits set exactly if it is 0xff: skipping 0xff skips nothing that is free.
  lemma FullByte(b: byte)
    ensures b == 0xff <==> forall i :: 0 <= i < 8 ==> BitOf(b, i)
  {
    hide BitOf;
    BitsOfByte(b);
  }

  lemma SlotOf(bitmap: seq<byte>, byteIdx: nat, bitIdx: nat)
    requires byteIdx < |bitmap| && bitIdx < 8
    ensures Taken(bitmap, byteIdx * 8 + bitIdx) <==> BitOf(bitmap[byteIdx], bitIdx)
  {
  }

  // The eight slots of one byte are all taken exactly if the byte is 0xff.
  lemma SlotsOfByte(bitmap: seq<byte>, byteIdx: nat)
    requires byteIdx < |bitmap|
    ensures bitmap[byteIdx] == 0xff <==> forall j :: 8 * byteIdx <= j < 8 * byteIdx + 8 ==> Taken(bitmap, j)
  {
    hide BitOf;
    FullByte(bitmap[byteIdx]);
    if forall j :: 8 * byteIdx <= j < 8 * byteIdx + 8 ==> Taken(bitmap, j) {
      forall i | 0 <= i < 8
        ensures BitOf(bitmap[byteIdx], i)
      {
        SlotOf(bitmap, byteIdx, i);
      }
    }
    if bitmap[byteIdx] == 0xff {
      forall j | 8 * byteIdx <= j < 8 * byteIdx + 8
        ensures Taken(bitmap, j)
      {
        SlotOf(bitmap, byteIdx, j - 8 * byteIdx);
      }
    }
  }

  method NextAvailableTaskId(taskBitmap: seq<byte>) returns (id: Option<nat>)
    ensures id.None? <==> AllTaken(taskBitmap)
    ensures id.Some? ==> LeastFree(taskBitmap, id.value)
  {
    hide BitOf;
    for byteIdx := 0 to |taskBitmap|
      invariant forall j :: 0 <= j < 8 * byteIdx ==> Taken(taskBitmap, j)
    {
      var b := taskBitmap[byteIdx];
      if b != 0xff {
        for bitIdx := 0 to 8
          invariant forall j :: 0 <= j < 8 * byteIdx + bitIdx ==> Taken(taskBitmap, j)
        {
          SlotOf(taskBitmap, byteIdx, bitIdx);
          if !BitOf(b, bitIdx) {
            assert !Taken(taskBitmap, byteIdx * 8 + bitIdx);
            return Some(byteIdx * 8 + bitIdx);
          }
        }
      } else {
        SlotsOfByte(taskBitmap, byteIdx);
      }
    }
    return None;
  }

  // No slot is free exactly if every byte is 0xff.
  lemma AllTakenIsAllOnes(bitmap: seq<byte>)
    ensures AllTaken(bitmap) <==> forall k :: 0 <= k < |bitmap| ==> bitmap[k] == 0xff
  {
    hide BitOf;
    forall k | 0 <= k < |bitmap|
      ensures bitmap[k] == 0xff <==> forall j :: 8 * k <= j < 8 * k + 8 ==> Taken(bitmap, j)
    {
      SlotsOfByte(bitmap, k);
    }
    if forall k :: 0 <= k < |bitmap| ==> bitmap[k] == 0xff {
      forall j | 0 <= j < 8 * |bitmap|
        ensures Taken(bitmap, j)
      {
        assert bitmap[j / 8] == 0xff;
      }
    }
  }

  // The capacity of the queue is not consulted. The answer lies below it exactly if some slot below it is free.
  lemma CapacityRespectedIff(bitmap: seq<byte>, capacity: nat, id: nat)
    requires LeastFree(bitmap, id) && capacity <= 8 * |bitmap|
    ensures id < capacity <==> exists j :: 0 <= j < capacity && !Taken(bitmap, j)
  {
  }

  // With the first five of eight slots taken, a queue of capacity five is answered with slot five.
  lemma CapacityExceeded()
    ensures LeastFree([0x1f], 5)
  {
    hide BitOf, Exp2;
    SmallPowers();
    BitAt(0x1f, 0, 1);
    BitAt(0x1f, 1, 2);
    BitAt(0x1f, 2, 4);
    BitAt(0x1f, 3, 8);
    BitAt(0x1f, 4, 16);
    BitAt(0x1f, 5, 32);
  }

  // A task is created under the two-byte seed of its id; without a free slot the call fails.
  method TaskSeed(taskBitmap: seq<byte>) returns (seed: Option<seq<byte>>)
    ensures seed.None? <==> AllTaken(taskBitmap)
    ensures seed.Some? ==> exists id: nat :: LeastFree(taskBitmap, id) && seed.value == Bytes(id, 2)
  {
    hide LeastFree, AllTaken;
    var taskId := NextAvailableTaskId(taskBitmap);
    if taskId.None? {
      return None;
    }
    var buffer := BigIntToSeed(taskId.value, 2);
    seed := Some(buffer[..]);
  }

  // In a bitmap of up to 65536 slots the seed names one slot, and it is the least free one.
  lemma SeedNamesSlot(bitmap: seq<byte>, id: nat, other: nat)
    requires |bitmap| <= 8192 && LeastFree(bitmap, id) && other < 8 * |bitmap|
    ensures Value(Bytes(id, 2)) == id
    ensures Bytes(other, 2) == Bytes(id, 2) <==> other == id
  {
    assert Pow256(2) == 65536;
    RoundTrip(id, 2);
    RoundTrip(other, 2);
  }

  // Beyond that, slots that are a multiple of 65536 apart share a seed, and only those.
  lemma SeedsCollideIff(a: nat, b: nat)
    ensures Bytes(a, 2) == Bytes(b, 2) <==> a % 65536 == b % 65536
  {
    assert Pow256(2) == 65536;
    SameBytesIff(a, b, 2);
  }
}
