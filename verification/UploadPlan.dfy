// Planning the upload of a circuit: splitting it over accounts, and growing each account to the size it needs.

module UploadPlan {
  import opened ModArith
  import opened LittleEndian
  import opened Pieces

  const MAX_REALLOC_PER_IX := 10240
  const MAX_EMBIGGEN_IX_PER_TX := 18
  const MAX_ACCOUNT_SIZE := 10485760
  const HEADER_SIZE := 9
  const BYTES_PER_ACCOUNT := MAX_ACCOUNT_SIZE - HEADER_SIZE

  // ----- parts put together

  function Flatten(parts: seq<seq<byte>>): seq<byte> {
    if parts == [] then [] else Flatten(parts[..|parts| - 1]) + parts[|parts| - 1]
  }

  lemma FlattenSnoc(parts: seq<seq<byte>>, part: seq<byte>)
    ensures Flatten(parts + [part]) == Flatten(parts) + part
  {
    assert (parts + [part])[..|parts|] == parts;
  }

  lemma FlattenNothing()
    ensures Flatten([]) == []
  {
  }

  // ----- splitting a circuit over accounts

  function Parts(rawCircuit: seq<byte>): (parts: seq<seq<byte>>)
    ensures |parts| == PieceCount(|rawCircuit|, BYTES_PER_ACCOUNT)
    ensures forall i :: 0 <= i < |parts| ==> parts[i] == Piece(rawCircuit, BYTES_PER_ACCOUNT, i)
  {
    seq(PieceCount(|rawCircuit|, BYTES_PER_ACCOUNT), i requires 0 <= i < PieceCount(|rawCircuit|, BYTES_PER_ACCOUNT) =>
      Piece(rawCircuit, BYTES_PER_ACCOUNT, i))
  }

  // All parts but the last have the full length.
  lemma PartLengths(rawCircuit: seq<byte>)
    ensures var parts := Parts(rawCircuit);
            forall i :: 0 <= i < |parts| ==> 0 < |parts[i]| && if i < |parts| - 1 then |parts[i]| == 10485751 else |parts[i]| <= 10485751
  {
    hide CeilDiv, Parts;
    var parts := Parts(rawCircuit);
    forall i | 0 <= i < |parts|
      ensures 0 < |parts[i]| && if i < |parts| - 1 then |parts[i]| == 10485751 else |parts[i]| <= 10485751
    {
      assert parts[i] == Piece(rawCircuit, BYTES_PER_ACCOUNT, i);
      BelowCeil(|rawCircuit|, BYTES_PER_ACCOUNT, i + 1);
    }
  }

  // The split into parts, which put together give the circuit.
  method SplitCircuit(rawCircuit: seq<byte>) returns (parts: seq<seq<byte>>)
    ensures parts == Parts(rawCircuit)
    ensures Flatten(parts) == rawCircuit
    ensures forall i :: 0 <= i < |parts| ==> 0 < |parts[i]| && if i < |parts| - 1 then |parts[i]| == 10485751 else |parts[i]| <= 10485751
  {
    hide Flatten, CeilDiv, Parts;
    PartLengths(rawCircuit);
    CeilPositive(|rawCircuit|, BYTES_PER_ACCOUNT);
    assert |Parts(rawCircuit)| == CeilDiv(|rawCircuit|, BYTES_PER_ACCOUNT);
    assert Flatten([]) == [] by { FlattenNothing(); }
    var bytesPerAccount := MAX_ACCOUNT_SIZE - 9;
    var numAccounts := CeilDiv(|rawCircuit|, bytesPerAccount);
    BelowCeil(|rawCircuit|, bytesPerAccount, numAccounts);
    parts := [];
    for i := 0 to numAccounts
      invariant |parts| == i
      invariant forall k :: 0 <= k < i ==> parts[k] == Piece(rawCircuit, bytesPerAccount, k)
      invariant Flatten(parts) == rawCircuit[..Min(i * bytesPerAccount, |rawCircuit|)]
    {
      PieceExtends(rawCircuit, bytesPerAccount, i);
      var start := i * bytesPerAccount;
      var end := Min((i + 1) * bytesPerAccount, |rawCircuit|);
      FlattenSnoc(parts, rawCircuit[start..end]);
      parts := parts + [rawCircuit[start..end]];
    }
  }

  // Account indices travel as one byte: they stay distinct exactly while there are at most 256 accounts.
  lemma AccountIndicesDistinctIff(blobLength: nat)
    ensures (forall i, j :: 0 <= i < j < CeilDiv(blobLength, BYTES_PER_ACCOUNT) ==> i % 256 != j % 256)
            <==> blobLength <= 256 * BYTES_PER_ACCOUNT
  {
    BelowCeil(blobLength, BYTES_PER_ACCOUNT, 256);
    if blobLength > 256 * BYTES_PER_ACCOUNT {
      var i, j := 0, 256;
      assert 0 <= i < j < CeilDiv(blobLength, BYTES_PER_ACCOUNT) && i % 256 == j % 256;
    } else {
      forall i, j | 0 <= i < j < CeilDiv(blobLength, BYTES_PER_ACCOUNT)
        ensures i % 256 != j % 256
      {
        assert j < 256;
      }
    }
  }

  // ----- growing an account

  function Total(counts: seq<int>): int {
    if counts == [] then 0 else Total(counts[..|counts| - 1]) + counts[|counts| - 1]
  }

  lemma TotalSnoc(counts: seq<int>, c: int)
    ensures Total(counts + [c]) == Total(counts) + c
  {
    assert (counts + [c])[..|counts|] == counts;
  }

  // The size of an account after it was created and grown by some number of instructions.
  function GrownSize(instructions: int): int {
    MAX_REALLOC_PER_IX + instructions * MAX_REALLOC_PER_IX
  }

  // The instructions that are left for transaction i, before they are capped.
  lemma GrowLeft(length: int, i: int)
    ensures CeilDiv(length - (MAX_REALLOC_PER_IX + i * (MAX_REALLOC_PER_IX * MAX_EMBIGGEN_IX_PER_TX)), MAX_REALLOC_PER_IX)
            == CeilDiv(length, MAX_REALLOC_PER_IX) - 1 - 18 * i
  {
  }

  lemma CeilOfMin(a: int, n: int, w: int)
    requires w > 0
    ensures CeilDiv(Min(a, n * w), w) == Min(CeilDiv(a, w), n)
  {
    BelowCeil(a, w, n);
    BelowCeil(n * w, w, n);
    BelowCeil(n * w, w, n - 1);
    MulBound(1, w);
    assert (n - 1) * w == n * w - w;
  }

  // The number of grow instructions a part needs.
  function GrowTotal(length: nat): int {
    if length <= MAX_REALLOC_PER_IX then 0 else CeilDiv(length, MAX_REALLOC_PER_IX) - 1
  }

  // The grow instructions of each resize transaction. Together they are exactly as many as the part needs, each
  // transaction holds at most 18, and all but the last hold 18; the last may be empty.
  predicate IsResizePlan(length: nat, counts: seq<int>) {
    && |counts| == (if length <= MAX_REALLOC_PER_IX then 0 else CeilDiv(length, MAX_REALLOC_PER_IX * MAX_EMBIGGEN_IX_PER_TX))
    && (forall i :: 0 <= i < |counts| ==> 0 <= counts[i] <= MAX_EMBIGGEN_IX_PER_TX)
    && (forall i :: 0 <= i < |counts| - 1 ==> counts[i] == MAX_EMBIGGEN_IX_PER_TX)
    && Total(counts) == GrowTotal(length)
  }

  method ResizePlan(length: nat) returns (counts: seq<int>)
    ensures IsResizePlan(length, counts)
  {
    counts := [];
    if length > MAX_REALLOC_PER_IX {
      ghost var needed := CeilDiv(length, MAX_REALLOC_PER_IX) - 1;
      var resizeTxCount := CeilDiv(length, MAX_REALLOC_PER_IX * MAX_EMBIGGEN_IX_PER_TX);
      TransactionCount(length);
      for i := 0 to resizeTxCount
        invariant |counts| == i
        invariant forall k :: 0 <= k < i ==> counts[k] == Min(needed - 18 * k, 18)
        invariant Total(counts) == Min(needed, 18 * i)
      {
        var currentSize := MAX_REALLOC_PER_IX + i * (MAX_REALLOC_PER_IX * MAX_EMBIGGEN_IX_PER_TX);
        var resizeSize := Min(length - currentSize, MAX_EMBIGGEN_IX_PER_TX * MAX_REALLOC_PER_IX);
        var instructionCount := CeilDiv(resizeSize, MAX_REALLOC_PER_IX);
        CeilOfMin(length - currentSize, 18, MAX_REALLOC_PER_IX);
        GrowLeft(length, i);
        TotalSnoc(counts, instructionCount);
        counts := counts + [instructionCount];
      }
    }
  }

  // The number of transactions covers the number of instructions needed, with at most one transaction to spare.
  lemma TransactionCount(length: nat)
    requires length > MAX_REALLOC_PER_IX
    ensures var needed := CeilDiv(length, MAX_REALLOC_PER_IX) - 1;
            var txs := CeilDiv(length, MAX_REALLOC_PER_IX * MAX_EMBIGGEN_IX_PER_TX);
            1 <= needed && 18 * (txs - 1) <= needed < 18 * txs
  {
  }

  // What a grown account has left for its part, behind the header.
  function Room(length: nat): (room: nat)
  {
    GrowTotalRange(length);
    GrownSize(GrowTotal(length)) - HEADER_SIZE
  }

  lemma GrowTotalRange(length: nat)
    ensures GrowTotal(length) >= 0
  {
  }

  // After all its resize transactions an account has at least the size of its part, and not a whole grow step more.
  // The part fits behind the header exactly if it does not end in the last nine bytes of a grow step.
  lemma GrownEnough(length: nat)
    requires length > 0
    ensures length <= GrownSize(GrowTotal(length)) < length + MAX_REALLOC_PER_IX
    ensures length <= Room(length) <==> (length - 1) % MAX_REALLOC_PER_IX < MAX_REALLOC_PER_IX - HEADER_SIZE
  {
    CeilPositive(length, MAX_REALLOC_PER_IX);
  }

  // A part that fills its account fits; a part of 10240 bytes is not grown and does not.
  lemma RoomExamples()
    ensures GrownSize(GrowTotal(BYTES_PER_ACCOUNT)) == MAX_ACCOUNT_SIZE && Room(BYTES_PER_ACCOUNT) == BYTES_PER_ACCOUNT
    ensures GrowTotal(10240) == 0 && Room(10240) == 10231
  {
  }

  // The last resize transaction is empty exactly if the others already reach the size of the part.
  lemma LastResizeEmptyIff(length: nat, counts: seq<int>)
    requires length > MAX_REALLOC_PER_IX
    requires IsResizePlan(length, counts)
    ensures |counts| > 0
    ensures counts[|counts| - 1] == 0 <==> length <= GrownSize(MAX_EMBIGGEN_IX_PER_TX * (|counts| - 1))
    ensures counts[|counts| - 1] == 0 <==> (length - 1) % (MAX_REALLOC_PER_IX * MAX_EMBIGGEN_IX_PER_TX) < MAX_REALLOC_PER_IX
  {
    hide CeilDiv, Total;
    TransactionCount(length);
    LastTransaction(length);
    var n := |counts| - 1;
    FullTransactions(counts[..n]);
    assert counts == counts[..n] + [counts[n]];
    TotalSnoc(counts[..n], counts[n]);
  }

  // The transactions before the last suffice exactly if the part ends in the first step that they leave.
  lemma LastTransaction(length: nat)
    requires length > MAX_REALLOC_PER_IX
    ensures var needed := CeilDiv(length, MAX_REALLOC_PER_IX) - 1;
            var txs := CeilDiv(length, MAX_REALLOC_PER_IX * MAX_EMBIGGEN_IX_PER_TX);
            && (needed == 18 * (txs - 1) <==> length <= GrownSize(MAX_EMBIGGEN_IX_PER_TX * (txs - 1)))
            && (needed == 18 * (txs - 1) <==> (length - 1) % (MAX_REALLOC_PER_IX * MAX_EMBIGGEN_IX_PER_TX) < MAX_REALLOC_PER_IX)
  {
    CeilOfPositive(length, MAX_REALLOC_PER_IX);
    CeilOfPositive(length, MAX_REALLOC_PER_IX * MAX_EMBIGGEN_IX_PER_TX);
    hide CeilDiv;
  }

  lemma CeilOfPositive(n: nat, w: int)
    requires n > 0 && w > 0
    ensures CeilDiv(n, w) == (n - 1) / w + 1
  {
    var q := (n - 1) / w;
    assert n - 1 == q * w + (n - 1) % w;
    assert (q + 1) * w == q * w + w;
    BelowCeil(n, w, q);
    BelowCeil(n, w, q + 1);
  }

  // A part of 184321 bytes is grown by 18 instructions, and a second transaction is sent without any.
  lemma EmptyResize(counts: seq<int>)
    requires IsResizePlan(184321, counts)
    ensures counts == [18, 0]
  {
    LastResizeEmptyIff(184321, counts);
  }

  lemma {:induction false} FullTransactions(counts: seq<int>)
    requires forall i :: 0 <= i < |counts| ==> counts[i] == MAX_EMBIGGEN_IX_PER_TX
    ensures Total(counts) == MAX_EMBIGGEN_IX_PER_TX * |counts|
  {
    if counts != [] { FullTransactions(counts[..|counts| - 1]); }
  }
}
