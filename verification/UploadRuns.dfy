// Uploading one part of a circuit: a chunked series of zero-padded writes that complete in any order.

module UploadRuns {
  import opened ModArith
  import opened PrimeField
  import opened LittleEndian
  import opened ByteBuffers
  import opened Pieces
  import opened UploadPlan

  datatype Write = Write(offset: nat, data: seq<byte>)

  // Every write of a part, max bytes each. The last one is filled up with zeros.
  function Writes(part: seq<byte>, max: int): (writes: seq<Write>)
    requires max > 0
    ensures |writes| == PieceCount(|part|, max)
    ensures forall k :: 0 <= k < |writes| ==> writes[k] == WriteAt(part, max, k)
  {
    seq(PieceCount(|part|, max), k requires 0 <= k < PieceCount(|part|, max) => WriteAt(part, max, k))
  }

  function WriteAt(part: seq<byte>, max: int, k: nat): Write
    requires max > 0 && k < PieceCount(|part|, max)
  {
    BelowCeil(|part|, max, k);
    MulNonneg(k, max);
    Write(k * max, Pad(Piece(part, max, k), max))
  }

  // The chunk loop issues every write once, in order. An upload longer than the limit would be refused; none is.
  method UploadPart(part: seq<byte>, max: int, chunkSize: nat) returns (writes: seq<Write>)
    requires max >= 1 && chunkSize >= 1
    ensures writes == Writes(part, max)
  {
    var uploadTxCount := PieceCount(|part|, max);
    writes := [];
    var i := 0;
    while i < uploadTxCount
      invariant writes == Writes(part, max)[..Min(i, uploadTxCount)]
    {
      var currentChunkSize := Min(chunkSize, uploadTxCount - i);
      for j := 0 to currentChunkSize
        invariant writes == Writes(part, max)[..i + j]
      {
        var write := UploadSlice(part, max, i + j);
        writes := writes + [write];
      }
      i := i + chunkSize;
    }
  }

  method UploadSlice(part: seq<byte>, max: int, k: nat) returns (write: Write)
    requires max >= 1 && k < PieceCount(|part|, max)
    ensures write == WriteAt(part, max, k)
  {
    PieceExtends(part, max, k);
    BelowCeil(|part|, max, k);
    assert (k + 1) * max == k * max + max;
    var circuitOffset := max * k;
    var slice := part[circuitOffset..Min(circuitOffset + max, |part|)];
    assert slice == Piece(part, max, k);
    write := Write(circuitOffset, Pad(slice, max));
  }

  // Position x of the part lies in write x / max and in no other.
  lemma WriteCovers(part: seq<byte>, max: int, k: nat, x: nat)
    requires max > 0 && k < PieceCount(|part|, max)
    ensures var w := WriteAt(part, max, k);
            w.offset <= x < w.offset + |w.data| <==> x / max == k
  {
    assert x == (x / max) * max + x % max;
    assert (x / max - k) * max == (x / max) * max - k * max;
    MulBound(x / max - k, max);
  }

  predicate InSome(writes: seq<Write>, x: int) {
    exists k :: 0 <= k < |writes| && InWrite(writes[k], x)
  }

  lemma WritesApart(part: seq<byte>, max: int, j: nat, k: nat)
    requires max > 0 && j < k < PieceCount(|part|, max)
    ensures WriteAt(part, max, j).offset + max <= WriteAt(part, max, k).offset
  {
    hide PieceCount;
    assert (k - j) * max == k * max - j * max;
    MulBound(k - j, max);
  }

  lemma EveryByteWritten(part: seq<byte>, max: int, x: nat)
    requires max > 0 && x < |part|
    ensures InSome(Writes(part, max), x)
  {
    hide PieceCount, InWrite;
    var k := x / max;
    PieceOf(|part|, max, x);
    WrittenByte(part, max, k, x);
    assert InWrite(Writes(part, max)[k], x);
  }

  // Writes tile the part: no two touch the same position, and every position is in one.
  lemma WritesTile(part: seq<byte>, max: int)
    requires max > 0
    ensures var writes := Writes(part, max);
            && (forall j, k :: 0 <= j < k < |writes| ==> writes[j].offset + |writes[j].data| <= writes[k].offset)
            && (forall x :: 0 <= x < |part| ==> InSome(writes, x))
  {
    hide PieceCount, InWrite, InSome;
    var writes := Writes(part, max);
    forall j, k | 0 <= j < k < |writes|
      ensures writes[j].offset + |writes[j].data| <= writes[k].offset
    {
      WritesApart(part, max, j, k);
    }
    forall x | 0 <= x < |part|
      ensures InSome(writes, x)
    {
      EveryByteWritten(part, max, x);
    }
  }

  predicate InWrite(w: Write, x: int) {
    w.offset <= x < w.offset + |w.data|
  }

  // ----- completion in any order

  // The effect of a write on the bytes behind the header of an account: what would fall behind their end is dropped.
  function Apply(buffer: seq<byte>, w: Write): (result: seq<byte>)
    ensures |result| == |buffer|
    ensures forall x :: 0 <= x < |buffer| ==> result[x] == if InWrite(w, x) then w.data[x - w.offset] else buffer[x]
  {
    seq(|buffer|, x requires 0 <= x < |buffer| => if InWrite(w, x) then w.data[x - w.offset] else buffer[x])
  }

  // Parts are numbered, but account address and instruction carry one byte of the number.
  function AccountOf(part: nat): (account: nat)
    ensures part < 256 ==> account == part
  {
    part % 256
  }

  function AccountCount(parts: nat): (n: nat)
    ensures forall a: nat :: a < parts ==> AccountOf(a) < n
    ensures n <= parts
  {
    if parts <= 256 then parts else 256
  }

  // One write of one part has completed.
  datatype Event = Event(part: nat, upload: nat)

  predicate ValidEvent(parts: seq<seq<byte>>, max: int, e: Event)
    requires max > 0
  {
    e.part < |parts| && e.upload < PieceCount(|parts[e.part]|, max)
  }

  predicate ValidEvents(parts: seq<seq<byte>>, max: int, events: seq<Event>)
    requires max > 0
  {
    forall e :: e in events ==> ValidEvent(parts, max, e)
  }

  // Accounts after a run: writes of all parts complete in the order of the events. A write may complete more than
  // once, or never.
  function Run(buffers: seq<seq<byte>>, parts: seq<seq<byte>>, max: int, events: seq<Event>): (result: seq<seq<byte>>)
    requires max > 0 && |buffers| == AccountCount(|parts|) && ValidEvents(parts, max, events)
    ensures |result| == |buffers|
    ensures forall b :: 0 <= b < |buffers| ==> |result[b]| == |buffers[b]|
  {
    if events == [] then buffers
    else
      var e := events[|events| - 1];
      assert ValidEvent(parts, max, e);
      var before := Run(buffers, parts, max, events[..|events| - 1]);
      var account := AccountOf(e.part);
      before[account := Apply(before[account], WriteAt(parts[e.part], max, e.upload))]
  }

  function PaddedAt(part: seq<byte>, x: nat): byte {
    if x < |part| then part[x] else 0
  }

  lemma WrittenByte(part: seq<byte>, max: int, k: nat, x: nat)
    requires max > 0 && k < PieceCount(|part|, max) && x / max == k
    ensures var w := WriteAt(part, max, k);
            InWrite(w, x) && w.data[x - w.offset] == PaddedAt(part, x)
  {
    WriteCovers(part, max, k, x);
    assert (k + 1) * max == k * max + max;
  }

  lemma ApplyAt(buffer: seq<byte>, part: seq<byte>, max: int, k: nat, x: nat)
    requires max > 0 && k < PieceCount(|part|, max) && x < |buffer|
    ensures Apply(buffer, WriteAt(part, max, k))[x] == if x / max == k then PaddedAt(part, x) else buffer[x]
  {
    WriteCovers(part, max, k, x);
    if x / max == k { WrittenByte(part, max, k, x); }
  }

  // The last event that wrote piece k of account b.
  function LastWriter(events: seq<Event>, b: nat, k: nat): Option<Event> {
    if events == [] then None
    else
      var e := events[|events| - 1];
      if AccountOf(e.part) == b && e.upload == k then Some(e) else LastWriter(events[..|events| - 1], b, k)
  }

  lemma {:induction false} LastWriterIsEvent(events: seq<Event>, b: nat, k: nat)
    ensures var w := LastWriter(events, b, k);
            && (w.Some? ==> w.value in events && AccountOf(w.value.part) == b && w.value.upload == k)
            && (w.None? ==> forall e :: e in events ==> !(AccountOf(e.part) == b && e.upload == k))
  {
    if events != [] {
      LastWriterIsEvent(events[..|events| - 1], b, k);
      assert events == events[..|events| - 1] + [events[|events| - 1]];
    }
  }

  // The invariant of every run: a byte is what the last write to its piece left, or as it was.
  lemma {:induction false} RunState(buffers: seq<seq<byte>>, parts: seq<seq<byte>>, max: int, events: seq<Event>,
                                    b: nat, x: nat)
    requires max > 0 && |buffers| == AccountCount(|parts|) && ValidEvents(parts, max, events)
    requires b < |buffers| && x < |buffers[b]|
    ensures var w := LastWriter(events, b, x / max);
            && (w.Some? ==> w.value.part < |parts|)
            && Run(buffers, parts, max, events)[b][x] == if w.Some? then PaddedAt(parts[w.value.part], x) else buffers[b][x]
  {
    if events != [] {
      hide Apply, WriteAt, PieceCount, PaddedAt, AccountOf, AccountCount;
      var n := |events| - 1;
      var e := events[n];
      assert ValidEvent(parts, max, e);
      assert events == events[..n] + [e];
      RunState(buffers, parts, max, events[..n], b, x);
      if AccountOf(e.part) == b {
        ApplyAt(Run(buffers, parts, max, events[..n])[b], parts[e.part], max, e.upload, x);
      }
    }
  }

  // While every part has its own account, a byte is in place exactly from the moment its write has completed. Nothing
  // else about the order matters.
  lemma RunStateApart(buffers: seq<seq<byte>>, parts: seq<seq<byte>>, max: int, events: seq<Event>, a: nat, x: nat)
    requires max > 0 && |parts| <= 256 && |buffers| == |parts| && ValidEvents(parts, max, events)
    requires a < |buffers| && x < |buffers[a]|
    ensures Run(buffers, parts, max, events)[a][x]
            == if Event(a, x / max) in events then PaddedAt(parts[a], x) else buffers[a][x]
  {
    hide Run, PaddedAt, LastWriter, PieceCount;
    RunState(buffers, parts, max, events, a, x);
    LastWriterIsEvent(events, a, x / max);
    assert forall e :: e in events ==> e.part < |parts| by {
      forall e | e in events ensures e.part < |parts| { assert ValidEvent(parts, max, e); }
    }
    if LastWriter(events, a, x / max).Some? {
      assert LastWriter(events, a, x / max).value == Event(a, x / max);
    }
  }

  // Two runs that complete the same writes end in the same state.
  lemma OrderIrrelevant(buffers: seq<seq<byte>>, parts: seq<seq<byte>>, max: int, one: seq<Event>, other: seq<Event>)
    requires max > 0 && |parts| <= 256 && |buffers| == |parts|
    requires ValidEvents(parts, max, one) && ValidEvents(parts, max, other)
    requires forall e :: e in one <==> e in other
    ensures Run(buffers, parts, max, one) == Run(buffers, parts, max, other)
  {
    hide Run;
    forall a | 0 <= a < |buffers|
      ensures Run(buffers, parts, max, one)[a] == Run(buffers, parts, max, other)[a]
    {
      forall x | 0 <= x < |buffers[a]|
        ensures Run(buffers, parts, max, one)[a][x] == Run(buffers, parts, max, other)[a][x]
      {
        RunStateApart(buffers, parts, max, one, a, x);
        RunStateApart(buffers, parts, max, other, a, x);
      }
    }
  }

  // From 257 parts on, parts 0 and 256 write the same account, and whichever comes last stays.
  lemma OrderMatters(buffers: seq<seq<byte>>, parts: seq<seq<byte>>, max: int, events: seq<Event>)
    requires max > 0 && |parts| > 256 && |buffers| == AccountCount(|parts|) && ValidEvents(parts, max, events)
    requires |parts[0]| > 0 && |parts[256]| > 0 && |buffers[0]| > 0
    ensures ValidEvents(parts, max, events + [Event(0, 0)]) && ValidEvents(parts, max, events + [Event(256, 0)])
    ensures Run(buffers, parts, max, events + [Event(0, 0)])[0][0] == parts[0][0]
    ensures Run(buffers, parts, max, events + [Event(256, 0)])[0][0] == parts[256][0]
  {
    hide Run, Apply, WriteAt;
    BelowCeil(|parts[0]|, max, 0);
    BelowCeil(|parts[256]|, max, 0);
    SmallQuotient(max);
    RunState(buffers, parts, max, events + [Event(0, 0)], 0, 0);
    RunState(buffers, parts, max, events + [Event(256, 0)], 0, 0);
  }

  lemma SmallQuotient(max: int)
    requires max > 0
    ensures 0 / max == 0
  {
    DivModUnique(0, 0, 0, max);
  }

  // ----- what a complete run leaves behind

  predicate Completed(parts: seq<seq<byte>>, max: int, events: seq<Event>)
    requires max > 0
  {
    forall a, k :: 0 <= a < |parts| && 0 <= k < PieceCount(|parts[a]|, max) ==> Event(a, k) in events
  }

  predicate HasRoom(buffers: seq<seq<byte>>, parts: seq<seq<byte>>) {
    |buffers| == AccountCount(|parts|) && forall a :: 0 <= a < |parts| ==> |parts[a]| <= |buffers[AccountOf(a)]|
  }

  // Every part read back from its account: the first bytes, as many as the part has.
  function Prefixes(buffers: seq<seq<byte>>, parts: seq<seq<byte>>): (prefixes: seq<seq<byte>>)
    requires HasRoom(buffers, parts)
    ensures |prefixes| == |parts|
    ensures forall a :: 0 <= a < |parts| ==> prefixes[a] == buffers[AccountOf(a)][..|parts[a]|]
  {
    seq(|parts|, a requires 0 <= a < |parts| => buffers[AccountOf(a)][..|parts[a]|])
  }

  lemma CompletedRun(buffers: seq<seq<byte>>, parts: seq<seq<byte>>, max: int, events: seq<Event>)
    requires max > 0 && |parts| <= 256 && HasRoom(buffers, parts) && ValidEvents(parts, max, events)
    requires Completed(parts, max, events)
    ensures Prefixes(Run(buffers, parts, max, events), parts) == parts
  {
    hide Run, PieceCount;
    forall a | 0 <= a < |parts|
      ensures Run(buffers, parts, max, events)[a][..|parts[a]|] == parts[a]
    {
      forall x | 0 <= x < |parts[a]|
        ensures Run(buffers, parts, max, events)[a][x] == parts[a][x]
      {
        PieceOf(|parts[a]|, max, x);
        RunStateApart(buffers, parts, max, events, a, x);
      }
    }
  }

  // A buffer that holds the wrong byte at every position.
  function Wrong(part: seq<byte>): (buffer: seq<byte>)
    ensures |buffer| == |part|
    ensures forall x :: 0 <= x < |part| ==> buffer[x] != part[x]
  {
    seq(|part|, x requires 0 <= x < |part| => if part[x] == 0 then 1 else 0)
  }

  function AllWrong(parts: seq<seq<byte>>): (buffers: seq<seq<byte>>)
    requires |parts| <= 256
    ensures HasRoom(buffers, parts)
    ensures forall a :: 0 <= a < |parts| ==> buffers[a] == Wrong(parts[a])
  {
    seq(|parts|, a requires 0 <= a < |parts| => Wrong(parts[a]))
  }

  lemma MissingWriteShows(parts: seq<seq<byte>>, max: int, events: seq<Event>, a: nat, k: nat)
    requires max > 0 && |parts| <= 256 && ValidEvents(parts, max, events)
    requires a < |parts| && k < PieceCount(|parts[a]|, max) && Event(a, k) !in events
    ensures Prefixes(Run(AllWrong(parts), parts, max, events), parts) != parts
  {
    hide Run, PieceCount;
    var buffers := AllWrong(parts);
    FirstByteOfWrite(parts[a], max, k);
    RunStateApart(buffers, parts, max, events, a, k * max);
  }

  lemma FirstByteOfWrite(part: seq<byte>, max: int, k: nat)
    requires max > 0 && k < PieceCount(|part|, max)
    ensures 0 <= k * max < |part| && k * max / max == k
  {
    BelowCeil(|part|, max, k);
    MulNonneg(k, max);
    DivModUnique(k * max, k, 0, max);
  }

  // Whatever the accounts held before, they hold the parts afterwards exactly if every write completed at least once.
  lemma UploadedIff(parts: seq<seq<byte>>, max: int, events: seq<Event>)
    requires max > 0 && |parts| <= 256 && ValidEvents(parts, max, events)
    ensures (forall buffers :: HasRoom(buffers, parts) ==> Prefixes(Run(buffers, parts, max, events), parts) == parts)
            <==> Completed(parts, max, events)
  {
    hide Run, PieceCount;
    if Completed(parts, max, events) {
      forall buffers | HasRoom(buffers, parts)
        ensures Prefixes(Run(buffers, parts, max, events), parts) == parts
      {
        CompletedRun(buffers, parts, max, events);
      }
    } else {
      var a, k :| 0 <= a < |parts| && 0 <= k < PieceCount(|parts[a]|, max) && Event(a, k) !in events;
      MissingWriteShows(parts, max, events, a, k);
      assert HasRoom(AllWrong(parts), parts);
    }
  }

  // ----- the plan of the whole upload

  datatype AccountPlan = AccountPlan(part: seq<byte>, resizes: seq<int>, writes: seq<Write>)

  function PlannedParts(plans: seq<AccountPlan>): (parts: seq<seq<byte>>)
    ensures |parts| == |plans|
    ensures forall a :: 0 <= a < |plans| ==> parts[a] == plans[a].part
  {
    seq(|plans|, a requires 0 <= a < |plans| => plans[a].part)
  }

  method UploadCircuit(rawCircuit: seq<byte>, max: int, chunkSize: nat) returns (plans: seq<AccountPlan>)
    requires max >= 1 && chunkSize >= 1
    ensures PlannedParts(plans) == Parts(rawCircuit) && Flatten(PlannedParts(plans)) == rawCircuit
    ensures forall a :: 0 <= a < |plans| ==>
              && 0 < |plans[a].part| <= BYTES_PER_ACCOUNT
              && IsResizePlan(|plans[a].part|, plans[a].resizes)
              && plans[a].writes == Writes(plans[a].part, max)
  {
    hide Flatten, Writes, IsResizePlan;
    var parts := SplitCircuit(rawCircuit);
    plans := [];
    for a := 0 to |parts|
      invariant |plans| == a
      invariant forall b :: 0 <= b < a ==>
                  && plans[b].part == parts[b]
                  && IsResizePlan(|parts[b]|, plans[b].resizes)
                  && plans[b].writes == Writes(parts[b], max)
    {
      var resizes := ResizePlan(|parts[a]|);
      var writes := UploadPart(parts[a], max, chunkSize);
      plans := plans + [AccountPlan(parts[a], resizes, writes)];
    }
    assert PlannedParts(plans) == parts;
  }
}
