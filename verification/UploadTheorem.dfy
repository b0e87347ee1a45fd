// When an upload succeeds: exactly for which lengths the accounts, grown as planned, hold the circuit afterwards.

module UploadTheorem {
  import opened ModArith
  import opened LittleEndian
  import opened ByteBuffers
  import opened Pieces
  import opened UploadPlan
  import opened UploadRuns

  // The bytes behind the headers of the accounts of a circuit, each grown for its part.
  predicate Grown(buffers: seq<seq<byte>>, parts: seq<seq<byte>>) {
    |buffers| == AccountCount(|parts|) && forall b :: 0 <= b < |buffers| ==> |buffers[b]| == Room(|parts[b]|)
  }

  // A complete upload of a circuit: accounts as planned, and every write has completed, in any order.
  predicate IsUpload(rawCircuit: seq<byte>, buffers: seq<seq<byte>>, max: int, events: seq<Event>)
    requires max > 0
  {
    Grown(buffers, Parts(rawCircuit)) && ValidEvents(Parts(rawCircuit), max, events) && Completed(Parts(rawCircuit), max, events)
  }

  // The accounts hold every part, and so the circuit.
  predicate Holds(rawCircuit: seq<byte>, buffers: seq<seq<byte>>, max: int, events: seq<Event>)
    requires max > 0 && IsUpload(rawCircuit, buffers, max, events)
  {
    HasRoom(buffers, Parts(rawCircuit)) && Prefixes(Run(buffers, Parts(rawCircuit), max, events), Parts(rawCircuit)) == Parts(rawCircuit)
  }

  // Every upload of every circuit of a length succeeds.
  ghost predicate AlwaysHolds(length: nat, max: int)
    requires max > 0
  {
    forall rawCircuit: seq<byte>, buffers, events ::
      |rawCircuit| == length && IsUpload(rawCircuit, buffers, max, events) ==> Holds(rawCircuit, buffers, max, events)
  }

  // The circuit fits if there are at most 256 accounts and the last part ends before the last nine bytes of a grow step.
  predicate GoodLength(length: nat) {
    length == 0
    || (length <= 256 * BYTES_PER_ACCOUNT
        && (length - 1) % BYTES_PER_ACCOUNT % MAX_REALLOC_PER_IX < MAX_REALLOC_PER_IX - HEADER_SIZE)
  }

  // ----- the lengths of the parts

  lemma PartLength(length: nat, a: nat)
    requires a < PieceCount(length, BYTES_PER_ACCOUNT)
    ensures a * BYTES_PER_ACCOUNT < length
    ensures a < PieceCount(length, BYTES_PER_ACCOUNT) - 1 ==> (a + 1) * BYTES_PER_ACCOUNT < length
    ensures a == PieceCount(length, BYTES_PER_ACCOUNT) - 1 ==>
              length <= (a + 1) * BYTES_PER_ACCOUNT && length - a * BYTES_PER_ACCOUNT - 1 == (length - 1) % BYTES_PER_ACCOUNT
  {
    BelowCeil(length, BYTES_PER_ACCOUNT, a);
    BelowCeil(length, BYTES_PER_ACCOUNT, a + 1);
  }

  lemma PartSize(rawCircuit: seq<byte>, a: nat)
    requires a < |Parts(rawCircuit)|
    ensures 0 < |Parts(rawCircuit)[a]| <= BYTES_PER_ACCOUNT
    ensures a < |Parts(rawCircuit)| - 1 ==> |Parts(rawCircuit)[a]| == BYTES_PER_ACCOUNT
    ensures a == |Parts(rawCircuit)| - 1 ==> |Parts(rawCircuit)[a]| - 1 == (|rawCircuit| - 1) % BYTES_PER_ACCOUNT
  {
    PartLength(|rawCircuit|, a);
  }

  // A part has room in its account exactly if it is full or ends early enough.
  lemma PartHasRoom(rawCircuit: seq<byte>, a: nat)
    requires a < |Parts(rawCircuit)|
    ensures |Parts(rawCircuit)[a]| <= Room(|Parts(rawCircuit)[a]|)
            <==> a < |Parts(rawCircuit)| - 1
                 || (|rawCircuit| - 1) % BYTES_PER_ACCOUNT % MAX_REALLOC_PER_IX < MAX_REALLOC_PER_IX - HEADER_SIZE
  {
    hide Room, Parts;
    PartSize(rawCircuit, a);
    GrownEnough(|Parts(rawCircuit)[a]|);
    if a < |Parts(rawCircuit)| - 1 { RoomExamples(); }
  }

  lemma CountOfParts(rawCircuit: seq<byte>)
    ensures |Parts(rawCircuit)| <= 256 <==> |rawCircuit| <= 256 * BYTES_PER_ACCOUNT
    ensures |Parts(rawCircuit)| == 0 <==> rawCircuit == []
  {
    BelowCeil(|rawCircuit|, BYTES_PER_ACCOUNT, 256);
    BelowCeil(|rawCircuit|, BYTES_PER_ACCOUNT, 0);
  }

  // ----- good lengths

  // For a good length any complete upload leaves the circuit in its accounts, in any order and in any interleaving.
  lemma CircuitUploaded(rawCircuit: seq<byte>, buffers: seq<seq<byte>>, max: int, events: seq<Event>)
    requires max > 0 && GoodLength(|rawCircuit|) && IsUpload(rawCircuit, buffers, max, events)
    ensures Holds(rawCircuit, buffers, max, events)
  {
    hide Run, Room, Parts, Completed, ValidEvents;
    var parts := Parts(rawCircuit);
    CountOfParts(rawCircuit);
    forall a | 0 <= a < |parts|
      ensures |parts[a]| <= |buffers[AccountOf(a)]|
    {
      PartHasRoom(rawCircuit, a);
    }
    CompletedRun(buffers, parts, max, events);
  }

  // ----- some complete upload of any circuit

  function PartEvents(a: nat, n: nat): (events: seq<Event>)
    ensures forall e :: e in events <==> e.part == a && e.upload < n
  {
    if n == 0 then [] else PartEvents(a, n - 1) + [Event(a, n - 1)]
  }

  function AllEvents(parts: seq<seq<byte>>, max: int, n: nat): (events: seq<Event>)
    requires max > 0 && n <= |parts|
    ensures forall e :: e in events <==> e.part < n && e.upload < PieceCount(|parts[e.part]|, max)
  {
    if n == 0 then [] else AllEvents(parts, max, n - 1) + PartEvents(n - 1, PieceCount(|parts[n - 1]|, max))
  }

  function EmptyAccounts(parts: seq<seq<byte>>): (buffers: seq<seq<byte>>)
    ensures Grown(buffers, parts)
  {
    seq(AccountCount(|parts|), b requires 0 <= b < AccountCount(|parts|) => Zeros(Room(|parts[b]|)))
  }

  lemma SomeUpload(rawCircuit: seq<byte>, max: int)
    requires max > 0
    ensures IsUpload(rawCircuit, EmptyAccounts(Parts(rawCircuit)), max, AllEvents(Parts(rawCircuit), max, |Parts(rawCircuit)|))
  {
    hide Parts, EmptyAccounts, AllEvents, PieceCount;
  }

  // ----- bad lengths

  function OneThenZeros(n: nat): (bytes: seq<byte>)
    requires n > 0
    ensures |bytes| == n && bytes[0] == 1 && forall i :: 1 <= i < n ==> bytes[i] == 0
  {
    [1] + Zeros(n - 1)
  }

  // Parts 0 and 256 differ in their first byte, and one account cannot hold both.
  lemma SharedAccount(length: nat, buffers: seq<seq<byte>>, max: int, events: seq<Event>)
    requires max > 0 && length > 256 * BYTES_PER_ACCOUNT && IsUpload(OneThenZeros(length), buffers, max, events)
    ensures !Holds(OneThenZeros(length), buffers, max, events)
  {
    hide Run, Room, Parts, OneThenZeros, Grown, Completed, ValidEvents;
    var rawCircuit := OneThenZeros(length);
    var parts := Parts(rawCircuit);
    CountOfParts(rawCircuit);
    FirstByte(rawCircuit, 0);
    FirstByte(rawCircuit, 256);
    if HasRoom(buffers, parts) {
      var read := Prefixes(Run(buffers, parts, max, events), parts);
      assert read[0][0] == Run(buffers, parts, max, events)[0][0] == read[256][0];
    }
  }

  lemma FirstByte(rawCircuit: seq<byte>, a: nat)
    requires a < |Parts(rawCircuit)|
    ensures |Parts(rawCircuit)[a]| > 0 && a * BYTES_PER_ACCOUNT < |rawCircuit|
    ensures Parts(rawCircuit)[a][0] == rawCircuit[a * BYTES_PER_ACCOUNT]
  {
    PartLength(|rawCircuit|, a);
    PieceExtends(rawCircuit, BYTES_PER_ACCOUNT, a);
  }

  // The last part does not fit behind the header.
  lemma NoRoomForHeader(rawCircuit: seq<byte>, buffers: seq<seq<byte>>, max: int, events: seq<Event>)
    requires max > 0 && IsUpload(rawCircuit, buffers, max, events)
    requires 0 < |rawCircuit| <= 256 * BYTES_PER_ACCOUNT && !GoodLength(|rawCircuit|)
    ensures !Holds(rawCircuit, buffers, max, events)
  {
    hide Run, Room, Parts, Completed, ValidEvents;
    CountOfParts(rawCircuit);
    PartHasRoom(rawCircuit, |Parts(rawCircuit)| - 1);
  }

  // Uploads of a length always succeed exactly for good lengths.
  lemma UploadSucceedsIff(length: nat, max: int)
    requires max > 0
    ensures AlwaysHolds(length, max) <==> GoodLength(length)
  {
    hide IsUpload, Holds, OneThenZeros;
    if GoodLength(length) {
      forall rawCircuit: seq<byte>, buffers, events | |rawCircuit| == length && IsUpload(rawCircuit, buffers, max, events)
        ensures Holds(rawCircuit, buffers, max, events)
      {
        CircuitUploaded(rawCircuit, buffers, max, events);
      }
    } else {
      var rawCircuit := OneThenZeros(length);
      var buffers, events := EmptyAccounts(Parts(rawCircuit)), AllEvents(Parts(rawCircuit), max, |Parts(rawCircuit)|);
      SomeUpload(rawCircuit, max);
      if length > 256 * BYTES_PER_ACCOUNT {
        SharedAccount(length, buffers, max, events);
      } else {
        NoRoomForHeader(rawCircuit, buffers, max, events);
      }
    }
  }

  // 10232 bytes are the first that do not fit, and 10240 bytes do not.
  lemma FirstBadLength()
    ensures !GoodLength(10232) && !GoodLength(10240) && forall n: nat :: n < 10232 ==> GoodLength(n)
  {
  }

  // What accounts that hold every part hold together is the circuit.
  lemma HeldCircuit(rawCircuit: seq<byte>, buffers: seq<seq<byte>>, max: int, events: seq<Event>)
    requires max > 0 && IsUpload(rawCircuit, buffers, max, events) && Holds(rawCircuit, buffers, max, events)
    ensures Flatten(Prefixes(Run(buffers, Parts(rawCircuit), max, events), Parts(rawCircuit))) == rawCircuit
  {
    hide Run;
    PartsTogether(rawCircuit, |Parts(rawCircuit)|);
    CeilPositive(|rawCircuit|, BYTES_PER_ACCOUNT);
    BelowCeil(|rawCircuit|, BYTES_PER_ACCOUNT, |Parts(rawCircuit)|);
    assert Parts(rawCircuit)[..|Parts(rawCircuit)|] == Parts(rawCircuit);
  }

  lemma {:induction false} PartsTogether(rawCircuit: seq<byte>, n: nat)
    requires n <= |Parts(rawCircuit)|
    ensures Flatten(Parts(rawCircuit)[..n]) == rawCircuit[..Min(n * BYTES_PER_ACCOUNT, |rawCircuit|)]
  {
    if n > 0 {
      PartsTogether(rawCircuit, n - 1);
      PieceExtends(rawCircuit, BYTES_PER_ACCOUNT, n - 1);
      assert Parts(rawCircuit)[..n] == Parts(rawCircuit)[..n - 1] + [Parts(rawCircuit)[n - 1]];
      FlattenSnoc(Parts(rawCircuit)[..n - 1], Parts(rawCircuit)[n - 1]);
    }
  }
}
