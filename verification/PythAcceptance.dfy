// Exactly which data the accumulator parser accepts: complete messages, and messages cut off inside the last proof. Of a
// cut message it returns everything but the end of that proof.

module PythAcceptance {
  import opened LittleEndian
  import opened ByteBuffers
  import opened ByteReaders
  import opened PythAccumulator
  import opened PythRoundTrip

  // The bytes of the last proof. They are sliced without a bounds check.
  function Unchecked(us: seq<WireUpdate>): nat {
    if us == [] then 0 else 20 * |us[|us| - 1].proof|
  }

  // The same update, with proof nodes that may be cut off.
  predicate Cut(u: WireUpdate, full: WireUpdate) {
    && u.message == full.message && |u.proof| == |full.proof|
    && forall j :: 0 <= j < |u.proof| ==> u.proof[j] <= full.proof[j]
  }

  // The same updates, the last of which may be cut.
  predicate CutLast(us: seq<WireUpdate>, full: seq<WireUpdate>) {
    && |us| == |full|
    && (us == [] || (us[..|us| - 1] == full[..|us| - 1] && Cut(us[|us| - 1], full[|us| - 1])))
  }

  lemma SliceExtends(data: seq<byte>, rest: seq<byte>, from: nat, to: nat)
    requires from <= to
    ensures Slice(data, from, to) <= Slice(data + rest, from, to)
    ensures to <= |data| ==> Slice(data, from, to) == Slice(data + rest, from, to)
  {
  }

  lemma {:induction false} NodesExtend(data: seq<byte>, rest: seq<byte>, offset: nat, n: nat)
    ensures forall j :: 0 <= j < n ==> Nodes(data, offset, n)[j] <= Nodes(data + rest, offset, n)[j]
    ensures offset + 20 * n <= |data| ==> Nodes(data, offset, n) == Nodes(data + rest, offset, n)
  {
    if n > 0 {
      hide Slice;
      NodesExtend(data, rest, offset, n - 1);
      SliceExtends(data, rest, offset + 20 * (n - 1), offset + 20 * (n - 1) + 20);
    }
  }

  // Nodes that start inside the data are all full exactly if the last one ends inside the data.
  lemma NodesFullIff(data: seq<byte>, offset: nat, n: nat)
    requires offset <= |data|
    ensures FullNodes(Nodes(data, offset, n)) <==> offset + 20 * n <= |data|
  {
    if offset + 20 * n <= |data| {
      NodesIff(data, offset, n, Nodes(data, offset, n));
    } else {
      NodesStep(data, offset, n);
      var at := offset + 20 * (n - 1);
      assert Nodes(data, offset, n)[n - 1] == Slice(data, at, at + 20);
    }
  }

  // An update ends inside the data exactly if its proof nodes are full.
  lemma UpdateFullIff(data: seq<byte>, offset: nat)
    requires ParseUpdate(data, offset).Ok?
    ensures var (u, end) := ParseUpdate(data, offset).value; end <= |data| <==> FullNodes(u.proof)
  {
    hide Slice, Nodes, FullNodes, ValueBE;
    var length := GetUint(data, offset, 2).value;
    var start := offset + 2 + length + 1;
    NodesFullIff(data, start, GetUint(data, offset + 2 + length, 1).value);
  }

  lemma GetUintExtends(data: seq<byte>, rest: seq<byte>, offset: nat, n: nat)
    ensures GetUint(data, offset, n).Ok? <==> GetUint(data + rest, offset, n).Ok? && offset + n <= |data|
    ensures GetUint(data, offset, n).Ok? ==> GetUint(data, offset, n) == GetUint(data + rest, offset, n)
  {
    if offset + n <= |data| {
      assert (data + rest)[offset..offset + n] == data[offset..offset + n];
    }
  }

  lemma UpdateShape(data: seq<byte>, offset: nat)
    requires ParseUpdate(data, offset).Ok?
    ensures var (u, end) := ParseUpdate(data, offset).value;
            offset + 3 <= end - 20 * |u.proof| <= |data|
  {
  }

  // Cutting the data is noticed exactly if it cuts before the proof nodes.
  lemma UpdateExtends(data: seq<byte>, rest: seq<byte>, offset: nat)
    ensures var short, long := ParseUpdate(data, offset), ParseUpdate(data + rest, offset);
            && (short.Ok? <==> long.Ok? && long.value.1 - 20 * |long.value.0.proof| <= |data|)
            && (short.Ok? ==> short.value.1 == long.value.1 && Cut(short.value.0, long.value.0))
            && (short.Ok? && short.value.1 <= |data| ==> short == long)
  {
    hide GetUint, Slice, Nodes;
    GetUintExtends(data, rest, offset, 2);
    if GetUint(data + rest, offset, 2).Ok? {
      var afterMessage := offset + 2 + GetUint(data + rest, offset, 2).value;
      GetUintExtends(data, rest, afterMessage, 1);
      if GetUint(data, afterMessage, 1).Ok? {
        SliceExtends(data, rest, offset + 2, afterMessage);
        NodesExtend(data, rest, afterMessage + 1, GetUint(data, afterMessage, 1).value);
      }
    }
  }

  // Several updates are several less one, and one.
  lemma UpdatesStep(data: seq<byte>, offset: nat, n: nat)
    requires n > 0
    ensures ParseUpdates(data, offset, n).Ok?
            <==> ParseUpdates(data, offset, n - 1).Ok? && ParseUpdate(data, ParseUpdates(data, offset, n - 1).value.1).Ok?
    ensures ParseUpdates(data, offset, n).Ok? ==>
              var (front, middle) := ParseUpdates(data, offset, n - 1).value;
              var (u, end) := ParseUpdate(data, middle).value;
              ParseUpdates(data, offset, n).value == (front + [u], end) && Unchecked(front + [u]) == 20 * |u.proof|
  {
    hide ParseUpdate;
  }

  lemma {:induction false} UpdatesExtend(data: seq<byte>, rest: seq<byte>, offset: nat, n: nat)
    requires offset <= |data|
    ensures var short, long := ParseUpdates(data, offset, n), ParseUpdates(data + rest, offset, n);
            && (short.Ok? <==> long.Ok? && long.value.1 - Unchecked(long.value.0) <= |data|)
            && (short.Ok? ==> short.value.1 == long.value.1 && CutLast(short.value.0, long.value.0))
            && (short.Ok? && short.value.1 <= |data| ==> short == long)
            && (long.Ok? ==> offset <= long.value.1 - Unchecked(long.value.0))
    decreases n
  {
    hide ParseUpdate, ParseUpdates, Unchecked, Cut, CutLast;
    if n == 0 {
      NoUpdates(data, offset);
      NoUpdates(data + rest, offset);
    } else {
      UpdatesStep(data, offset, n);
      UpdatesStep(data + rest, offset, n);
      UpdatesExtend(data, rest, offset, n - 1);
      if ParseUpdates(data + rest, offset, n - 1).Ok? {
        var (front, middle) := ParseUpdates(data + rest, offset, n - 1).value;
        LastExtends(data, rest, middle);
        if ParseUpdates(data, offset, n).Ok? {
          CutSnoc(front, ParseUpdate(data, middle).value.0, ParseUpdate(data + rest, middle).value.0);
        }
      }
    }
  }

  lemma CutSnoc(front: seq<WireUpdate>, u: WireUpdate, full: WireUpdate)
    requires Cut(u, full)
    ensures CutLast(front + [u], front + [full])
  {
  }

  lemma NoUpdates(data: seq<byte>, offset: nat)
    ensures ParseUpdates(data, offset, 0) == Ok(([], offset)) && Unchecked([]) == 0 && CutLast([], [])
  {
  }

  lemma LastExtends(data: seq<byte>, rest: seq<byte>, offset: nat)
    ensures var short, long := ParseUpdate(data, offset), ParseUpdate(data + rest, offset);
            && (short.Ok? <==> long.Ok? && long.value.1 - 20 * |long.value.0.proof| <= |data|)
            && (short.Ok? ==> short.value.1 == long.value.1 && Cut(short.value.0, long.value.0) && offset <= |data|)
            && (short.Ok? && short.value.1 <= |data| ==> short == long)
            && (long.Ok? ==> offset + 3 <= long.value.1 - 20 * |long.value.0.proof|)
  {
    hide ParseUpdate, Cut;
    UpdateExtends(data, rest, offset);
    if ParseUpdate(data, offset).Ok? { UpdateShape(data, offset); }
    if ParseUpdate(data + rest, offset).Ok? { UpdateShape(data + rest, offset); }
  }

  lemma BodyExtends(data: seq<byte>, rest: seq<byte>, offset: nat)
    ensures var short, long := ParseBody(data, offset), ParseBody(data + rest, offset);
            && (short.Ok? <==> long.Ok? && long.value.2 - Unchecked(long.value.1) <= |data|)
            && (short.Ok? ==> short.value.2 == long.value.2 && short.value.0 == long.value.0 && CutLast(short.value.1, long.value.1))
            && (long.Ok? ==> offset <= long.value.2 - Unchecked(long.value.1))
  {
    hide GetUint, Slice, ParseUpdates, Unchecked, CutLast;
    GetUintExtends(data, rest, offset, 1);
    GetUintExtends(data, rest, offset + 1, 2);
    if GetUint(data + rest, offset + 1, 2).Ok? {
      var afterVaa := offset + 3 + GetUint(data + rest, offset + 1, 2).value;
      GetUintExtends(data, rest, afterVaa, 1);
      if GetUint(data + rest, afterVaa, 1).Ok? {
        CountInside(data + rest, afterVaa);
        if afterVaa + 1 <= |data| {
          SliceExtends(data, rest, offset + 3, afterVaa);
          UpdatesExtend(data, rest, afterVaa + 1, GetUint(data + rest, afterVaa, 1).value);
        } else {
          UpdatesExtend(data + rest, [], afterVaa + 1, GetUint(data + rest, afterVaa, 1).value);
          assert data + rest + [] == data + rest;
        }
      }
    }
  }

  lemma CountInside(data: seq<byte>, offset: nat)
    requires GetUint(data, offset, 1).Ok?
    ensures offset + 1 <= |data|
  {
  }

  lemma BodyInside(data: seq<byte>, offset: nat)
    requires ParseBody(data, offset).Ok?
    ensures offset <= |data|
  {
  }

  // The same message, with a last proof that may be cut.
  predicate CutWire(w: Wire, full: Wire) {
    && w.minor == full.minor && w.trailing == full.trailing && w.vaa == full.vaa
    && CutLast(w.updates, full.updates)
  }

  lemma WireExtends(data: seq<byte>, rest: seq<byte>)
    ensures var short, long := ParseWire(data), ParseWire(data + rest);
            && (short.Ok? <==> long.Ok? && long.value.1 - Unchecked(long.value.0.updates) <= |data|)
            && (short.Ok? ==> short.value.1 == long.value.1 && CutWire(short.value.0, long.value.0))
  {
    hide GetUint, Slice, ParseBody, Unchecked, CutLast;
    GetUintExtends(data, rest, 0, 4);
    GetUintExtends(data, rest, 4, 1);
    GetUintExtends(data, rest, 6, 1);
    if GetUint(data + rest, 6, 1).Ok? {
      var start := 7 + GetUint(data + rest, 6, 1).value;
      BodyExtends(data, rest, start);
      if ParseBody(data, start).Ok? {
        BodyInside(data, start);
        SliceExtends(data, rest, 7, start);
        if GetUint(data, 6, 1).Ok? { CountInside(data, 6); }
      }
    }
  }

  // The data and the encoding agree as far as both go, and at most the proof nodes of the last update are missing.
  predicate CompleteUpToLastProof(data: seq<byte>, w: Wire) {
    && WellFormed(w)
    && (Encode(w) <= data || (data <= Encode(w) && |Encode(w)| - |data| <= Unchecked(w.updates)))
  }

  // The parser accepts exactly the data that is complete up to the nodes of the last proof.
  lemma AcceptedIff(data: seq<byte>)
    ensures ParseWire(data).Ok? <==> exists w :: CompleteUpToLastProof(data, w)
  {
    hide Encode, WellFormed, ParseWire, Unchecked;
    if ParseWire(data).Ok? {
      AcceptedIsComplete(data);
    }
    if w :| CompleteUpToLastProof(data, w) {
      CompleteIsAccepted(data, w);
    }
  }

  lemma AcceptedIsComplete(data: seq<byte>)
    requires ParseWire(data).Ok?
    ensures exists w :: CompleteUpToLastProof(data, w)
  {
    hide Encode, WellFormed, ParseWire, Unchecked;
    var (w, end) := ParseWire(data).value;
    if end <= |data| {
      ParsedEncoded(data, w, end);
      assert data[..end] == Encode(w) && Encode(w) <= data;
      assert CompleteUpToLastProof(data, w);
    } else {
      var rest := Zeros(end - |data|);
      WireExtends(data, rest);
      var long := ParseWire(data + rest).value.0;
      ParsedEncoded(data + rest, long, end);
      assert Encode(long) == data + rest;
      assert CompleteUpToLastProof(data, long);
    }
  }

  lemma CompleteIsAccepted(data: seq<byte>, w: Wire)
    requires CompleteUpToLastProof(data, w)
    ensures ParseWire(data).Ok?
  {
    hide Encode, WellFormed, ParseWire, Unchecked;
    if Encode(w) <= data {
      EncodedParses(data, w);
    } else {
      var rest := Encode(w)[|data|..];
      assert data + rest == Encode(w);
      EncodedParses(Encode(w), w);
      WireExtends(data, rest);
    }
  }

  // ----- what is returned

  lemma UpdatesFullIff(data: seq<byte>, offset: nat, n: nat)
    requires offset <= |data| && ParseUpdates(data, offset, n).Ok?
    ensures var (us, end) := ParseUpdates(data, offset, n).value;
            end <= |data| <==> us == [] || FullNodes(us[|us| - 1].proof)
  {
    hide ParseUpdate, ParseUpdates, FullNodes;
    if n == 0 {
      NoUpdates(data, offset);
    } else {
      UpdatesStep(data, offset, n);
      UpdateFullIff(data, ParseUpdates(data, offset, n - 1).value.1);
    }
  }

  // The parser stops inside the data exactly if the nodes of the last proof are full.
  lemma StopsInsideIff(data: seq<byte>)
    requires ParseWire(data).Ok?
    ensures var (w, end) := ParseWire(data).value;
            end <= |data| <==> w.updates == [] || FullNodes(w.updates[|w.updates| - 1].proof)
  {
    hide ParseUpdates, FullNodes, Slice, ValueBE;
    var start := 7 + GetUint(data, 6, 1).value;
    var afterVaa := start + 3 + GetUint(data, start + 1, 2).value;
    UpdatesFullIff(data, afterVaa + 1, GetUint(data, afterVaa, 1).value);
  }

  // Of a message that may be cut inside its last proof the parser returns everything else as it was, and the nodes of
  // that proof as far as they go. They are all full exactly if nothing is missing.
  lemma CutMessage(data: seq<byte>, w: Wire)
    requires CompleteUpToLastProof(data, w)
    ensures ParseWire(data).Ok?
    ensures var got := ParseWire(data).value.0;
            && CutWire(got, w)
            && (got.updates == [] || FullNodes(got.updates[|got.updates| - 1].proof) <==> Encode(w) <= data)
  {
    hide Encode, WellFormed, ParseWire, Unchecked, CutWire, FullNodes;
    CompleteIsAccepted(data, w);
    StopsInsideIff(data);
    if Encode(w) <= data {
      EncodedParses(data, w);
      CutReflexive(w);
    } else {
      var rest := Encode(w)[|data|..];
      assert data + rest == Encode(w);
      EncodedParses(Encode(w), w);
      WireExtends(data, rest);
    }
  }

  lemma CutReflexive(w: Wire)
    ensures CutWire(w, w)
  {
  }

  // A price message that is one byte short: it is accepted, and its only proof node is short.
  function OneNode(): Wire {
    Wire(0, [], [], [WireUpdate(Zeros(33), [Zeros(20)])])
  }

  lemma CutAccepted()
    ensures var w := OneNode();
            var data := Encode(w)[..|Encode(w)| - 1];
            && WellFormed(w) && ParseWire(data).Ok?
            && |ParseWire(data).value.0.updates| == 1
            && ParseWire(data).value.0.updates[0].message == Zeros(33)
            && |ParseWire(data).value.0.updates[0].proof| == 1
            && |ParseWire(data).value.0.updates[0].proof[0]| < 20
  {
    hide Encode, ParseWire;
    var w := OneNode();
    EncodedLength(w);
    CutMessage(Encode(w)[..|Encode(w)| - 1], w);
  }

  lemma EncodedLength(w: Wire)
    ensures |Encode(w)| >= 1
  {
  }

  // ----- the widths of what is returned

  predicate Narrow(u: WireUpdate) {
    |u.message| < 0x1_0000 && |u.proof| < 0x100
  }

  // Whatever is accepted, the VAA, the messages and the proofs have the lengths of a well-formed message.
  lemma AcceptedWidths(data: seq<byte>)
    requires ParseWire(data).Ok?
    ensures var w := ParseWire(data).value.0;
            |w.vaa| < 0x1_0000 && forall k :: 0 <= k < |w.updates| ==> Narrow(w.updates[k])
  {
    hide Encode, ParseWire, CutWire, Unchecked;
    AcceptedIsComplete(data);
    var full :| CompleteUpToLastProof(data, full);
    CutMessage(data, full);
    CutWidths(ParseWire(data).value.0, full);
  }

  lemma CutWidths(w: Wire, full: Wire)
    requires WellFormed(full) && CutWire(w, full)
    ensures |w.vaa| < 0x1_0000 && forall k :: 0 <= k < |w.updates| ==> Narrow(w.updates[k])
  {
    forall k | 0 <= k < |w.updates|
      ensures Narrow(w.updates[k])
    {
      assert WellFormedUpdate(full.updates[k]);
      if k < |w.updates| - 1 {
        assert w.updates[..|w.updates| - 1][k] == full.updates[..|w.updates| - 1][k];
      }
    }
  }
}
