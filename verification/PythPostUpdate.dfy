// The data of the instruction that posts a price update: length-prefixed fields behind a discriminator.

module PythPostUpdate {
  import opened ModArith
  import opened PrimeField
  import opened LittleEndian
  import opened ByteBuffers
  import opened ByteReaders
  import opened PythAccumulator
  import opened PythRoundTrip
  import opened PythAcceptance

  const POST_UPDATE_ATOMIC_DISCRIMINATOR: seq<byte> := [49, 172, 84, 192, 175, 180, 52, 234]

  datatype PostUpdate = PostUpdate(vaa: seq<byte>, message: seq<byte>, proof: seq<seq<byte>>, treasuryId: int)

  // ----- the encoding

  function BorshBytes(bytes: seq<byte>): seq<byte> {
    Bytes(|bytes|, 4) + bytes
  }

  // A proof node is cut or filled up to 20 bytes.
  function Node(proof: seq<byte>): (node: seq<byte>)
    ensures |node| == 20
    ensures |proof| == 20 ==> node == proof
  {
    if |proof| >= 20 then proof[..20] else Pad(proof, 20)
  }

  function TwentyByteNodes(proofs: seq<seq<byte>>): (nodes: seq<seq<byte>>)
    ensures |nodes| == |proofs| && FullNodes(nodes)
    ensures FullNodes(proofs) ==> nodes == proofs
  {
    if proofs == [] then []
    else
      assert proofs == proofs[..|proofs| - 1] + [proofs[|proofs| - 1]];
      TwentyByteNodes(proofs[..|proofs| - 1]) + [Node(proofs[|proofs| - 1])]
  }

  function BorshProofVec(proofs: seq<seq<byte>>): seq<byte> {
    Bytes(|proofs|, 4) + Concat(TwentyByteNodes(proofs))
  }

  function Layout(p: PostUpdate): seq<byte> {
    POST_UPDATE_ATOMIC_DISCRIMINATOR
    + (BorshBytes(p.vaa) + (BorshBytes(p.message) + (BorshProofVec(p.proof) + [p.treasuryId % 256])))
  }

  // A zeroed buffer behind a four-byte count.
  method NewCounted(count: nat, size: nat) returns (result: array<byte>)
    ensures fresh(result) && result.Length == 4 + size && result[..4] == Bytes(count, 4)
    ensures forall x :: 4 <= x < result.Length ==> result[x] == 0
  {
    hide Bytes;
    result := NewBuffer(4 + size);
    ghost var tail := result[4..];
    SetAt(result, Bytes(count, 4), 0);
    forall x | 4 <= x < result.Length
      ensures result[x] == 0
    {
      assert result[x] == result[4..][x - 4] == tail[x - 4];
    }
  }

  method BorshEncodeBytes(bytes: seq<byte>) returns (result: array<byte>)
    ensures fresh(result) && result[..] == BorshBytes(bytes)
  {
    hide Bytes;
    result := NewCounted(|bytes|, |bytes|);
    SetAt(result, bytes, 4);
    assert result[..] == result[..4 + |bytes|];
  }

  // Writing one node into a buffer that is still zero there: a short node leaves zeros behind it.
  method PlaceNode(buffer: array<byte>, proof: seq<byte>, offset: nat)
    requires offset + 20 <= buffer.Length && forall x :: offset <= x < buffer.Length ==> buffer[x] == 0
    modifies buffer
    ensures buffer[..offset + 20] == old(buffer[..offset]) + Node(proof)
    ensures forall x :: offset + 20 <= x < buffer.Length ==> buffer[x] == 0
  {
    var slice := if |proof| > 20 then proof[..20] else proof;
    ghost var tail := buffer[offset + |slice|..];
    SetAt(buffer, slice, offset);
    forall x | offset + |slice| <= x < buffer.Length
      ensures buffer[x] == 0
    {
      assert buffer[x] == buffer[offset + |slice|..][x - offset - |slice|] == tail[x - offset - |slice|];
    }
    assert buffer[..offset + 20] == buffer[..offset + |slice|] + buffer[offset + |slice|..offset + 20];
    assert slice + buffer[offset + |slice|..offset + 20] == Node(proof);
  }

  lemma NodesSnoc(proofs: seq<seq<byte>>, proof: seq<byte>)
    ensures TwentyByteNodes(proofs + [proof]) == TwentyByteNodes(proofs) + [Node(proof)]
    ensures Concat(TwentyByteNodes(proofs + [proof])) == Concat(TwentyByteNodes(proofs)) + Node(proof)
  {
    assert (proofs + [proof])[..|proofs|] == proofs;
    ConcatSnoc(TwentyByteNodes(proofs), Node(proof));
  }

  lemma NoNodes()
    ensures Concat(TwentyByteNodes([])) == []
  {
  }

  method BorshEncodeProofVec(proofs: seq<seq<byte>>) returns (result: array<byte>)
    ensures fresh(result) && result[..] == BorshProofVec(proofs)
  {
    hide Bytes, Node, TwentyByteNodes, Concat;
    result := NewCounted(|proofs|, |proofs| * 20);
    var offset := 4;
    assert proofs[..0] == [];
    assert Concat(TwentyByteNodes([])) == [] by { NoNodes(); }
    for i := 0 to |proofs|
      invariant offset == 4 + 20 * i
      invariant result[..offset] == Bytes(|proofs|, 4) + Concat(TwentyByteNodes(proofs[..i]))
      invariant forall x :: offset <= x < result.Length ==> result[x] == 0
    {
      PlaceNode(result, proofs[i], offset);
      assert proofs[..i + 1] == proofs[..i] + [proofs[i]];
      NodesSnoc(proofs[..i], proofs[i]);
      offset := offset + 20;
    }
    assert proofs[..|proofs|] == proofs;
    assert result[..] == result[..offset];
  }

  function TotalLength(parts: seq<seq<byte>>): nat {
    if parts == [] then 0 else TotalLength(parts[..|parts| - 1]) + |parts[|parts| - 1]|
  }

  lemma {:induction false} TotalIsLength(parts: seq<seq<byte>>)
    ensures TotalLength(parts) == |Concat(parts)|
  {
    if parts != [] { TotalIsLength(parts[..|parts| - 1]); }
  }

  lemma {:induction false} PrefixLength(parts: seq<seq<byte>>, i: nat)
    requires i <= |parts|
    ensures |Concat(parts[..i])| <= |Concat(parts)|
  {
    if i < |parts| {
      var n := |parts| - 1;
      assert parts[..n][..i] == parts[..i];
      PrefixLength(parts[..n], i);
    } else {
      assert parts[..i] == parts;
    }
  }

  method BuildPostUpdateAtomicData(p: PostUpdate) returns (data: seq<byte>)
    ensures data == Layout(p)
  {
    hide Bytes, TwentyByteNodes;
    var vaa := BorshEncodeBytes(p.vaa);
    var message := BorshEncodeBytes(p.message);
    var proof := BorshEncodeProofVec(p.proof);
    var parts := [POST_UPDATE_ATOMIC_DISCRIMINATOR, vaa[..], message[..], proof[..], [p.treasuryId % 256]];
    data := JoinParts(parts);
    FiveParts(parts);
  }

  lemma {:induction false} ConcatHead(first: seq<byte>, rest: seq<seq<byte>>)
    ensures Concat([first] + rest) == first + Concat(rest)
  {
    if rest == [] {
      assert Concat([]) == [];
      ConcatSnoc([], first);
      assert [first] + rest == [] + [first];
    } else {
      var front, last := rest[..|rest| - 1], rest[|rest| - 1];
      assert [first] + rest == ([first] + front) + [last];
      ConcatHead(first, front);
      ConcatSnoc([first] + front, last);
    }
  }

  lemma FiveParts(parts: seq<seq<byte>>)
    requires |parts| == 5
    ensures Concat(parts) == parts[0] + (parts[1] + (parts[2] + (parts[3] + parts[4])))
  {
    hide Concat;
    assert parts == [parts[0]] + parts[1..];
    ConcatHead(parts[0], parts[1..]);
    assert parts[1..] == [parts[1]] + parts[2..];
    ConcatHead(parts[1], parts[2..]);
    assert parts[2..] == [parts[2]] + parts[3..];
    ConcatHead(parts[2], parts[3..]);
    assert parts[3..] == [parts[3]] + parts[4..];
    ConcatHead(parts[3], parts[4..]);
    assert parts[4..] == [parts[4]];
    assert Concat([parts[4]]) == parts[4] by { OnePart(parts[4]); }
  }

  lemma OnePart(part: seq<byte>)
    ensures Concat([part]) == part
  {
    assert Concat([]) == [];
    ConcatSnoc([], part);
    assert [] + [part] == [part];
  }

  method JoinParts(parts: seq<seq<byte>>) returns (data: seq<byte>)
    ensures data == Concat(parts)
  {
    var totalLength := TotalLength(parts);
    TotalIsLength(parts);
    var result := NewBuffer(totalLength);
    var offset := 0;
    for i := 0 to |parts|
      invariant offset == |Concat(parts[..i])| && offset <= result.Length
      invariant result[..offset] == Concat(parts[..i])
    {
      assert parts[..i + 1] == parts[..i] + [parts[i]];
      ConcatSnoc(parts[..i], parts[i]);
      PrefixLength(parts, i + 1);
      SetAt(result, parts[i], offset);
      offset := offset + |parts[i]|;
    }
    assert parts[..|parts|] == parts;
    data := result[..];
  }

  // ----- where every field lies

  // Byte y of node j of a proof: the nodes follow one another in steps of twenty bytes.
  lemma {:induction false} NodeByte(proofs: seq<seq<byte>>, j: nat, y: nat)
    requires j < |proofs| && y < 20
    ensures |Concat(TwentyByteNodes(proofs))| == 20 * |proofs|
    ensures Concat(TwentyByteNodes(proofs))[20 * j + y] == if y < |proofs[j]| then proofs[j][y] else 0
  {
    hide TwentyByteNodes, Concat;
    var front, last := proofs[..|proofs| - 1], proofs[|proofs| - 1];
    assert proofs == front + [last];
    NodesSnoc(front, last);
    ConcatLength(TwentyByteNodes(front));
    if j < |front| { NodeByte(front, j, y); }
  }

  // Everything before the nodes.
  function Front(p: PostUpdate): seq<byte> {
    POST_UPDATE_ATOMIC_DISCRIMINATOR + Bytes(|p.vaa|, 4) + p.vaa + Bytes(|p.message|, 4) + p.message + Bytes(|p.proof|, 4)
  }

  lemma FrontFields(p: PostUpdate)
    ensures var bytes, v, m := Front(p), |p.vaa|, |p.message|;
            && |bytes| == 20 + v + m
            && bytes[..8] == [49, 172, 84, 192, 175, 180, 52, 234]
            && bytes[8..12] == Bytes(v, 4) && bytes[12..12 + v] == p.vaa
            && bytes[12 + v..16 + v] == Bytes(m, 4) && bytes[16 + v..16 + v + m] == p.message
            && bytes[16 + v + m..] == Bytes(|p.proof|, 4)
  {
    hide Bytes;
  }

  lemma LayoutSplits(p: PostUpdate)
    ensures Layout(p) == Front(p) + (Concat(TwentyByteNodes(p.proof)) + [p.treasuryId % 256])
  {
    hide Bytes, TwentyByteNodes, Concat;
  }

  // The fields in their places, and every byte of every proof node.
  lemma LayoutFields(p: PostUpdate)
    ensures var bytes, v, m, n := Layout(p), |p.vaa|, |p.message|, |p.proof|;
            && |bytes| == 21 + v + m + 20 * n
            && bytes[..8] == [49, 172, 84, 192, 175, 180, 52, 234]
            && bytes[8..12] == Bytes(v, 4) && bytes[12..12 + v] == p.vaa
            && bytes[12 + v..16 + v] == Bytes(m, 4) && bytes[16 + v..16 + v + m] == p.message
            && bytes[16 + v + m..20 + v + m] == Bytes(n, 4)
            && bytes[20 + v + m + 20 * n] == p.treasuryId % 256
    ensures forall j, y :: 0 <= j < |p.proof| && 0 <= y < 20 ==>
              Layout(p)[20 + |p.vaa| + |p.message| + (20 * j + y)] == if y < |p.proof[j]| then p.proof[j][y] else 0
  {
    hide Bytes, TwentyByteNodes, Concat, Front, Layout;
    var nodes, front := Concat(TwentyByteNodes(p.proof)), Front(p);
    ConcatLength(TwentyByteNodes(p.proof));
    LayoutSplits(p);
    FrontFields(p);
    assert Layout(p)[..|front|] == front;
    assert forall a, b :: 0 <= a <= b <= |front| ==> Layout(p)[a..b] == front[a..b];
    forall j, y | 0 <= j < |p.proof| && 0 <= y < 20
      ensures Layout(p)[|front| + (20 * j + y)] == if y < |p.proof[j]| then p.proof[j][y] else 0
    {
      NodeByte(p.proof, j, y);
      assert Layout(p)[|front| + (20 * j + y)] == nodes[20 * j + y];
    }
  }

  // ----- the reader

  function ReadCount(data: seq<byte>, offset: nat): Option<nat> {
    if offset + 4 <= |data| then Some(Value(data[offset..offset + 4])) else None
  }

  function ReadBytes(data: seq<byte>, offset: nat): Option<(seq<byte>, nat)> {
    var count := ReadCount(data, offset);
    if count.None? || offset + 4 + count.value > |data| then None
    else Some((data[offset + 4..offset + 4 + count.value], offset + 4 + count.value))
  }

  function ReadProofVec(data: seq<byte>, offset: nat): Option<(seq<seq<byte>>, nat)> {
    var count := ReadCount(data, offset);
    if count.None? || offset + 4 + 20 * count.value > |data| then None
    else Some((Nodes(data, offset + 4, count.value), offset + 4 + 20 * count.value))
  }

  // The reader demands every field and nothing behind the last.
  function ReadPost(data: seq<byte>): Option<PostUpdate> {
    if !HasAt(data, 0, POST_UPDATE_ATOMIC_DISCRIMINATOR) then None
    else
      var vaa := ReadBytes(data, 8);
      if vaa.None? then None
      else
        var message := ReadBytes(data, vaa.value.1);
        if message.None? then None
        else
          var proof := ReadProofVec(data, message.value.1);
          if proof.None? || proof.value.1 + 1 != |data| then None
          else Some(PostUpdate(vaa.value.0, message.value.0, proof.value.0, data[proof.value.1]))
  }

  predicate Fits(p: PostUpdate) {
    && |p.vaa| < 0x1_0000_0000 && |p.message| < 0x1_0000_0000 && |p.proof| < 0x1_0000_0000
    && FullNodes(p.proof) && 0 <= p.treasuryId < 256
  }

  lemma CountIff(data: seq<byte>, offset: nat, n: nat)
    requires n < 0x1_0000_0000
    ensures ReadCount(data, offset) == Some(n) <==> HasAt(data, offset, Bytes(n, 4))
  {
    hide Value, Bytes;
    assert Pow256(4) == 0x1_0000_0000;
    RoundTrip(n, 4);
    if offset + 4 <= |data| { BytesOfValue(data[offset..offset + 4]); }
  }

  lemma CountRange(data: seq<byte>, offset: nat)
    requires ReadCount(data, offset).Some?
    ensures ReadCount(data, offset).value < 0x1_0000_0000 && offset + 4 <= |data|
  {
    assert Pow256(4) == 0x1_0000_0000;
    ValueRange(data[offset..offset + 4]);
  }

  lemma BytesIff(data: seq<byte>, offset: nat, bytes: seq<byte>, end: nat)
    ensures ReadBytes(data, offset) == Some((bytes, end))
            <==> |bytes| < 0x1_0000_0000 && HasAt(data, offset, BorshBytes(bytes)) && end == offset + |BorshBytes(bytes)|
  {
    hide Bytes, ReadCount;
    if ReadCount(data, offset).Some? { CountRange(data, offset); }
    if |bytes| < 0x1_0000_0000 { CountIff(data, offset, |bytes|); }
    HasBoth(data, offset, Bytes(|bytes|, 4), bytes);
  }

  lemma ProofVecIff(data: seq<byte>, offset: nat, nodes: seq<seq<byte>>, end: nat)
    requires FullNodes(nodes)
    ensures ReadProofVec(data, offset) == Some((nodes, end))
            <==> |nodes| < 0x1_0000_0000 && HasAt(data, offset, BorshProofVec(nodes)) && end == offset + |BorshProofVec(nodes)|
  {
    hide Bytes, ReadCount, Nodes, Concat, TwentyByteNodes, FullNodes;
    if ReadCount(data, offset).Some? { CountRange(data, offset); }
    if |nodes| < 0x1_0000_0000 { CountIff(data, offset, |nodes|); }
    HasBoth(data, offset, Bytes(|nodes|, 4), Concat(nodes));
    ConcatLength(nodes);
    if offset + 4 + 20 * |nodes| <= |data| { NodesIff(data, offset + 4, |nodes|, nodes); }
  }

  lemma ProofVecFull(data: seq<byte>, offset: nat)
    requires ReadProofVec(data, offset).Some?
    ensures FullNodes(ReadProofVec(data, offset).value.0)
  {
    var count := ReadCount(data, offset).value;
    NodesIff(data, offset + 4, count, Nodes(data, offset + 4, count));
  }

  lemma PostFields(data: seq<byte>, p: PostUpdate)
    ensures var v := 8 + |BorshBytes(p.vaa)|; var m := v + |BorshBytes(p.message)|; var n := m + |BorshProofVec(p.proof)|;
            (HasAt(data, 0, Layout(p))
            <==> HasAt(data, 0, POST_UPDATE_ATOMIC_DISCRIMINATOR) && HasAt(data, 8, BorshBytes(p.vaa))
                 && HasAt(data, v, BorshBytes(p.message)) && HasAt(data, m, BorshProofVec(p.proof))
                 && HasAt(data, n, [p.treasuryId % 256]))
            && |Layout(p)| == n + 1
  {
    hide HasAt, BorshBytes, BorshProofVec;
    var v := 8 + |BorshBytes(p.vaa)|;
    var m := v + |BorshBytes(p.message)|;
    var last := BorshProofVec(p.proof) + [p.treasuryId % 256];
    HasBoth(data, 0, POST_UPDATE_ATOMIC_DISCRIMINATOR, BorshBytes(p.vaa) + (BorshBytes(p.message) + last));
    HasBoth(data, 8, BorshBytes(p.vaa), BorshBytes(p.message) + last);
    HasBoth(data, v, BorshBytes(p.message), last);
    HasBoth(data, m, BorshProofVec(p.proof), [p.treasuryId % 256]);
  }

  lemma ReadOfLayout(data: seq<byte>, p: PostUpdate)
    requires Fits(p) && data == Layout(p)
    ensures ReadPost(data) == Some(p)
  {
    hide BorshBytes, BorshProofVec, ReadBytes, ReadProofVec, Layout, FullNodes;
    var v := 8 + |BorshBytes(p.vaa)|;
    var m := v + |BorshBytes(p.message)|;
    var n := m + |BorshProofVec(p.proof)|;
    PostFields(data, p);
    assert HasAt(data, 0, data);
    BytesIff(data, 8, p.vaa, v);
    BytesIff(data, v, p.message, m);
    ProofVecIff(data, m, p.proof, n);
    SmallMod(p.treasuryId, 256);
    assert data[n] == data[n..n + 1][0];
  }

  lemma LayoutOfRead(data: seq<byte>, p: PostUpdate)
    requires ReadPost(data) == Some(p)
    ensures Fits(p) && data == Layout(p)
  {
    hide BorshBytes, BorshProofVec, ReadBytes, ReadProofVec, Layout, FullNodes;
    var v := ReadBytes(data, 8).value.1;
    var m := ReadBytes(data, v).value.1;
    var n := ReadProofVec(data, m).value.1;
    BytesIff(data, 8, p.vaa, v);
    BytesIff(data, v, p.message, m);
    ProofVecFull(data, m);
    ProofVecIff(data, m, p.proof, n);
    SmallMod(p.treasuryId, 256);
    assert HasAt(data, n, [p.treasuryId % 256]) by { assert data[n..n + 1] == [data[n]]; }
    PostFields(data, p);
    assert data[0..|data|] == data;
  }

  // Instruction data reads as an update exactly if it is the layout of that update and everything fits its width. So
  // the layout loses nothing exactly on updates that fit, and reading is unique.
  lemma ReadIff(data: seq<byte>, p: PostUpdate)
    ensures ReadPost(data) == Some(p) <==> Fits(p) && data == Layout(p)
  {
    if ReadPost(data) == Some(p) {
      LayoutOfRead(data, p);
    } else if Fits(p) && data == Layout(p) {
      ReadOfLayout(data, p);
    }
  }

  // What a reader sees of an update that does not fit: cut or filled nodes and the low byte of the treasury id.
  lemma ReadOfAny(p: PostUpdate)
    requires |p.vaa| < 0x1_0000_0000 && |p.message| < 0x1_0000_0000 && |p.proof| < 0x1_0000_0000
    ensures ReadPost(Layout(p)) == Some(p.(proof := TwentyByteNodes(p.proof), treasuryId := p.treasuryId % 256))
  {
    hide ReadPost;
    var seen := p.(proof := TwentyByteNodes(p.proof), treasuryId := p.treasuryId % 256);
    SmallMod(p.treasuryId % 256, 256);
    assert Layout(seen) == Layout(p);
    ReadOfLayout(Layout(seen), seen);
  }

  // The update that is posted for a feed of a parsed message.
  function Posted(w: Wire, feed: string, treasuryId: byte): PostUpdate
    requires feed in FeedMap(w.updates)
  {
    PostUpdate(w.vaa, FeedMap(w.updates)[feed].message, FeedMap(w.updates)[feed].proof, treasuryId)
  }

  // A price of any accepted data is posted and read back unchanged exactly if the nodes of its proof are full. Of data
  // that was not cut off that is every price.
  lemma ParsedPricePosts(data: seq<byte>, feed: string, treasuryId: byte)
    requires ParseWire(data).Ok? && feed in FeedMap(ParseWire(data).value.0.updates)
    ensures var (w, end) := ParseWire(data).value;
            var p := Posted(w, feed, treasuryId);
            && Meaning(ParseWire(data)) == Ok(AccumulatorUpdate(w.vaa, FeedMap(w.updates)))
            && (ReadPost(Layout(p)) == Some(p) <==> FullNodes(p.proof))
            && (end <= |data| ==> ReadPost(Layout(p)) == Some(p))
  {
    hide ParseWire, ReadPost, Layout, Encode, FullNodes, FeedMap;
    var (w, end) := ParseWire(data).value;
    MappedUpdate(w.updates, feed);
    AcceptedWidths(data);
    var k :| 0 <= k < |w.updates| && w.updates[k] == FeedMap(w.updates)[feed];
    assert Narrow(w.updates[k]);
    ReadIff(Layout(Posted(w, feed, treasuryId)), Posted(w, feed, treasuryId));
    if end <= |data| {
      ParsedEncoded(data, w, end);
      assert WellFormedUpdate(w.updates[k]);
    }
  }

  // A price that was accepted with its proof cut off: what is posted reads back differently.
  lemma CutPriceChanges(treasuryId: byte)
    ensures |Encode(OneNode())| > 0
    ensures var data := Encode(OneNode())[..|Encode(OneNode())| - 1];
            var feed := Hex(Zeros(32));
            && ParseWire(data).Ok? && feed in FeedMap(ParseWire(data).value.0.updates)
            && var p := Posted(ParseWire(data).value.0, feed, treasuryId);
               ReadPost(Layout(p)) != Some(p)
  {
    hide ParseWire, ReadPost, Layout, Encode, Hex, FeedMap;
    EncodedLength(OneNode());
    CutAccepted();
    var data := Encode(OneNode())[..|Encode(OneNode())| - 1];
    var us := ParseWire(data).value.0.updates;
    assert us[0].message[1..33] == Zeros(32);
    assert Carries(us[0], Zeros(32)) && LastOf(us, Zeros(32), 0);
    FeedMapKeepsLast(us, Zeros(32));
    ParsedPricePosts(data, Hex(Zeros(32)), treasuryId);
    assert !FullNodes(us[0].proof);
  }

  lemma {:induction false} MappedUpdate(us: seq<WireUpdate>, feed: string)
    requires feed in FeedMap(us)
    ensures exists k :: 0 <= k < |us| && us[k] == FeedMap(us)[feed]
  {
    var n := |us| - 1;
    if !(IsPrice(us[n]) && FeedId(us[n]) == feed) {
      MappedUpdate(us[..n], feed);
      var k :| 0 <= k < n && us[..n][k] == FeedMap(us[..n])[feed];
      assert us[k] == FeedMap(us)[feed];
    } else {
      assert us[n] == FeedMap(us)[feed];
    }
  }
}
