// The parser accepts complete data exactly if it is an encoding, and then recovers what was encoded.

module PythRoundTrip {
  import opened LittleEndian
  import opened ByteReaders
  import opened PythAccumulator

  lemma Widths()
    ensures Pow256(1) == 0x100 && Pow256(2) == 0x1_0000 && Pow256(4) == 0x1_0000_0000
  {
  }

  // Reading a number at a position.
  lemma GetUintIff(data: seq<byte>, offset: nat, n: nat, v: nat)
    requires v < Pow256(n)
    ensures GetUint(data, offset, n) == Ok(v) <==> HasAt(data, offset, BytesBE(v, n))
  {
    hide ValueBE, BytesBE;
    if offset + n <= |data| { NumberAt(data, offset, n, v); }
  }

  lemma GetUintRange(data: seq<byte>, offset: nat, n: nat)
    requires GetUint(data, offset, n).Ok?
    ensures GetUint(data, offset, n).value < Pow256(n)
  {
    BytesOfValueBE(data[offset..offset + n]);
  }

  // A slice of the length that was announced, when the data goes on behind it.
  lemma SliceIff(data: seq<byte>, from: nat, field: seq<byte>)
    requires from + |field| <= |data|
    ensures Slice(data, from, from + |field|) == field <==> HasAt(data, from, field)
  {
  }

  // ----- the header of the message, byte by byte

  lemma OneByte(data: seq<byte>, offset: nat)
    ensures GetUint(data, offset, 1) == if offset < |data| then Ok(data[offset]) else Err(OutOfRange)
  {
    if offset < |data| {
      assert data[offset..offset + 1] == [data[offset]];
      assert ValueBE([]) == 0;
    }
  }

  lemma TwoBytes(a: byte, b: byte)
    ensures ValueBE([a, b]) == 0x100 * (a as int) + b as int
  {
    assert ValueBE([a]) == a by { assert ValueBE([]) == 0; }
    assert [a, b][..1] == [a];
  }

  function Big4(a: int, b: int, c: int, d: int): int {
    0x100_0000 * a + 0x1_0000 * b + 0x100 * c + d
  }

  lemma FourBytes(a: byte, b: byte, c: byte, d: byte)
    ensures ValueBE([a, b, c, d]) == Big4(a, b, c, d)
  {
    TwoBytes(a, b);
    assert [a, b, c][..2] == [a, b];
    assert ValueBE([a, b, c]) == 256 * ValueBE([a, b]) + c as int;
    assert [a, b, c, d][..3] == [a, b, c];
  }

  // What the parser says to a message whose header is short or wrong: magic 0x504e4155, version 1, a minor version that
  // is skipped, the length of a trailing header that is skipped, and update type 0.
  lemma HeaderErrors(data: seq<byte>)
    ensures var r := ParseWire(data);
            if |data| < 4 then r == Err(OutOfRange)
            else if data[..4] != [0x50, 0x4e, 0x41, 0x55] then
              r == Err(InvalidMagic(Big4(data[0], data[1], data[2], data[3])))
            else if |data| < 5 then r == Err(OutOfRange)
            else if data[4] != 1 then r == Err(UnsupportedVersion(data[4]))
            else if |data| < 7 || |data| < 8 + data[6] as int then r == Err(OutOfRange)
            else if data[7 + data[6] as int] != 0 then r == Err(UnsupportedType(data[7 + data[6] as int]))
            else r.Err? ==> r.error == OutOfRange
  {
    hide GetUint, ValueBE, Slice, ParseUpdates;
    OneByte(data, 4);
    OneByte(data, 6);
    MagicBytes(data);
    if |data| > 6 {
      OneByte(data, 7 + data[6] as int);
      if 7 + data[6] as int < |data| && data[7 + data[6] as int] == 0 { BodyErrors(data, 7 + data[6] as int); }
    }
  }

  lemma MagicBytes(data: seq<byte>)
    ensures |data| < 4 ==> GetUint(data, 0, 4) == Err(OutOfRange)
    ensures |data| >= 4 ==> GetUint(data, 0, 4) == Ok(Big4(data[0], data[1], data[2], data[3]))
  {
    hide ValueBE;
    if |data| >= 4 {
      assert data[0..4] == [data[0], data[1], data[2], data[3]];
      FourBytes(data[0], data[1], data[2], data[3]);
    }
  }

  // Behind the header only the end of the data stops the parser.
  lemma BodyErrors(data: seq<byte>, offset: nat)
    requires GetUint(data, offset, 1) == Ok(0)
    ensures ParseBody(data, offset).Err? ==> ParseBody(data, offset).error == OutOfRange
  {
    hide ValueBE, Slice, ParseUpdates;
    forall start: nat, n: nat
      ensures ParseUpdates(data, start, n).Err? ==> ParseUpdates(data, start, n).error == OutOfRange
    {
      UpdateErrors(data, start, n);
    }
  }

  lemma {:induction false} UpdateErrors(data: seq<byte>, offset: nat, n: nat)
    ensures ParseUpdates(data, offset, n).Err? ==> ParseUpdates(data, offset, n).error == OutOfRange
  {
    hide ValueBE, Slice, Nodes;
    if n > 0 { UpdateErrors(data, offset, n - 1); }
  }

  // ----- proofs

  lemma {:induction false} NodesIff(data: seq<byte>, offset: nat, n: nat, nodes: seq<seq<byte>>)
    requires offset + 20 * n <= |data|
    ensures nodes == Nodes(data, offset, n)
            <==> |nodes| == n && FullNodes(nodes) && HasAt(data, offset, Concat(nodes))
    ensures |nodes| == n && FullNodes(nodes) ==> |Concat(nodes)| == 20 * n
    decreases n
  {
    if n == 0 {
    } else if |nodes| == n {
      var front, last := nodes[..n - 1], nodes[n - 1];
      assert nodes == front + [last];
      NodesIff(data, offset, n - 1, front);
      SnocNodes(data, offset, n, front, last);
    }
  }

  lemma SnocNodes(data: seq<byte>, offset: nat, n: nat, front: seq<seq<byte>>, last: seq<byte>)
    requires n > 0 && offset + 20 * n <= |data| && |front| == n - 1
    requires front == Nodes(data, offset, n - 1) <==> FullNodes(front) && HasAt(data, offset, Concat(front))
    requires FullNodes(front) ==> |Concat(front)| == 20 * (n - 1)
    ensures front + [last] == Nodes(data, offset, n)
            <==> FullNodes(front + [last]) && HasAt(data, offset, Concat(front + [last]))
  {
    hide Nodes, Slice, HasAt, Concat;
    var at := offset + 20 * (n - 1);
    assert Nodes(data, offset, n) == Nodes(data, offset, n - 1) + [Slice(data, at, at + 20)] by { NodesStep(data, offset, n); }
    assert Concat(front + [last]) == Concat(front) + last by { ConcatSnoc(front, last); }
    HasBoth(data, offset, Concat(front), last);
    FullSnoc(front, last);
    SnocEqual(front, last, Nodes(data, offset, n - 1), Slice(data, at, at + 20));
    if |last| == 20 { SliceIff(data, at, last); }
  }

  lemma NodesStep(data: seq<byte>, offset: nat, n: nat)
    requires n > 0
    ensures var at := offset + 20 * (n - 1);
            Nodes(data, offset, n) == Nodes(data, offset, n - 1) + [Slice(data, at, at + 20)]
  {
  }

  lemma ConcatSnoc(front: seq<seq<byte>>, last: seq<byte>)
    ensures Concat(front + [last]) == Concat(front) + last
  {
    assert (front + [last])[..|front|] == front;
  }

  lemma FullSnoc(front: seq<seq<byte>>, last: seq<byte>)
    ensures FullNodes(front + [last]) <==> FullNodes(front) && |last| == 20
  {
    var all := front + [last];
    if FullNodes(all) {
      assert |all[|front|]| == 20;
      forall j | 0 <= j < |front| ensures |front[j]| == 20 { assert all[j] == front[j]; }
    }
  }

  lemma SnocEqual<T>(a: seq<T>, x: T, b: seq<T>, y: T)
    ensures a + [x] == b + [y] <==> a == b && x == y
  {
    if a + [x] == b + [y] {
      assert (a + [x])[..|a|] == a && (b + [y])[..|b|] == b;
      assert (a + [x])[|a|] == x && (b + [y])[|b|] == y;
    }
  }

  // ----- updates

  lemma UpdateFields(data: seq<byte>, offset: nat, u: WireUpdate)
    ensures var afterMessage := offset + 2 + |u.message|;
            HasAt(data, offset, EncodeUpdate(u))
            <==> HasAt(data, offset, BytesBE(|u.message|, 2)) && HasAt(data, offset + 2, u.message)
                 && HasAt(data, afterMessage, BytesBE(|u.proof|, 1)) && HasAt(data, afterMessage + 1, Concat(u.proof))
    ensures |EncodeUpdate(u)| == 3 + |u.message| + |Concat(u.proof)|
  {
    hide HasAt, BytesBE, Concat;
    var count, nodes := BytesBE(|u.proof|, 1), Concat(u.proof);
    HasBoth(data, offset, BytesBE(|u.message|, 2), u.message + (count + nodes));
    HasBoth(data, offset + 2, u.message, count + nodes);
    HasBoth(data, offset + 2 + |u.message|, count, nodes);
  }

  // What lies at the position is parsed.
  lemma EncodedUpdateParses(data: seq<byte>, offset: nat, u: WireUpdate)
    requires WellFormedUpdate(u) && HasAt(data, offset, EncodeUpdate(u))
    ensures ParseUpdate(data, offset) == Ok((u, offset + |EncodeUpdate(u)|))
  {
    hide BytesBE, Concat, Nodes, EncodeUpdate, Slice, GetUint, FullNodes;
    Widths();
    UpdateFields(data, offset, u);
    var afterMessage := offset + 2 + |u.message|;
    GetUintIff(data, offset, 2, |u.message|);
    GetUintIff(data, afterMessage, 1, |u.proof|);
    SliceIff(data, offset + 2, u.message);
    ConcatLength(u.proof);
    NodesIff(data, afterMessage + 1, |u.proof|, u.proof);
  }

  lemma {:induction false} ConcatLength(nodes: seq<seq<byte>>)
    requires FullNodes(nodes)
    ensures |Concat(nodes)| == 20 * |nodes|
  {
    if nodes != [] { ConcatLength(nodes[..|nodes| - 1]); }
  }

  // What is parsed, without running over the end of the data, lies at the position.
  lemma ParsedUpdateEncoded(data: seq<byte>, offset: nat, u: WireUpdate, end: nat)
    requires ParseUpdate(data, offset) == Ok((u, end)) && end <= |data|
    ensures WellFormedUpdate(u) && HasAt(data, offset, EncodeUpdate(u)) && end == offset + |EncodeUpdate(u)|
  {
    hide BytesBE, Concat, Nodes, EncodeUpdate, Slice, GetUint, FullNodes, HasAt;
    Widths();
    GetUintRange(data, offset, 2);
    var afterMessage := offset + 2 + GetUint(data, offset, 2).value;
    GetUintRange(data, afterMessage, 1);
    assert afterMessage + 1 <= |data| by { GetUintInside(data, afterMessage, 1); }
    assert |u.message| == GetUint(data, offset, 2).value;
    GetUintIff(data, offset, 2, |u.message|);
    GetUintIff(data, afterMessage, 1, |u.proof|);
    SliceIff(data, offset + 2, u.message);
    NodesIff(data, afterMessage + 1, |u.proof|, u.proof);
    UpdateFields(data, offset, u);
  }

  lemma GetUintInside(data: seq<byte>, offset: nat, n: nat)
    requires GetUint(data, offset, n).Ok?
    ensures offset + n <= |data|
  {
  }

  lemma WellFormedSnoc(front: seq<WireUpdate>, last: WireUpdate)
    ensures AllWellFormed(front + [last]) <==> AllWellFormed(front) && WellFormedUpdate(last)
  {
    var all := front + [last];
    if AllWellFormed(all) {
      assert WellFormedUpdate(all[|front|]);
      forall i | 0 <= i < |front| ensures WellFormedUpdate(front[i]) { assert all[i] == front[i]; }
    }
  }

  lemma EncodeSnoc(front: seq<WireUpdate>, last: WireUpdate)
    ensures EncodeUpdates(front + [last]) == EncodeUpdates(front) + EncodeUpdate(last)
  {
    assert (front + [last])[..|front|] == front;
  }

  lemma {:induction false} EncodedUpdatesParse(data: seq<byte>, offset: nat, us: seq<WireUpdate>)
    requires AllWellFormed(us) && HasAt(data, offset, EncodeUpdates(us))
    ensures ParseUpdates(data, offset, |us|) == Ok((us, offset + |EncodeUpdates(us)|))
  {
    if us != [] {
      hide HasAt, EncodeUpdate, EncodeUpdates, ParseUpdate, AllWellFormed, WellFormedUpdate;
      var front, last := us[..|us| - 1], us[|us| - 1];
      assert us == front + [last];
      WellFormedSnoc(front, last);
      EncodeSnoc(front, last);
      HasBoth(data, offset, EncodeUpdates(front), EncodeUpdate(last));
      EncodedUpdatesParse(data, offset, front);
      EncodedUpdateParses(data, offset + |EncodeUpdates(front)|, last);
    }
  }

  lemma ParseAdvances(data: seq<byte>, offset: nat)
    requires ParseUpdate(data, offset).Ok?
    ensures ParseUpdate(data, offset).value.1 >= offset
  {
  }

  // The last of several parsed updates.
  lemma LastStep(data: seq<byte>, offset: nat, n: nat, us: seq<WireUpdate>, end: nat)
      returns (front: seq<WireUpdate>, middle: nat, last: WireUpdate)
    requires n > 0 && ParseUpdates(data, offset, n) == Ok((us, end))
    ensures us == front + [last] && ParseUpdates(data, offset, n - 1) == Ok((front, middle))
    ensures ParseUpdate(data, middle) == Ok((last, end)) && middle <= end
  {
    hide ParseUpdate;
    var before := ParseUpdates(data, offset, n - 1).value;
    front, middle, last := before.0, before.1, ParseUpdate(data, before.1).value.0;
    ParseAdvances(data, middle);
  }

  lemma ParsedNothing(data: seq<byte>, offset: nat, us: seq<WireUpdate>, end: nat)
    requires ParseUpdates(data, offset, 0) == Ok((us, end)) && end <= |data|
    ensures us == [] && end == offset && AllWellFormed(us) && HasAt(data, offset, EncodeUpdates(us)) && EncodeUpdates(us) == []
  {
  }

  lemma {:induction false} ParsedUpdatesEncoded(data: seq<byte>, offset: nat, n: nat, us: seq<WireUpdate>, end: nat)
    requires ParseUpdates(data, offset, n) == Ok((us, end)) && end <= |data|
    ensures |us| == n && AllWellFormed(us)
    ensures HasAt(data, offset, EncodeUpdates(us)) && end == offset + |EncodeUpdates(us)|
    decreases n
  {
    hide HasAt, EncodeUpdate, EncodeUpdates, ParseUpdate, ParseUpdates, AllWellFormed, WellFormedUpdate;
    if n == 0 {
      ParsedNothing(data, offset, us, end);
    } else {
      var front, middle, last := LastStep(data, offset, n, us, end);
      ParsedUpdatesEncoded(data, offset, n - 1, front, middle);
      ParsedUpdateEncoded(data, middle, last, end);
      WellFormedSnoc(front, last);
      EncodeSnoc(front, last);
      HasBoth(data, offset, EncodeUpdates(front), EncodeUpdate(last));
    }
  }

  // ----- the whole message

  lemma BodyFields(data: seq<byte>, offset: nat, w: Wire)
    ensures var afterVaa := offset + 3 + |w.vaa|;
            HasAt(data, offset, EncodeBody(w))
            <==> HasAt(data, offset, BytesBE(ACCUMULATOR_UPDATE_TYPE_WORMHOLE_MERKLE, 1))
                 && HasAt(data, offset + 1, BytesBE(|w.vaa|, 2)) && HasAt(data, offset + 3, w.vaa)
                 && HasAt(data, afterVaa, BytesBE(|w.updates|, 1)) && HasAt(data, afterVaa + 1, EncodeUpdates(w.updates))
    ensures |EncodeBody(w)| == 4 + |w.vaa| + |EncodeUpdates(w.updates)|
  {
    hide HasAt, BytesBE, EncodeUpdates;
    var updateType, count, us := BytesBE(ACCUMULATOR_UPDATE_TYPE_WORMHOLE_MERKLE, 1), BytesBE(|w.updates|, 1), EncodeUpdates(w.updates);
    HasBoth(data, offset, updateType, BytesBE(|w.vaa|, 2) + (w.vaa + (count + us)));
    HasBoth(data, offset + 1, BytesBE(|w.vaa|, 2), w.vaa + (count + us));
    HasBoth(data, offset + 3, w.vaa, count + us);
    HasBoth(data, offset + 3 + |w.vaa|, count, us);
  }

  lemma EncodedBodyParses(data: seq<byte>, offset: nat, w: Wire)
    requires WellFormed(w) && HasAt(data, offset, EncodeBody(w))
    ensures ParseBody(data, offset) == Ok((w.vaa, w.updates, offset + |EncodeBody(w)|))
  {
    hide BytesBE, EncodeBody, EncodeUpdates, Slice, GetUint, AllWellFormed, WellFormedUpdate, ParseUpdates;
    Widths();
    BodyFields(data, offset, w);
    var afterVaa := offset + 3 + |w.vaa|;
    GetUintIff(data, offset, 1, ACCUMULATOR_UPDATE_TYPE_WORMHOLE_MERKLE);
    GetUintIff(data, offset + 1, 2, |w.vaa|);
    SliceIff(data, offset + 3, w.vaa);
    GetUintIff(data, afterVaa, 1, |w.updates|);
    EncodedUpdatesParse(data, afterVaa + 1, w.updates);
  }

  lemma ParsedBodyEncoded(data: seq<byte>, offset: nat, w: Wire, end: nat)
    requires ParseBody(data, offset) == Ok((w.vaa, w.updates, end)) && end <= |data|
    ensures |w.vaa| < 0x1_0000 && |w.updates| < 0x100 && AllWellFormed(w.updates)
    ensures HasAt(data, offset, EncodeBody(w)) && end == offset + |EncodeBody(w)|
  {
    hide BytesBE, EncodeBody, EncodeUpdates, Slice, GetUint, AllWellFormed, WellFormedUpdate, HasAt, ParseUpdates;
    Widths();
    GetUintRange(data, offset + 1, 2);
    var afterVaa := offset + 3 + GetUint(data, offset + 1, 2).value;
    GetUintRange(data, afterVaa, 1);
    GetUintInside(data, afterVaa, 1);
    GetUintIff(data, offset, 1, ACCUMULATOR_UPDATE_TYPE_WORMHOLE_MERKLE);
    GetUintIff(data, offset + 1, 2, |w.vaa|);
    SliceIff(data, offset + 3, w.vaa);
    ParsedUpdatesEncoded(data, afterVaa + 1, GetUint(data, afterVaa, 1).value, w.updates, end);
    GetUintIff(data, afterVaa, 1, |w.updates|);
    BodyFields(data, offset, w);
  }

  lemma WireFields(data: seq<byte>, w: Wire)
    ensures HasAt(data, 0, Encode(w))
            <==> HasAt(data, 0, BytesBE(ACCUMULATOR_UPDATE_MAGIC, 4)) && HasAt(data, 4, BytesBE(1, 1))
                 && HasAt(data, 5, [w.minor]) && HasAt(data, 6, BytesBE(|w.trailing|, 1))
                 && HasAt(data, 7, w.trailing) && HasAt(data, 7 + |w.trailing|, EncodeBody(w))
    ensures |Encode(w)| == 7 + |w.trailing| + |EncodeBody(w)|
  {
    hide HasAt, BytesBE, EncodeBody;
    var body := w.trailing + EncodeBody(w);
    var header := BytesBE(|w.trailing|, 1) + body;
    HasBoth(data, 0, BytesBE(ACCUMULATOR_UPDATE_MAGIC, 4), BytesBE(1, 1) + ([w.minor] + header));
    HasBoth(data, 4, BytesBE(1, 1), [w.minor] + header);
    HasBoth(data, 5, [w.minor], header);
    HasBoth(data, 6, BytesBE(|w.trailing|, 1), body);
    HasBoth(data, 7, w.trailing, EncodeBody(w));
  }

  // The encoding of a well-formed message, written out: lengths are unsigned, the longer ones with the high byte first.
  lemma EncodedBytes(w: Wire)
    requires WellFormed(w)
    ensures Encode(w) == [0x50, 0x4e, 0x41, 0x55, 1, w.minor, |w.trailing|] + w.trailing
                         + [0, |w.vaa| / 256, |w.vaa| % 256] + w.vaa + [|w.updates|] + EncodeUpdates(w.updates)
  {
    hide BytesBE, AllWellFormed, EncodeUpdates;
    OneAndTwoBytes(0);
    OneAndTwoBytes(1);
    OneAndTwoBytes(|w.trailing|);
    OneAndTwoBytes(|w.vaa|);
    OneAndTwoBytes(|w.updates|);
    BytesOfMagic();
  }

  lemma BytesOfMagic()
    ensures BytesBE(0x504e4155, 4) == [0x50, 0x4e, 0x41, 0x55]
  {
    FourBytes(0x50, 0x4e, 0x41, 0x55);
    BytesOfValueBE([0x50, 0x4e, 0x41, 0x55]);
  }

  lemma EncodedUpdateBytes(u: WireUpdate)
    requires WellFormedUpdate(u)
    ensures EncodeUpdate(u) == [|u.message| / 256, |u.message| % 256] + u.message + [|u.proof|] + Concat(u.proof)
  {
    hide BytesBE, Concat;
    OneAndTwoBytes(|u.message|);
    OneAndTwoBytes(|u.proof|);
  }

  // Updates are encoded one behind the other.
  lemma {:induction false} EncodeConcat(a: seq<WireUpdate>, b: seq<WireUpdate>)
    ensures EncodeUpdates(a + b) == EncodeUpdates(a) + EncodeUpdates(b)
  {
    hide EncodeUpdate, EncodeUpdates;
    if b == [] {
      assert a + b == a;
      assert EncodeUpdates([]) == [] by { NothingEncoded(); }
    } else {
      var front, last := b[..|b| - 1], b[|b| - 1];
      EncodeConcat(a, front);
      assert b == front + [last] && a + b == (a + front) + [last];
      EncodeSnoc(front, last);
      EncodeSnoc(a + front, last);
    }
  }

  lemma NothingEncoded()
    ensures EncodeUpdates([]) == []
  {
  }

  lemma EncodedParses(data: seq<byte>, w: Wire)
    requires WellFormed(w) && HasAt(data, 0, Encode(w))
    ensures ParseWire(data) == Ok((w, |Encode(w)|))
  {
    hide BytesBE, Encode, EncodeBody, Slice, GetUint, AllWellFormed, WellFormedUpdate, ParseBody;
    Widths();
    WireFields(data, w);
    GetUintIff(data, 0, 4, ACCUMULATOR_UPDATE_MAGIC);
    GetUintIff(data, 4, 1, 1);
    GetUintIff(data, 6, 1, |w.trailing|);
    SliceIff(data, 7, w.trailing);
    EncodedBodyParses(data, 7 + |w.trailing|, w);
    assert data[5] == data[5..5 + |[w.minor]|][0];
  }

  lemma ParsedEncoded(data: seq<byte>, w: Wire, end: nat)
    requires ParseWire(data) == Ok((w, end)) && end <= |data|
    ensures WellFormed(w) && HasAt(data, 0, Encode(w)) && end == |Encode(w)|
  {
    hide BytesBE, Encode, EncodeBody, Slice, GetUint, AllWellFormed, WellFormedUpdate, ParseBody;
    Widths();
    GetUintRange(data, 6, 1);
    var start := 7 + GetUint(data, 6, 1).value;
    ParsedBodyEncoded(data, start, w, end);
    GetUintIff(data, 0, 4, ACCUMULATOR_UPDATE_MAGIC);
    GetUintIff(data, 4, 1, 1);
    SliceIff(data, 7, w.trailing);
    GetUintIff(data, 6, 1, |w.trailing|);
    assert data[5..6] == [w.minor];
    WireFields(data, w);
  }

  // The parser stops inside the data exactly if the data starts with the encoding of a well-formed message, and that
  // message is what it finds. Whatever follows the message is ignored.
  lemma ParseIff(data: seq<byte>, w: Wire)
    ensures (exists end: nat :: end <= |data| && ParseWire(data) == Ok((w, end)))
            <==> WellFormed(w) && HasAt(data, 0, Encode(w))
  {
    hide Encode, WellFormed, ParseWire;
    if WellFormed(w) && HasAt(data, 0, Encode(w)) {
      EncodedParses(data, w);
      assert |Encode(w)| <= |data|;
    }
    if end: nat :| end <= |data| && ParseWire(data) == Ok((w, end)) {
      ParsedEncoded(data, w, end);
    }
  }

  // Parsing an encoding gives the VAA back, and for every feed the last price message that carries it.
  lemma ParseOfEncode(w: Wire, rest: seq<byte>, feed: seq<byte>)
    requires WellFormed(w)
    ensures var result := Meaning(ParseWire(Encode(w) + rest));
            && result.Ok? && result.value.vaa == w.vaa
            && (Hex(feed) in result.value.updatesByFeedId <==> exists k :: 0 <= k < |w.updates| && Carries(w.updates[k], feed))
            && forall k: nat :: LastOf(w.updates, feed, k) ==>
                 Hex(feed) in result.value.updatesByFeedId && result.value.updatesByFeedId[Hex(feed)] == w.updates[k]
  {
    hide Encode, WellFormed, ParseWire, FeedMap, LastOf, Carries, Hex;
    EncodedParses(Encode(w) + rest, w);
    FeedMapKeepsLast(w.updates, feed);
  }

  // Encodings are unambiguous, whatever follows them.
  lemma EncodeInjective(a: Wire, restA: seq<byte>, b: Wire, restB: seq<byte>)
    requires WellFormed(a) && WellFormed(b) && Encode(a) + restA == Encode(b) + restB
    ensures a == b && restA == restB
  {
    hide Encode, WellFormed, ParseWire;
    var data := Encode(a) + restA;
    EncodedParses(data, a);
    EncodedParses(Encode(b) + restB, b);
    assert restA == data[|Encode(a)|..];
    assert restB == (Encode(b) + restB)[|Encode(b)|..];
  }
}
