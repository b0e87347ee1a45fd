// Parsing accumulator updates of the Pyth price service: a cursor over a binary message.

module PythAccumulator {
  import opened LittleEndian
  import opened ByteReaders

  const ACCUMULATOR_UPDATE_MAGIC := 0x504e4155
  const ACCUMULATOR_UPDATE_TYPE_WORMHOLE_MERKLE := 0
  const ACCUMULATOR_PRICE_MESSAGE_TYPE := 0

  datatype Error = OutOfRange | InvalidMagic(magic: nat) | UnsupportedVersion(version: nat) | UnsupportedType(updateType: nat)

  datatype Result<+T> = Ok(value: T) | Err(error: Error) {
    predicate IsFailure() { Err? }

    function PropagateFailure<U>(): Result<U>
      requires IsFailure()
    {
      Err(error)
    }

    function Extract(): T
      requires !IsFailure()
    {
      value
    }
  }

  // One update on the wire, and the whole message. The parser skips the minor version and the trailing header.
  datatype WireUpdate = WireUpdate(message: seq<byte>, proof: seq<seq<byte>>)

  datatype Wire = Wire(minor: byte, trailing: seq<byte>, vaa: seq<byte>, updates: seq<WireUpdate>)

  datatype AccumulatorUpdate = AccumulatorUpdate(vaa: seq<byte>, updatesByFeedId: map<string, WireUpdate>)

  // ----- the wire format

  function Concat(nodes: seq<seq<byte>>): seq<byte> {
    if nodes == [] then [] else Concat(nodes[..|nodes| - 1]) + nodes[|nodes| - 1]
  }

  function EncodeUpdate(u: WireUpdate): seq<byte> {
    BytesBE(|u.message|, 2) + (u.message + (BytesBE(|u.proof|, 1) + Concat(u.proof)))
  }

  function EncodeUpdates(us: seq<WireUpdate>): seq<byte> {
    if us == [] then [] else EncodeUpdates(us[..|us| - 1]) + EncodeUpdate(us[|us| - 1])
  }

  function EncodeBody(w: Wire): seq<byte> {
    BytesBE(ACCUMULATOR_UPDATE_TYPE_WORMHOLE_MERKLE, 1)
    + (BytesBE(|w.vaa|, 2) + (w.vaa + (BytesBE(|w.updates|, 1) + EncodeUpdates(w.updates))))
  }

  function Encode(w: Wire): seq<byte> {
    BytesBE(ACCUMULATOR_UPDATE_MAGIC, 4)
    + (BytesBE(1, 1) + ([w.minor] + (BytesBE(|w.trailing|, 1) + (w.trailing + EncodeBody(w)))))
  }

  predicate FullNodes(nodes: seq<seq<byte>>) {
    forall j :: 0 <= j < |nodes| ==> |nodes[j]| == 20
  }

  predicate WellFormedUpdate(u: WireUpdate) {
    |u.message| < 0x1_0000 && |u.proof| < 0x100 && FullNodes(u.proof)
  }

  predicate AllWellFormed(us: seq<WireUpdate>) {
    forall i :: 0 <= i < |us| ==> WellFormedUpdate(us[i])
  }

  predicate WellFormed(w: Wire) {
    && |w.trailing| < 0x100 && |w.vaa| < 0x1_0000 && |w.updates| < 0x100
    && AllWellFormed(w.updates)
  }

  // ----- the parser as a function of the data

  // A view reads n bytes, or throws when they are not there.
  function GetUint(data: seq<byte>, offset: nat, n: nat): Result<nat> {
    if offset + n <= |data| then Ok(ValueBE(data[offset..offset + n])) else Err(OutOfRange)
  }

  function Nodes(data: seq<byte>, offset: nat, n: nat): (nodes: seq<seq<byte>>)
    ensures |nodes| == n
  {
    if n == 0 then []
    else Nodes(data, offset, n - 1) + [Slice(data, offset + 20 * (n - 1), offset + 20 * (n - 1) + 20)]
  }

  function ParseUpdate(data: seq<byte>, offset: nat): Result<(WireUpdate, nat)> {
    var messageLength :- GetUint(data, offset, 2);
    var message := Slice(data, offset + 2, offset + 2 + messageLength);
    var proofCount :- GetUint(data, offset + 2 + messageLength, 1);
    var start := offset + 2 + messageLength + 1;
    Ok((WireUpdate(message, Nodes(data, start, proofCount)), start + 20 * proofCount))
  }

  function ParseUpdates(data: seq<byte>, offset: nat, n: nat): Result<(seq<WireUpdate>, nat)> {
    if n == 0 then Ok(([], offset))
    else
      var before :- ParseUpdates(data, offset, n - 1);
      var last :- ParseUpdate(data, before.1);
      Ok((before.0 + [last.0], last.1))
  }

  // From the update type on.
  function ParseBody(data: seq<byte>, offset: nat): Result<(seq<byte>, seq<WireUpdate>, nat)> {
    var updateType :- GetUint(data, offset, 1);
    if updateType != ACCUMULATOR_UPDATE_TYPE_WORMHOLE_MERKLE then Err(UnsupportedType(updateType))
    else
      var vaaLength :- GetUint(data, offset + 1, 2);
      var vaa := Slice(data, offset + 3, offset + 3 + vaaLength);
      var numUpdates :- GetUint(data, offset + 3 + vaaLength, 1);
      var updates :- ParseUpdates(data, offset + 3 + vaaLength + 1, numUpdates);
      Ok((vaa, updates.0, updates.1))
  }

  function ParseWire(data: seq<byte>): Result<(Wire, nat)> {
    var magic :- GetUint(data, 0, 4);
    if magic != ACCUMULATOR_UPDATE_MAGIC then Err(InvalidMagic(magic))
    else
      var majorVersion :- GetUint(data, 4, 1);
      if majorVersion != 1 then Err(UnsupportedVersion(majorVersion))
      else
        var trailingHeaderSize :- GetUint(data, 6, 1);
        var body :- ParseBody(data, 7 + trailingHeaderSize);
        Ok((Wire(data[5], Slice(data, 7, 7 + trailingHeaderSize), body.0, body.1), body.2))
  }

  // ----- prices by feed

  predicate IsPrice(u: WireUpdate) {
    |u.message| >= 33 && u.message[0] == ACCUMULATOR_PRICE_MESSAGE_TYPE
  }

  function FeedId(u: WireUpdate): string
    requires IsPrice(u)
  {
    Hex(u.message[1..33])
  }

  function FeedMap(us: seq<WireUpdate>): map<string, WireUpdate> {
    if us == [] then map[]
    else
      var before, last := FeedMap(us[..|us| - 1]), us[|us| - 1];
      if IsPrice(last) then before[FeedId(last) := last] else before
  }

  // Update k carries the feed, and no later update does.
  ghost predicate LastOf(us: seq<WireUpdate>, feed: seq<byte>, k: nat) {
    && k < |us| && Carries(us[k], feed)
    && forall j :: k < j < |us| ==> !Carries(us[j], feed)
  }

  // A message of at least 33 bytes, a zero and then the feed.
  predicate Carries(u: WireUpdate, feed: seq<byte>) {
    |u.message| >= 33 && u.message[0] == 0 && u.message[1..33] == feed
  }

  lemma CarriesById(u: WireUpdate, feed: seq<byte>)
    ensures Carries(u, feed) <==> IsPrice(u) && FeedId(u) == Hex(feed)
  {
    hide Hex;
    if IsPrice(u) && FeedId(u) == Hex(feed) { HexInjective(u.message[1..33], feed); }
  }

  // A feed is in the map exactly if some price message carries it, and then with the last such message.
  lemma {:induction false} FeedMapKeepsLast(us: seq<WireUpdate>, feed: seq<byte>)
    ensures Hex(feed) in FeedMap(us) <==> exists k :: 0 <= k < |us| && Carries(us[k], feed)
    ensures forall k: nat :: LastOf(us, feed, k) ==> Hex(feed) in FeedMap(us) && FeedMap(us)[Hex(feed)] == us[k]
  {
    hide Hex, Carries, IsPrice, FeedId;
    if us != [] {
      var n := |us| - 1;
      var before, last := us[..n], us[n];
      FeedMapKeepsLast(before, feed);
      CarriesById(last, feed);
      forall k: nat | LastOf(us, feed, k)
        ensures Hex(feed) in FeedMap(us) && FeedMap(us)[Hex(feed)] == us[k]
      {
        if k < n { assert LastOf(before, feed, k); }
      }
      if Carries(last, feed) { assert Carries(us[n], feed); }
      forall k | 0 <= k < n && Carries(before[k], feed)
        ensures Carries(us[k], feed)
      {
      }
    }
  }

  // ----- the parser

  function Meaning(parsed: Result<(Wire, nat)>): Result<AccumulatorUpdate> {
    var p :- parsed;
    Ok(AccumulatorUpdate(p.0.vaa, FeedMap(p.0.updates)))
  }

  method ParseAccumulatorUpdate(data: seq<byte>) returns (result: Result<AccumulatorUpdate>)
    ensures result == Meaning(ParseWire(data))
  {
    hide ValueBE, Nodes, Slice, FeedMap, ParseUpdates, ParseUpdate;
    var offset: nat := 0;
    var magic :- GetUint(data, offset, 4);
    offset := offset + 4;
    if magic != ACCUMULATOR_UPDATE_MAGIC {
      return Err(InvalidMagic(magic));
    }
    var majorVersion :- GetUint(data, offset, 1);
    offset := offset + 1;
    if majorVersion != 1 {
      return Err(UnsupportedVersion(majorVersion));
    }
    offset := offset + 1;
    var trailingHeaderSize :- GetUint(data, offset, 1);
    offset := offset + 1;
    offset := offset + trailingHeaderSize;
    var updateType :- GetUint(data, offset, 1);
    offset := offset + 1;
    if updateType != ACCUMULATOR_UPDATE_TYPE_WORMHOLE_MERKLE {
      return Err(UnsupportedType(updateType));
    }
    var vaaLength :- GetUint(data, offset, 2);
    offset := offset + 2;
    var vaa := Slice(data, offset, offset + vaaLength);
    offset := offset + vaaLength;
    var numUpdates :- GetUint(data, offset, 1);
    offset := offset + 1;
    var updatesByFeedId :- ReadFeeds(data, offset, numUpdates);
    return Ok(AccumulatorUpdate(vaa, updatesByFeedId));
  }

  lemma NoFeeds(data: seq<byte>, start: nat)
    ensures ParseUpdates(data, start, 0) == Ok(([], start)) && FeedMap([]) == map[]
  {
  }

  lemma ParseNext(data: seq<byte>, start: nat, n: nat, seen: seq<WireUpdate>, offset: nat)
    requires ParseUpdates(data, start, n) == Ok((seen, offset))
    ensures ParseUpdates(data, start, n + 1)
            == match ParseUpdate(data, offset)
               case Ok(p) => Ok((seen + [p.0], p.1))
               case Err(e) => Err(e)
  {
    hide ParseUpdate;
  }

  lemma FeedMapSnoc(us: seq<WireUpdate>, u: WireUpdate)
    ensures FeedMap(us + [u]) == if IsPrice(u) then FeedMap(us)[FeedId(u) := u] else FeedMap(us)
  {
    hide Hex;
    assert (us + [u])[..|us|] == us;
  }

  // The loop over the updates. An error ends it, whatever would follow.
  method ReadFeeds(data: seq<byte>, start: nat, numUpdates: nat) returns (result: Result<map<string, WireUpdate>>)
    ensures result == match ParseUpdates(data, start, numUpdates)
                      case Ok(p) => Ok(FeedMap(p.0))
                      case Err(e) => Err(e)
  {
    hide ValueBE, Nodes, Slice, FeedId, IsPrice, ParseUpdate, ParseUpdates, FeedMap;
    var offset := start;
    NoFeeds(data, start);
    var updatesByFeedId: map<string, WireUpdate> := map[];
    ghost var seen: seq<WireUpdate> := [];
    for i := 0 to numUpdates
      invariant ParseUpdates(data, start, i) == Ok((seen, offset))
      invariant updatesByFeedId == FeedMap(seen)
    {
      ParseNext(data, start, i, seen, offset);
      var read := ReadUpdate(data, offset);
      if read.Err? {
        ErrorStays(data, start, i + 1, numUpdates);
        return Err(read.error);
      }
      var u := read.value.0;
      FeedMapSnoc(seen, u);
      offset := read.value.1;
      if IsPrice(u) {
        updatesByFeedId := updatesByFeedId[FeedId(u) := u];
      }
      seen := seen + [u];
    }
    return Ok(updatesByFeedId);
  }

  lemma {:induction false} ErrorStays(data: seq<byte>, offset: nat, m: nat, n: nat)
    requires m <= n && ParseUpdates(data, offset, m).Err?
    ensures ParseUpdates(data, offset, n) == ParseUpdates(data, offset, m)
    decreases n
  {
    hide ParseUpdate;
    if m < n { ErrorStays(data, offset, m, n - 1); }
  }

  method ReadUpdate(data: seq<byte>, start: nat) returns (result: Result<(WireUpdate, nat)>)
    ensures result == ParseUpdate(data, start)
  {
    hide ValueBE, Slice;
    var offset := start;
    var messageLength :- GetUint(data, offset, 2);
    offset := offset + 2;
    var message := Slice(data, offset, offset + messageLength);
    offset := offset + messageLength;
    var proofCount :- GetUint(data, offset, 1);
    offset := offset + 1;
    ghost var first := offset;
    var proof: seq<seq<byte>> := [];
    for j := 0 to proofCount
      invariant offset == first + 20 * j
      invariant proof == Nodes(data, first, j)
    {
      proof := proof + [Slice(data, offset, offset + 20)];
      offset := offset + 20;
    }
    return Ok((WireUpdate(message, proof), offset));
  }
}
