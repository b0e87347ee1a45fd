// The data of one upload instruction: a fixed layout that is filled with a cursor.

module UploadInstruction {
  import opened ModArith
  import opened PrimeField
  import opened LittleEndian
  import opened ByteBuffers
  import opened Pieces
  import opened UploadPlan
  import opened UploadRuns

  const DISCRIMINATOR_LENGTH := 8
  const ADDRESS_LENGTH := 32

  // Fields in the order in which they are laid out.
  datatype Upload = Upload(discriminator: seq<byte>, compDefOffset: int, mxeProgram: seq<byte>, rawCircuitIndex: int,
                           data: seq<byte>, offset: int)

  // Every field sits in its range, and the data has its full length.
  predicate InRange(u: Upload, max: nat) {
    && |u.discriminator| == DISCRIMINATOR_LENGTH && |u.mxeProgram| == ADDRESS_LENGTH && |u.data| == max
    && 0 <= u.compDefOffset < 0x1_0000_0000 && 0 <= u.rawCircuitIndex < 256 && 0 <= u.offset < 0x1_0000_0000
  }

  function Layout(u: Upload): seq<byte> {
    u.discriminator + Bytes(u.compDefOffset, 4) + u.mxeProgram + [u.rawCircuitIndex % 256] + u.data + Bytes(u.offset, 4)
  }

  // What a buffer write does to the fields: numbers are reduced to their width, data is filled up with zeros.
  function Written(u: Upload, max: nat): Upload
    requires |u.data| <= max
  {
    u.(compDefOffset := u.compDefOffset % 0x1_0000_0000, rawCircuitIndex := u.rawCircuitIndex % 256,
       data := Pad(u.data, max), offset := u.offset % 0x1_0000_0000)
  }

  method BuildUploadInstruction(u: Upload, max: nat) returns (result: Option<seq<byte>>)
    requires |u.discriminator| == DISCRIMINATOR_LENGTH && |u.mxeProgram| == ADDRESS_LENGTH
    ensures result.None? <==> |u.data| > max
    ensures result.Some? ==> result.value == Layout(u.(data := Pad(u.data, max)))
  {
    hide Bytes, Pad;
    if |u.data| > max {
      return None;
    }
    var paddedData := Pad(u.data, max);
    var compOffsetBytes := Bytes(u.compDefOffset, 4);
    var indexBytes := [u.rawCircuitIndex % 256];
    var uploadOffsetBytes := Bytes(u.offset, 4);
    var total := |u.discriminator| + |compOffsetBytes| + |u.mxeProgram| + |indexBytes| + |paddedData| + |uploadOffsetBytes|;
    var instructionData := NewBuffer(total);
    var pos := 0;
    assert instructionData[..0] == [];
    SetAt(instructionData, u.discriminator, pos);
    pos := pos + |u.discriminator|;
    SetAt(instructionData, compOffsetBytes, pos);
    pos := pos + |compOffsetBytes|;
    SetAt(instructionData, u.mxeProgram, pos);
    pos := pos + |u.mxeProgram|;
    SetAt(instructionData, indexBytes, pos);
    pos := pos + |indexBytes|;
    SetAt(instructionData, paddedData, pos);
    pos := pos + |paddedData|;
    SetAt(instructionData, uploadOffsetBytes, pos);
    assert instructionData[..] == instructionData[..pos + 4];
    result := Some(instructionData[..]);
  }

  // Where every field lies.
  lemma FieldPositions(u: Upload)
    requires |u.discriminator| == 8 && |u.mxeProgram| == 32
    ensures var bytes, end := Layout(u), 45 + |u.data|;
            && |bytes| == end + 4
            && bytes[..8] == u.discriminator && bytes[8..12] == Bytes(u.compDefOffset, 4) && bytes[12..44] == u.mxeProgram
            && bytes[44] == u.rawCircuitIndex % 256 && bytes[45..end] == u.data && bytes[end..] == Bytes(u.offset, 4)
  {
    hide Bytes;
  }

  // A reader that knows the layout.
  function ReadUpload(bytes: seq<byte>, max: nat): Option<Upload> {
    if |bytes| != max + 49 then None
    else Some(Upload(bytes[..8], Value(bytes[8..12]), bytes[12..44], bytes[44], bytes[45..45 + max], Value(bytes[45 + max..])))
  }

  lemma FourBytes(v: int)
    ensures Value(Bytes(v, 4)) == v % 0x1_0000_0000
  {
    assert Pow256(4) == 0x1_0000_0000;
    ValueOfBytes(v, 4);
  }

  lemma FourBytesRange(bytes: seq<byte>)
    requires |bytes| == 4
    ensures Value(bytes) < 0x1_0000_0000 && Bytes(Value(bytes), 4) == bytes
  {
    assert Pow256(4) == 0x1_0000_0000;
    ValueRange(bytes);
    BytesOfValue(bytes);
  }

  // Reading the instruction data gives the fields back, as far as they fit.
  lemma ReadWritten(u: Upload, max: nat)
    requires |u.discriminator| == DISCRIMINATOR_LENGTH && |u.mxeProgram| == ADDRESS_LENGTH && |u.data| <= max
    ensures ReadUpload(Layout(u.(data := Pad(u.data, max))), max) == Some(Written(u, max))
  {
    hide Value, Bytes, Pad;
    var bytes := Layout(u.(data := Pad(u.data, max)));
    FourBytes(u.compDefOffset);
    FourBytes(u.offset);
    assert bytes[..8] == u.discriminator;
    assert bytes[8..12] == Bytes(u.compDefOffset, 4);
    assert bytes[12..44] == u.mxeProgram;
    assert bytes[45..45 + max] == Pad(u.data, max);
    assert bytes[45 + max..] == Bytes(u.offset, 4);
  }

  // Byte strings of the right length and uploads in range correspond one to one.
  lemma LayoutOfRead(bytes: seq<byte>, max: nat)
    requires |bytes| == max + 49
    ensures var u := ReadUpload(bytes, max).value;
            InRange(u, max) && Layout(u) == bytes
  {
    hide Value, Bytes;
    FourBytesRange(bytes[8..12]);
    FourBytesRange(bytes[45 + max..]);
  }

  // Every planned write of a part that fits an account reaches its reader unchanged: same offset, same padded data.
  lemma PlannedWriteArrives(part: seq<byte>, max: int, k: nat, discriminator: seq<byte>, compDefOffset: int,
                            mxeProgram: seq<byte>, index: int)
    requires max > 0 && |part| <= BYTES_PER_ACCOUNT && k < PieceCount(|part|, max)
    requires |discriminator| == DISCRIMINATOR_LENGTH && |mxeProgram| == ADDRESS_LENGTH
    ensures var w := WriteAt(part, max, k);
            var bytes := Layout(Upload(discriminator, compDefOffset, mxeProgram, index, Pad(Piece(part, max, k), max), w.offset));
            var read := ReadUpload(bytes, max);
            read.Some? && read.value.offset == w.offset && read.value.data == w.data
  {
    hide Value, Bytes, Layout;
    BelowCeil(|part|, max, k);
    MulNonneg(k, max);
    var u := Upload(discriminator, compDefOffset, mxeProgram, index, Piece(part, max, k), k * max);
    SmallMod(k * max, 0x1_0000_0000);
    ReadWritten(u, max);
  }
}
