/**
 * The base block: the fixed 4096-byte header at the start of every regf
 * hive file.
 */
module BaseBlocks {
  import opened Results
  import opened Binary

  const BaseBlockSize: nat := 4096

  /** Offset of the HBinSize field (the length of the bin area). */
  const HBinSizeOffset: nat := 40

  datatype BaseBlock = BaseBlock(
    regfHeader: uint32,
    sequence1: uint32,
    sequence2: uint32,
    lastWTimestamp: uint64,
    major: uint32,
    minor: uint32,
    fileType: uint32,
    fileFormat: uint32,
    rootCellOffset: uint32,
    hBinSize: uint32,
    clusteringFactor: uint32,
    fileName: seq<byte>,
    rmId: seq<byte>,
    logId: seq<byte>,
    flags: uint32,
    tmId: seq<byte>,
    guidSignature: uint32,
    lastRTimestamp: uint64,
    reserved1: seq<byte>,
    checksum: uint32,
    reserved2: seq<byte>,
    thawTmId: seq<byte>,
    thawRmId: seq<byte>,
    thawLogId: seq<byte>,
    bootType: uint32,
    bootRecover: uint32)

  /** The byte arrays have the lengths of the Go array fields. */
  predicate Valid(b: BaseBlock) {
    && |b.fileName| == 64
    && |b.rmId| == 16
    && |b.logId| == 16
    && |b.tmId| == 16
    && |b.reserved1| == 332
    && |b.reserved2| == 3528
    && |b.thawTmId| == 16
    && |b.thawRmId| == 16
    && |b.thawLogId| == 16
  }

  /** The all-zero base block of a fresh Registry. */
  const Zero: BaseBlock := BaseBlock(
    0, 0, 0, 0, 0, 0, 0, 0, 0, 0, 0,
    seq(64, _ => 0), seq(16, _ => 0), seq(16, _ => 0), 0, seq(16, _ => 0), 0, 0,
    seq(332, _ => 0), 0, seq(3528, _ => 0), seq(16, _ => 0), seq(16, _ => 0), seq(16, _ => 0), 0, 0)

  /** The struct layout, in three consecutive parts: fields up to and
      including HBinSize, fields up to LastRTimestamp, and the rest. */
  const HeadShape: seq<Kind> := [
    Unsigned(4), Unsigned(4), Unsigned(4), Unsigned(8), Unsigned(4),
    Unsigned(4), Unsigned(4), Unsigned(4), Unsigned(4), Unsigned(4)]
  const MidShape: seq<Kind> := [
    Unsigned(4), Octets(64), Octets(16), Octets(16), Unsigned(4), Octets(16), Unsigned(4), Unsigned(8)]
  const TailShape: seq<Kind> := [
    Octets(332), Unsigned(4), Octets(3528), Octets(16), Octets(16), Octets(16), Unsigned(4), Unsigned(4)]

  const HeadSize: nat := 44
  const MidSize: nat := 132
  const TailSize: nat := 3920

  /** The three parts are 44, 132 and 3920 bytes, 4096 in all, and HBinSize
      is the four bytes at offset 40. */
  lemma ShapeWidths()
    ensures TotalWidth(HeadShape) == HeadSize
    ensures TotalWidth(MidShape) == MidSize
    ensures TotalWidth(TailShape) == TailSize
    ensures HeadSize + MidSize + TailSize == BaseBlockSize
    ensures TotalWidth(HeadShape[..9]) == HBinSizeOffset && HeadShape[9] == Unsigned(4)
  {
    assert HeadShape == HeadShape[..9] + [Unsigned(4)];
    TotalWidthConcat(HeadShape[..9], [Unsigned(4)]);
  }

  function HeadValues(b: BaseBlock): (vs: seq<Value>)
    ensures Conforms(vs, HeadShape)
  {
    [U32(b.regfHeader), U32(b.sequence1), U32(b.sequence2), U64(b.lastWTimestamp), U32(b.major),
     U32(b.minor), U32(b.fileType), U32(b.fileFormat), U32(b.rootCellOffset), U32(b.hBinSize)]
  }

  function MidValues(b: BaseBlock): (vs: seq<Value>)
    requires Valid(b)
    ensures Conforms(vs, MidShape)
  {
    [U32(b.clusteringFactor), Bytes(b.fileName), Bytes(b.rmId), Bytes(b.logId), U32(b.flags),
     Bytes(b.tmId), U32(b.guidSignature), U64(b.lastRTimestamp)]
  }

  function TailValues(b: BaseBlock): (vs: seq<Value>)
    requires Valid(b)
    ensures Conforms(vs, TailShape)
  {
    [Bytes(b.reserved1), U32(b.checksum), Bytes(b.reserved2), Bytes(b.thawTmId), Bytes(b.thawRmId),
     Bytes(b.thawLogId), U32(b.bootType), U32(b.bootRecover)]
  }

  function FromValues(h: seq<Value>, m: seq<Value>, t: seq<Value>): (b: BaseBlock)
    requires Conforms(h, HeadShape) && Conforms(m, MidShape) && Conforms(t, TailShape)
    ensures Valid(b)
  {
    BaseBlock(
      AsU32(h[0]), AsU32(h[1]), AsU32(h[2]), AsU64(h[3]), AsU32(h[4]),
      AsU32(h[5]), AsU32(h[6]), AsU32(h[7]), AsU32(h[8]), AsU32(h[9]),
      AsU32(m[0]), m[1].b, m[2].b, m[3].b, AsU32(m[4]), m[5].b, AsU32(m[6]), AsU64(m[7]),
      t[0].b, AsU32(t[1]), t[2].b, t[3].b, t[4].b, t[5].b, AsU32(t[6]), AsU32(t[7]))
  }

  /** A block built from the values of the three parts gives those values
      back. */
  lemma ValuesOfFields(h: seq<Value>, m: seq<Value>, t: seq<Value>)
    requires Conforms(h, HeadShape) && Conforms(m, MidShape) && Conforms(t, TailShape)
    ensures var b := FromValues(h, m, t);
      HeadValues(b) == h && MidValues(b) == m && TailValues(b) == t
  {
  }

  /** The three parts of a buffer of at least 4096 bytes, decoded. */
  function HeadOf(data: seq<byte>): (vs: seq<Value>)
    requires |data| >= BaseBlockSize
    ensures Conforms(vs, HeadShape)
  {
    ShapeWidths();
    assert TotalWidth(HeadShape) <= |data|;
    Read(data, HeadShape).value
  }

  function MidOf(data: seq<byte>): (vs: seq<Value>)
    requires |data| >= BaseBlockSize
    ensures Conforms(vs, MidShape)
  {
    ShapeWidths();
    assert TotalWidth(MidShape) <= |data[HeadSize..]|;
    Read(data[HeadSize..], MidShape).value
  }

  function TailOf(data: seq<byte>): (vs: seq<Value>)
    requires |data| >= BaseBlockSize
    ensures Conforms(vs, TailShape)
  {
    ShapeWidths();
    assert TotalWidth(TailShape) <= |data[HeadSize + MidSize..]|;
    Read(data[HeadSize + MidSize..], TailShape).value
  }

  /** BaseBlock.unmarshal: at least 4096 bytes are required, and the struct
      is read little-endian from their front. */
  function Unmarshal(data: seq<byte>): (r: Result<BaseBlock>)
    ensures r.Ok? <==> |data| >= BaseBlockSize
    ensures r.Err? ==> r.error == TooShort(|data|, BaseBlockSize)
    ensures r.Ok? ==> Valid(r.value)
  {
    if |data| < BaseBlockSize then Err(TooShort(|data|, BaseBlockSize))
    else Ok(FromValues(HeadOf(data), MidOf(data), TailOf(data)))
  }

  /** The decoded HBinSize and RegfHeader are the little-endian values of
      bytes 40..44 and 0..4. */
  lemma UnmarshalFields(data: seq<byte>)
    requires |data| >= BaseBlockSize
    ensures Unmarshal(data).value.hBinSize == LeUint(data[HBinSizeOffset..HBinSizeOffset + 4])
    ensures Unmarshal(data).value.regfHeader == LeUint(data[..4])
  {
    ShapeWidths();
    var h := HeadOf(data);
    ReadAt(data, HeadShape, 9);
    ReadAt(data, HeadShape, 0);
    assert HeadShape[..0] == [];
    assert h[9] == UInt(4, LeUint(data[HBinSizeOffset..HBinSizeOffset + 4]));
    assert h[0] == UInt(4, LeUint(data[0..4]));
    assert data[0..4] == data[..4];
  }

  /** BaseBlock.marshal: the fields written little-endian in order. */
  function Marshal(b: BaseBlock): (out: seq<byte>)
    requires Valid(b)
    ensures |out| == BaseBlockSize
  {
    ShapeWidths();
    WriteLength(HeadValues(b), HeadShape);
    WriteLength(MidValues(b), MidShape);
    WriteLength(TailValues(b), TailShape);
    Write(HeadValues(b)) + Write(MidValues(b)) + Write(TailValues(b))
  }

  /** Marshalling a decoded base block gives back the 4096 bytes it was read from. */
  lemma MarshalUnmarshal(data: seq<byte>)
    requires |data| >= BaseBlockSize
    ensures Marshal(Unmarshal(data).value) == data[..BaseBlockSize]
  {
    var b := Unmarshal(data).value;
    ValuesOfFields(HeadOf(data), MidOf(data), TailOf(data));
    assert HeadValues(b) == HeadOf(data) && MidValues(b) == MidOf(data) && TailValues(b) == TailOf(data);
    assert Marshal(b) == Write(HeadOf(data)) + Write(MidOf(data)) + Write(TailOf(data));
    PartsWritten(data);
    ThreeParts(data, HeadSize, MidSize, TailSize);
  }

  /** Each decoded part written back gives the bytes it was read from. */
  lemma PartsWritten(data: seq<byte>)
    requires |data| >= BaseBlockSize
    ensures Write(HeadOf(data)) == data[..HeadSize]
    ensures Write(MidOf(data)) == data[HeadSize..][..MidSize]
    ensures Write(TailOf(data)) == data[HeadSize + MidSize..][..TailSize]
  {
    ShapeWidths();
    WriteRead(data, HeadShape);
    WriteRead(data[HeadSize..], MidShape);
    WriteRead(data[HeadSize + MidSize..], TailShape);
  }

  /** The block decoded from the first 4096 bytes of a buffer re-encodes to
      those bytes. */
  lemma MarshalUnmarshalHead(data: seq<byte>)
    requires |data| >= BaseBlockSize
    ensures Marshal(Unmarshal(data[..BaseBlockSize]).value) == data[..BaseBlockSize]
  {
    var head := data[..BaseBlockSize];
    MarshalUnmarshal(head);
    WholePrefix(head);
  }

  /** Decoding a marshalled base block gives it back, whatever bytes follow it. */
  lemma UnmarshalMarshal(b: BaseBlock, tail: seq<byte>)
    requires Valid(b)
    ensures Unmarshal(Marshal(b) + tail) == Ok(b)
  {
    var data := Marshal(b) + tail;
    PartsOfMarshal(b, tail);
    var r := Unmarshal(data).value;
    ValuesDetermine(r, b);
  }

  /** The three parts read back from a marshalled base block are its values. */
  lemma PartsOfMarshal(b: BaseBlock, tail: seq<byte>)
    requires Valid(b)
    ensures |Marshal(b) + tail| >= BaseBlockSize
    ensures HeadOf(Marshal(b) + tail) == HeadValues(b)
    ensures MidOf(Marshal(b) + tail) == MidValues(b)
    ensures TailOf(Marshal(b) + tail) == TailValues(b)
  {
    ShapeWidths();
    var h, m, t := HeadValues(b), MidValues(b), TailValues(b);
    WriteLength(h, HeadShape);
    WriteLength(m, MidShape);
    var data := Marshal(b) + tail;
    assert data == Write(h) + Write(m) + Write(t) + tail;
    ReadThree(Write(h), Write(m), Write(t), tail, h, HeadShape);
    ReadThree(Write(h), Write(m), Write(t), tail, m, MidShape);
    ReadThree(Write(h), Write(m), Write(t), tail, t, TailShape);
  }

  /** Reading any of three consecutive encodings from its offset. */
  lemma ReadThree(x: seq<byte>, y: seq<byte>, z: seq<byte>, tail: seq<byte>, vs: seq<Value>, shape: seq<Kind>)
    requires Conforms(vs, shape)
    ensures x == Write(vs) ==> Read(x + y + z + tail, shape) == Ok(vs)
    ensures y == Write(vs) ==> Read((x + y + z + tail)[|x|..], shape) == Ok(vs)
    ensures z == Write(vs) ==> Read((x + y + z + tail)[|x| + |y|..], shape) == Ok(vs)
  {
    ThreePartsOf(x, y, z, tail);
    ReadWrite(vs, shape, y + z + tail);
    ReadWrite(vs, shape, z + tail);
    ReadWrite(vs, shape, tail);
  }

  /** A valid base block is determined by its three value parts. */
  lemma ValuesDetermine(a: BaseBlock, b: BaseBlock)
    requires Valid(a) && Valid(b)
    requires HeadValues(a) == HeadValues(b) && MidValues(a) == MidValues(b) && TailValues(a) == TailValues(b)
    ensures a == b
  {
    var ha, hb := HeadValues(a), HeadValues(b);
    var ma, mb := MidValues(a), MidValues(b);
    var ta, tb := TailValues(a), TailValues(b);
    assert ha[0] == hb[0] && ha[1] == hb[1] && ha[2] == hb[2] && ha[3] == hb[3] && ha[4] == hb[4];
    assert ha[5] == hb[5] && ha[6] == hb[6] && ha[7] == hb[7] && ha[8] == hb[8] && ha[9] == hb[9];
    assert ma[0] == mb[0] && ma[1] == mb[1] && ma[2] == mb[2] && ma[3] == mb[3];
    assert ma[4] == mb[4] && ma[5] == mb[5] && ma[6] == mb[6] && ma[7] == mb[7];
    assert ta[0] == tb[0] && ta[1] == tb[1] && ta[2] == tb[2] && ta[3] == tb[3];
    assert ta[4] == tb[4] && ta[5] == tb[5] && ta[6] == tb[6] && ta[7] == tb[7];
  }

  lemma ThreeParts(data: seq<byte>, a: nat, b: nat, c: nat)
    requires a + b + c <= |data|
    ensures data[..a] + data[a..][..b] + data[a + b..][..c] == data[..a + b + c]
  {
  }

  lemma ThreePartsOf<T>(x: seq<T>, y: seq<T>, z: seq<T>, tail: seq<T>)
    ensures x + y + z + tail == x + (y + z + tail)
    ensures (x + y + z + tail)[|x|..] == y + z + tail == y + (z + tail)
    ensures (x + y + z + tail)[|x| + |y|..] == z + tail
  {
  }

  /** BaseBlock.Signature: the RegfHeader field rendered most significant
      byte first (uint32toba). */
  function Signature(b: BaseBlock): (s: seq<byte>)
    ensures |s| == 4
  {
    Uint32ToBytes(b.regfHeader)
  }

  /** The signature of a decoded base block is its first four bytes reversed,
      since the field is read little-endian and rendered big-endian. */
  lemma SignatureOfDecoded(data: seq<byte>)
    requires |data| >= BaseBlockSize
    ensures Signature(Unmarshal(data).value) == [data[3], data[2], data[1], data[0]]
  {
    Uint32ToBytesReversesWire(data[..4]);
  }

  /** A hive starting with "regf" reports the signature "fger". */
  lemma SignatureOfRegf(data: seq<byte>)
    requires |data| >= BaseBlockSize
    requires data[..4] == [0x72, 0x65, 0x67, 0x66]
    ensures Signature(Unmarshal(data).value) == [0x66, 0x67, 0x65, 0x72]
  {
    SignatureOfDecoded(data);
    assert data[0] == data[..4][0] && data[1] == data[..4][1];
    assert data[2] == data[..4][2] && data[3] == data[..4][3];
  }
}
