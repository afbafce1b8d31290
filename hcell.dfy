/**
 * The header every cell of a bin starts with, the payload size check shared
 * by the cell decoders, and the raw data record used for any cell whose tag
 * is not one of the known ones.
 */
module HCells {
  import opened Results
  import opened Binary

  const HCellSizeLength: nat := 4
  const HCellDataSize: nat := 8
  const NamedElementSize: nat := 8
  const KeyValueDataSize: nat := 16
  const KeySecurityDataSize: nat := 16
  const KeyNodeDataSize: nat := 72

  /** The common cell header. blockSize is negative for an allocated cell and
      positive for a free one; metadata is an element count, a name length,
      flags or reserved, depending on the cell type. parentHBinOffset is the
      cell's byte offset from the start of its bin and padding is whatever
      the cell holds after its payload. */
  datatype HCellData = HCellData(
    blockSize: int32,
    signature: seq<byte>,
    metadata: uint16,
    parentHBinOffset: int32,
    padding: seq<byte>)

  /** The tag is the two bytes of a Go [2]byte. */
  predicate ValidHeader(h: HCellData) {
    |h.signature| == 2
  }

  /** The eight header bytes: size, tag, metadata. */
  const HeaderShape: seq<Kind> := [Signed(4), Octets(2), Unsigned(2)]

  lemma HeaderWidth()
    ensures TotalWidth(HeaderShape) == HCellDataSize
  {
  }

  function HeaderValues(h: HCellData): (vs: seq<Value>)
    requires ValidHeader(h)
    ensures Conforms(vs, HeaderShape)
  {
    [I32(h.blockSize), Bytes(h.signature), U16(h.metadata)]
  }

  /** HCellData.unmarshal: eight bytes are required; the back-reference and
      padding are not part of the wire header and start out empty. */
  function UnmarshalHeader(data: seq<byte>): (r: Result<HCellData>)
    ensures r.Ok? <==> |data| >= HCellDataSize
    ensures r.Err? ==> r.error == TooShort(|data|, HCellDataSize)
    ensures r.Ok? ==> ValidHeader(r.value) && r.value.parentHBinOffset == 0 && r.value.padding == []
  {
    if |data| < HCellDataSize then Err(TooShort(|data|, HCellDataSize))
    else
      HeaderWidth();
      var vs := Read(data, HeaderShape).value;
      Ok(HCellData(AsI32(vs[0]), vs[1].b, AsU16(vs[2]), 0, []))
  }

  /** HCellData.marshal: size, tag and metadata, little-endian. */
  function MarshalHeader(h: HCellData): (out: seq<byte>)
    requires ValidHeader(h)
    ensures |out| == HCellDataSize
  {
    HeaderWidth();
    WriteLength(HeaderValues(h), HeaderShape);
    Write(HeaderValues(h))
  }

  /** The decoded header fields are the int32 at 0, the tag bytes 4..6 and
      the uint16 at 6. */
  lemma UnmarshalHeaderFields(data: seq<byte>)
    requires |data| >= HCellDataSize
    ensures UnmarshalHeader(data).value.blockSize == ToSigned(LeUint(data[..4]), 4)
    ensures UnmarshalHeader(data).value.signature == data[4..6]
    ensures UnmarshalHeader(data).value.metadata == LeUint(data[6..8])
  {
    HeaderWidth();
    assert HeaderShape[..0] == [] && HeaderShape[..1] == [Signed(4)] && HeaderShape[..2] == [Signed(4), Octets(2)];
    ReadAt(data, HeaderShape, 0);
    ReadAt(data, HeaderShape, 1);
    ReadAt(data, HeaderShape, 2);
    assert data[0..4] == data[..4];
  }

  /** Header marshal after unmarshal reproduces the first eight bytes. */
  lemma MarshalUnmarshalHeader(data: seq<byte>)
    requires |data| >= HCellDataSize
    ensures MarshalHeader(UnmarshalHeader(data).value) == data[..HCellDataSize]
  {
    HeaderWidth();
    var h := UnmarshalHeader(data).value;
    var vs := Read(data, HeaderShape).value;
    assert HeaderValues(h) == vs;
    WriteRead(data, HeaderShape);
  }

  /** Header unmarshal after marshal gives the header back, with the fields
      that are not on the wire reset. */
  lemma UnmarshalMarshalHeader(h: HCellData, tail: seq<byte>)
    requires ValidHeader(h)
    ensures UnmarshalHeader(MarshalHeader(h) + tail) == Ok(h.(parentHBinOffset := 0, padding := []))
  {
    HeaderWidth();
    ReadWrite(HeaderValues(h), HeaderShape, tail);
  }

  /** Bytes that begin with an encoded header carry its signature at bytes
      4..6. */
  lemma HeaderTag(h: HCellData, d: seq<byte>)
    requires ValidHeader(h) && MarshalHeader(h) <= d
    ensures |d| >= HCellDataSize && d[4..6] == h.signature
  {
    var e := MarshalHeader(h);
    UnmarshalMarshalHeader(h, []);
    AppendEmpty(e);
    UnmarshalHeaderFields(e);
    assert d[4..6] == e[4..6];
  }

  /** HCellData.Size: the absolute value of blockSize, computed in int32,
      so that the most negative size stays negative. */
  function Size(h: HCellData): (s: int32)
    ensures h.blockSize != Int32Min ==> s >= 0 && (s == h.blockSize || s == -h.blockSize)
    ensures h.blockSize == Int32Min ==> s == Int32Min
  {
    if h.blockSize < 0 then WrapInt32(-(h.blockSize as int)) else h.blockSize
  }

  /** An allocated cell and a free cell of the same magnitude have the same size. */
  lemma SizeIgnoresAllocation(h: HCellData)
    requires h.blockSize != Int32Min
    ensures Size(h) == Size(h.(blockSize := -h.blockSize))
  {
  }

  /** A header decoded without its padding has the size of the original,
      and giving it the padding back restores the original. */
  lemma Repadded(h: HCellData, g: HCellData)
    requires g == h.(padding := [])
    ensures Size(g) == Size(h) && g.(padding := h.padding) == h
  {
  }

  /** HCellData.assertPayloadDataSize: fails exactly when the buffer is
      shorter than the cell, reporting both lengths. */
  function AssertPayloadDataSize(h: HCellData, data: seq<byte>): (o: Outcome)
    ensures o.Fail? <==> |data| < Size(h)
    ensures o.Fail? ==> o.error == TooShort(|data|, Size(h))
  {
    if |data| < Size(h) then Fail(TooShort(|data|, Size(h))) else Pass
  }

  /** HCellData.setOffset: records the cell's offset in its bin and changes
      nothing else. */
  function SetOffset(h: HCellData, offset: int32): (r: HCellData)
    ensures r.parentHBinOffset == offset
    ensures r.(parentHBinOffset := h.parentHBinOffset) == h
  {
    h.(parentHBinOffset := offset)
  }

  /** The header of a cell buffer, decoded from its first eight bytes. */
  function HeaderOf(data: seq<byte>): (h: HCellData)
    requires |data| >= HCellDataSize
    ensures ValidHeader(h) && h.padding == [] && h.parentHBinOffset == 0
  {
    UnmarshalHeader(data[..HCellDataSize]).value
  }

  /** Decoding the header from the whole buffer or from its first eight
      bytes gives the same header. */
  lemma UnmarshalHeaderPrefix(data: seq<byte>)
    requires |data| >= HCellDataSize
    ensures UnmarshalHeader(data) == Ok(HeaderOf(data))
  {
    var p := data[..HCellDataSize];
    UnmarshalHeaderFields(data);
    UnmarshalHeaderFields(p);
    assert p[..4] == data[..4] && p[4..6] == data[4..6] && p[6..8] == data[6..8];
  }

  /** The decoded size is the little-endian int32 the buffer starts with. */
  lemma HeaderOfBlockSize(data: seq<byte>)
    ensures |data| >= HCellDataSize ==> HeaderOf(data).blockSize == Int32At(data, 0)
  {
    if |data| >= HCellDataSize {
      var p := data[..HCellDataSize];
      UnmarshalHeaderFields(p);
      assert p[..4] == data[0..4];
    }
  }

  /** A buffer's header is the header of its first eight bytes. */
  lemma HeaderOfPrefix(data: seq<byte>, d: seq<byte>)
    requires |d| == HCellDataSize && |data| >= HCellDataSize && data[..HCellDataSize] == d
    ensures HeaderOf(data) == HeaderOf(d)
  {
    assert d[..HCellDataSize] == d;
  }

  /** A header spelled out byte by byte, with a size below 2^31: decoding
      gives it and encoding gives back the bytes. */
  lemma HeaderBytes(d: seq<byte>, h: HCellData)
    requires |d| == HCellDataSize && d[3] < 0x80 && ValidHeader(h)
    requires h.blockSize == d[0] + 0x100 * d[1] as int + 0x1_0000 * d[2] as int + 0x100_0000 * d[3] as int
    requires h.signature == d[4..6] && h.metadata == d[6] + 0x100 * d[7] as int
    ensures HeaderOf(d) == h.(parentHBinOffset := 0, padding := [])
    ensures MarshalHeader(h) == d
  {
    assert d[..HCellDataSize] == d;
    UnmarshalHeaderFields(d);
    LeUintOfFour(d[..4]);
    assert LeUint(d[6..8]) == d[6] + 0x100 * d[7] as int by {
      assert d[6..8][1..][1..] == [];
    }
    Pow256Values();
    MarshalUnmarshalHeader(d);
    assert HeaderValues(h) == HeaderValues(h.(parentHBinOffset := 0, padding := []));
  }

  /** A variable-length field and the padding after it. */
  datatype Tail = Tail(field: seq<byte>, padding: seq<byte>)

  /** The two slices data[start:end] and data[end:size] a typed cell ends
      with: a declared end past the buffer is an out-of-bounds error naming
      the declared length; an end before start or after the cell size makes
      the source's slice expression panic. */
  function FieldAndPadding(data: seq<byte>, start: nat, end: int, declared: int, size: int): (r: Result<Tail>)
    requires start <= |data| && size <= |data|
    ensures end > |data| ==> r == Err(OutOfBounds(declared, |data|))
    ensures r.Ok? <==> start <= end <= size
    ensures r.Err? && end <= |data| ==> r == Err(RuntimePanic)
    ensures r.Ok? ==> start + |r.value.field| == end && end + |r.value.padding| == size
    ensures r.Ok? ==> r.value.field == data[start..end] && r.value.padding == data[end..size]
    ensures r.Ok? ==> r.value.field + r.value.padding == data[start..size]
  {
    if end > |data| then Err(OutOfBounds(declared, |data|))
    else if end < start || size < end then Err(RuntimePanic)
    else Ok(Tail(data[start..end], data[end..size]))
  }

  /** The header of a decoded cell re-encodes to the cell's first bytes. */
  lemma DecodedHeaderBytes(data: seq<byte>, h: HCellData)
    requires |data| >= HCellDataSize && h.(padding := []) == HeaderOf(data)
    ensures MarshalHeader(h) == data[..HCellDataSize]
  {
    MarshalUnmarshalHeader(data[..HCellDataSize]);
  }

  /** A header, a fixed block, a field and a padding read from consecutive
      slices of a buffer join up to the buffer's prefix. */
  lemma Reassemble<T>(data: seq<T>, a: seq<T>, b: seq<T>, c: seq<T>, d: seq<T>, e: nat, n: nat)
    requires HCellDataSize <= e <= n <= |data|
    requires a == data[..HCellDataSize] && b == data[HCellDataSize..][..e - HCellDataSize] && c + d == data[e..n]
    ensures a + b + c + d == data[..n]
  {
    Tiles(data, HCellDataSize, e, n);
    assert a + b + c + d == a + b + (c + d);
  }

  /** Positions of the parts of a header ++ fixed block ++ field ++ padding
      concatenation, with anything after it. */
  lemma Parts<T>(a: seq<T>, b: seq<T>, c: seq<T>, d: seq<T>, tail: seq<T>)
    ensures var s := a + b + c + d + tail;
      && |s| == |a| + |b| + |c| + |d| + |tail|
      && s[..|a|] == a
      && s[|a|..] == b + (c + d + tail)
      && s[|a| + |b|..|a| + |b| + |c|] == c
      && s[|a| + |b| + |c|..|a| + |b| + |c| + |d|] == d
      && a + b + c + d == a + b + (c + d)
  {
    var s := a + b + c + d + tail;
    assert s == a + (b + (c + d + tail));
  }

  /** Re-assembling a cell buffer from its cut points. */
  lemma Tiles<T>(s: seq<T>, a: nat, b: nat, c: nat)
    requires a <= b <= c <= |s|
    ensures s[..a] + s[a..][..b - a] + s[b..c] == s[..c]
  {
  }

  /** A cell of unknown type: its size and its raw payload. */
  datatype DataRecord = DataRecord(header: HCellData, data: seq<byte>)

  /** The header DataRecord.unmarshal leaves behind: only the size is set. */
  function SizeOnlyHeader(blockSize: int32): (h: HCellData)
    ensures ValidHeader(h) && h.blockSize == blockSize
  {
    HCellData(blockSize, [0, 0], 0, 0, [])
  }

  /** DataRecord.unmarshal: reads the size, checks it against the buffer and
      keeps bytes 4 up to the size as the payload; tag and metadata stay zero. */
  function UnmarshalDataRecord(data: seq<byte>): (r: Result<DataRecord>)
    ensures |data| < HCellSizeLength ==> r == Err(EndOfData)
    ensures r.Ok? <==>
      && |data| >= HCellSizeLength
      && HCellSizeLength <= Size(SizeOnlyHeader(Int32At(data, 0))) <= |data|
    ensures r.Ok? ==> r.value.header == SizeOnlyHeader(Int32At(data, 0))
    ensures r.Ok? ==> HCellSizeLength + |r.value.data| == Size(r.value.header)
  {
    if |data| < HCellSizeLength then Err(EndOfData)
    else
      var h := SizeOnlyHeader(Int32At(data, 0));
      if |data| < Size(h) then Err(TooShort(|data|, Size(h)))
      else if Size(h) < HCellSizeLength then Err(RuntimePanic)
      else Ok(DataRecord(h, data[HCellSizeLength..Size(h)]))
  }

  /** DataRecord.marshal: the size followed by the payload. */
  function MarshalDataRecord(dr: DataRecord): (out: seq<byte>)
    ensures |out| == HCellSizeLength + |dr.data|
  {
    EncodeValue(I32(dr.header.blockSize)) + dr.data
  }

  /** Re-encoding a decoded data record gives back the bytes up to its size. */
  lemma MarshalUnmarshalDataRecord(data: seq<byte>)
    requires UnmarshalDataRecord(data).Ok?
    ensures MarshalDataRecord(UnmarshalDataRecord(data).value) == data[..Size(UnmarshalDataRecord(data).value.header)]
  {
    var dr := UnmarshalDataRecord(data).value;
    var n := Size(dr.header);
    Pow256Values();
    EncodeDecodeValue(data[0..4], Signed(4));
    assert EncodeValue(I32(dr.header.blockSize)) == data[..4];
    assert data[..4] + data[4..n] == data[..n];
  }

  /** A data record whose size matches its payload decodes from its own
      encoding, whatever follows. */
  lemma UnmarshalMarshalDataRecord(dr: DataRecord, tail: seq<byte>)
    requires dr.header == SizeOnlyHeader(dr.header.blockSize)
    requires Size(dr.header) == HCellSizeLength + |dr.data|
    ensures UnmarshalDataRecord(MarshalDataRecord(dr) + tail) == Ok(dr)
  {
    var enc := EncodeValue(I32(dr.header.blockSize));
    var data := MarshalDataRecord(dr) + tail;
    assert data == enc + (dr.data + tail);
    ConcatParts(enc, dr.data + tail);
    DecodeEncodeValue(I32(dr.header.blockSize));
    assert data[0..4] == enc;
    assert data[HCellSizeLength..Size(dr.header)] == dr.data;
  }

  /** In a buffer exactly as long as the record's size, as the bin loop
      hands every cell, the payload is everything after the size field. */
  lemma DataRecordWholeCell(data: seq<byte>)
    requires |data| >= HCellSizeLength && Size(SizeOnlyHeader(Int32At(data, 0))) == |data|
    ensures UnmarshalDataRecord(data) == Ok(DataRecord(SizeOnlyHeader(Int32At(data, 0)), data[HCellSizeLength..]))
  {
    var n := Size(SizeOnlyHeader(Int32At(data, 0)));
    assert data[HCellSizeLength..n] == data[HCellSizeLength..];
  }

  /** The size field bounds the payload: a 16-byte record in a 20-byte buffer
      keeps 12 payload bytes, not the 16 that follow the size field. */
  lemma DataRecordStopsAtSize()
    ensures var data := [0x10, 0, 0, 0] + seq(16, _ => 0x41);
      UnmarshalDataRecord(data) == Ok(DataRecord(SizeOnlyHeader(16), seq(12, _ => 0x41)))
  {
    var data: seq<byte> := [0x10, 0, 0, 0] + seq(16, _ => 0x41);
    assert data[0..4] == [0x10, 0, 0, 0];
    LeUintOfFour(data[0..4]);
    assert data[4..16] == seq(12, _ => 0x41);
  }
}
