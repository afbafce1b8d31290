/**
 * Big data cells ("db"): the header, whose metadata is the segment count,
 * and the offset of the segment list.
 */
module BigDatas {
  import opened Results
  import opened Binary
  import opened HCells

  /** A big data cell; the segment list it points to is not followed. */
  datatype BigData = BigData(header: HCellData, dataOffset: int32)

  /** Where the padding starts: after the header and the list offset. */
  const BigDataEnd: nat := HCellDataSize + 4

  /** BigData.unmarshal. The header is decoded from the whole buffer (so a
      short buffer is an ordinary error here), the cell size is checked, the
      offset is read and the rest up to the size is padding. */
  function Unmarshal(data: seq<byte>): (r: Result<BigData>)
    ensures |data| < HCellDataSize ==> r == Err(TooShort(|data|, HCellDataSize))
    ensures |data| >= HCellDataSize && |data| < Size(HeaderOf(data))
            ==> r == Err(TooShort(|data|, Size(HeaderOf(data))))
    ensures |data| >= HCellDataSize && Size(HeaderOf(data)) <= |data| < BigDataEnd ==> r == Err(EndOfData)
    ensures r.Ok? <==> |data| >= BigDataEnd && BigDataEnd <= Size(HeaderOf(data)) <= |data|
    ensures r.Ok? ==> r.value.header.(padding := []) == HeaderOf(data)
    ensures r.Ok? ==> r.value.dataOffset == Int32At(data, HCellDataSize)
    ensures r.Ok? ==> BigDataEnd + |r.value.header.padding| == Size(r.value.header)
  {
    var h :- UnmarshalHeader(data);
    UnmarshalHeaderPrefix(data);
    if |data| < Size(h) then Err(TooShort(|data|, Size(h)))
    else if |data| < BigDataEnd then Err(EndOfData)
    else if Size(h) < BigDataEnd then Err(RuntimePanic)
    else Ok(BigData(h.(padding := data[BigDataEnd..Size(h)]), Int32At(data, HCellDataSize)))
  }

  /** BigData.marshal: header ++ list offset ++ padding. */
  function Marshal(bd: BigData): (out: seq<byte>)
    requires ValidHeader(bd.header)
    ensures |out| == BigDataEnd + |bd.header.padding|
  {
    MarshalHeader(bd.header) + EncodeValue(I32(bd.dataOffset)) + bd.header.padding
  }

  /** The encoding starts with the cell header. */
  lemma HeaderFirst(bd: BigData)
    requires ValidHeader(bd.header)
    ensures MarshalHeader(bd.header) <= Marshal(bd)
  {
  }

  /** Re-encoding a decoded big data cell gives back the bytes up to its size. */
  lemma MarshalUnmarshal(data: seq<byte>)
    requires Unmarshal(data).Ok?
    ensures Marshal(Unmarshal(data).value) == data[..Size(Unmarshal(data).value.header)]
  {
    var bd := Unmarshal(data).value;
    var n := Size(bd.header);
    MarshalUnmarshalHeader(data);
    UnmarshalHeaderPrefix(data);
    EncodeDecodeValue(data[HCellDataSize..BigDataEnd], Signed(4));
    assert EncodeValue(I32(bd.dataOffset)) == data[HCellDataSize..][..4];
    Tiles(data, HCellDataSize, BigDataEnd, n);
  }

  /** A well-formed big data cell: the size in its header covers exactly its bytes. */
  predicate Valid(bd: BigData) {
    && ValidHeader(bd.header)
    && bd.header.parentHBinOffset == 0
    && Size(bd.header) == BigDataEnd + |bd.header.padding|
  }

  /** A well-formed big data cell decodes from its own encoding, whatever follows. */
  lemma UnmarshalMarshal(bd: BigData, tail: seq<byte>)
    requires Valid(bd)
    ensures Unmarshal(Marshal(bd) + tail) == Ok(bd)
  {
    var hb, ob := MarshalHeader(bd.header), EncodeValue(I32(bd.dataOffset));
    var data := Marshal(bd) + tail;
    Parts(hb, ob, [], bd.header.padding, tail);
    AppendEmpty(hb + ob);
    assert data == hb + ob + [] + bd.header.padding + tail;
    UnmarshalMarshalHeader(bd.header, []);
    AppendEmpty(hb);
    UnmarshalHeaderPrefix(data);
    DecodeEncodeValue(I32(bd.dataOffset));
    assert data[HCellDataSize..BigDataEnd] == ob;
  }

  /** The two-segment record: offset 9 and four bytes of padding. */
  lemma TwoSegmentVector()
    ensures var r := Unmarshal(TwoSegments());
      && r.Ok?
      && r.value.dataOffset == 9
      && r.value.header.metadata == 2
      && r.value.header.padding == [0, 0, 0, 0]
  {
    var data := TwoSegments();
    TwoSegmentHeader();
    assert data[8..12] == [0x09, 0, 0, 0];
    LeUintOfFour(data[8..12]);
    assert data[BigDataEnd..16] == [0, 0, 0, 0];
  }

  lemma TwoSegmentHeader()
    ensures Size(HeaderOf(TwoSegments())) == 16 && HeaderOf(TwoSegments()).metadata == 2
  {
    var d := TwoSegments()[..HCellDataSize];
    assert d == [0x10, 0, 0, 0, 0x64, 0x62, 0x02, 0x00];
    UnmarshalHeaderFields(d);
    assert d[..4] == [0x10, 0, 0, 0] && d[6..8] == [0x02, 0];
    LeUintOfFour(d[..4]);
    assert LeUint(d[6..8]) == 2 by {
      assert d[6..8][1..][1..] == [];
    }
  }

  /** A 16-byte big data cell with two segments listed at offset 9. */
  function TwoSegments(): (data: seq<byte>)
    ensures |data| == 16
  {
    [0x10, 0, 0, 0, 0x64, 0x62, 0x02, 0x00, 0x09, 0, 0, 0, 0, 0, 0, 0]
  }
}
