/**
 * Key security cells ("sk"): the header, a 16-byte fixed block and the
 * security descriptor, whose length is the fixed block's SecDescriptorSize.
 */
module KeySecurities {
  import opened Results
  import opened Binary
  import opened HCells

  /** KeySecurityData: the links of the security list, a reference count and
      the descriptor length; the first three are carried, not checked. */
  datatype KeySecurityData = KeySecurityData(
    flink: int32,
    blink: int32,
    refCount: uint32,
    secDescriptorSize: uint32)

  datatype KeySecurity = KeySecurity(header: HCellData, fixed: KeySecurityData, secDescriptor: seq<byte>)

  const FixedShape: seq<Kind> := [Signed(4), Signed(4), Unsigned(4), Unsigned(4)]

  /** Where the descriptor starts: after the header and the fixed block. */
  const KeySecurityDataEnd: nat := HCellDataSize + KeySecurityDataSize

  lemma FixedWidth()
    ensures TotalWidth(FixedShape) == KeySecurityDataSize
  {
  }

  function FixedValues(f: KeySecurityData): (vs: seq<Value>)
    ensures Conforms(vs, FixedShape)
  {
    [I32(f.flink), I32(f.blink), U32(f.refCount), U32(f.secDescriptorSize)]
  }

  function FromValues(vs: seq<Value>): (f: KeySecurityData)
    requires Conforms(vs, FixedShape)
    ensures FixedValues(f) == vs
  {
    KeySecurityData(AsI32(vs[0]), AsI32(vs[1]), AsU32(vs[2]), AsU32(vs[3]))
  }

  lemma FromValuesOfFixed(f: KeySecurityData)
    ensures FromValues(FixedValues(f)) == f
  {
  }

  /** The fixed block of a buffer long enough to hold it. */
  function FixedOf(data: seq<byte>): (f: KeySecurityData)
    requires |data| >= KeySecurityDataEnd
    ensures Write(FixedValues(f)) == data[HCellDataSize..][..KeySecurityDataSize]
  {
    FixedWidth();
    WriteRead(data[HCellDataSize..], FixedShape);
    FromValues(Read(data[HCellDataSize..], FixedShape).value)
  }

  /** The end of the descriptor, computed in uint32 as the source does. */
  function DescriptorEnd(size: uint32): (e: nat)
    ensures e < 0x1_0000_0000
    ensures size < 0x1_0000_0000 - KeySecurityDataEnd ==> e == KeySecurityDataEnd + size
    ensures size >= 0x1_0000_0000 - KeySecurityDataEnd ==> e < KeySecurityDataEnd
  {
    (KeySecurityDataEnd + size) % 0x1_0000_0000
  }

  /** KeySecurity.unmarshal. The header is taken from data[:8], which panics
      on a shorter buffer; the cell size is checked, the fixed block read, and
      the descriptor and padding sliced. */
  function Unmarshal(data: seq<byte>): (r: Result<KeySecurity>)
    ensures |data| < HCellDataSize ==> r == Err(RuntimePanic)
    ensures |data| >= HCellDataSize && |data| < Size(HeaderOf(data))
            ==> r == Err(TooShort(|data|, Size(HeaderOf(data))))
    ensures |data| >= HCellDataSize && Size(HeaderOf(data)) <= |data| < KeySecurityDataEnd ==> r == Err(EndOfData)
    ensures |data| >= KeySecurityDataEnd && Size(HeaderOf(data)) <= |data|
            && DescriptorEnd(FixedOf(data).secDescriptorSize) > |data|
            ==> r == Err(OutOfBounds(FixedOf(data).secDescriptorSize, |data|))
    ensures r.Ok? ==> r.value.header.(padding := []) == HeaderOf(data)
    ensures r.Ok? ==> r.value.fixed == FixedOf(data)
    ensures r.Ok? ==> |r.value.secDescriptor| == r.value.fixed.secDescriptorSize
    ensures r.Ok? ==> KeySecurityDataEnd + |r.value.secDescriptor| + |r.value.header.padding| == Size(r.value.header) <= |data|
  {
    if |data| < HCellDataSize then Err(RuntimePanic)
    else
      var h := HeaderOf(data);
      if |data| < Size(h) then Err(TooShort(|data|, Size(h)))
      else if |data| < KeySecurityDataEnd then Err(EndOfData)
      else
        var f := FixedOf(data);
        var e := DescriptorEnd(f.secDescriptorSize);
        var t :- FieldAndPadding(data, KeySecurityDataEnd, e, f.secDescriptorSize, Size(h));
        Ok(KeySecurity(h.(padding := t.padding), f, t.field))
  }

  /** Decoding succeeds when the cell fits the buffer and the descriptor
      fits the cell: the descriptor follows the fixed block and the padding
      runs to the cell size. */
  lemma UnmarshalFits(data: seq<byte>)
    requires |data| >= KeySecurityDataEnd && Size(HeaderOf(data)) <= |data|
    requires KeySecurityDataEnd <= DescriptorEnd(FixedOf(data).secDescriptorSize) <= Size(HeaderOf(data))
    ensures var h, e := HeaderOf(data), DescriptorEnd(FixedOf(data).secDescriptorSize);
      Unmarshal(data) == Ok(KeySecurity(h.(padding := data[e..Size(h)]), FixedOf(data), data[KeySecurityDataEnd..e]))
  {
  }

  /** KeySecurity.marshal: header ++ fixed block ++ descriptor ++ padding. */
  function Marshal(ks: KeySecurity): (out: seq<byte>)
    requires ValidHeader(ks.header)
    ensures |out| == KeySecurityDataEnd + |ks.secDescriptor| + |ks.header.padding|
  {
    FixedWidth();
    WriteLength(FixedValues(ks.fixed), FixedShape);
    MarshalHeader(ks.header) + Write(FixedValues(ks.fixed)) + ks.secDescriptor + ks.header.padding
  }

  /** The encoding starts with the cell header. */
  lemma HeaderFirst(ks: KeySecurity)
    requires ValidHeader(ks.header)
    ensures MarshalHeader(ks.header) <= Marshal(ks)
  {
  }

  /** Re-encoding a decoded key security cell gives back the bytes up to its size. */
  lemma MarshalUnmarshal(data: seq<byte>)
    requires Unmarshal(data).Ok?
    ensures Marshal(Unmarshal(data).value) == data[..Size(Unmarshal(data).value.header)]
  {
    var ks := Unmarshal(data).value;
    DecodedHeaderBytes(data, ks.header);
    Reassemble(data, MarshalHeader(ks.header), Write(FixedValues(ks.fixed)), ks.secDescriptor, ks.header.padding,
               KeySecurityDataEnd, Size(ks.header));
  }

  /** A well-formed key security cell: the size in its header covers exactly
      its bytes and SecDescriptorSize is its descriptor's length. */
  predicate Valid(ks: KeySecurity) {
    && ValidHeader(ks.header)
    && ks.header.parentHBinOffset == 0
    && Size(ks.header) == KeySecurityDataEnd + |ks.secDescriptor| + |ks.header.padding|
    && ks.fixed.secDescriptorSize == |ks.secDescriptor|
  }

  /** A well-formed key security cell decodes from its own encoding,
      whatever follows. */
  lemma UnmarshalMarshal(ks: KeySecurity, tail: seq<byte>)
    requires Valid(ks)
    ensures Unmarshal(Marshal(ks) + tail) == Ok(ks)
  {
    FixedWidth();
    var hb, fb := MarshalHeader(ks.header), Write(FixedValues(ks.fixed));
    WriteLength(FixedValues(ks.fixed), FixedShape);
    var data := Marshal(ks) + tail;
    Parts(hb, fb, ks.secDescriptor, ks.header.padding, tail);
    assert data == hb + fb + ks.secDescriptor + ks.header.padding + tail;
    UnmarshalMarshalHeader(ks.header, []);
    AppendEmpty(hb);
    ReadWrite(FixedValues(ks.fixed), FixedShape, ks.secDescriptor + ks.header.padding + tail);
    assert FixedOf(data) == ks.fixed by {
      FromValuesOfFixed(ks.fixed);
    }
    Repadded(ks.header, HeaderOf(data));
  }

  /** SecDescriptorSize is the little-endian uint32 at bytes 20..24. */
  lemma SecDescriptorSizeField(data: seq<byte>)
    requires |data| >= KeySecurityDataEnd
    ensures FixedOf(data).secDescriptorSize == LeUint(data[20..24])
  {
    FixedWidth();
    assert FixedShape[..3] == [Signed(4), Signed(4), Unsigned(4)];
    ReadAt(data[HCellDataSize..], FixedShape, 3);
    SliceOfSuffix(data, HCellDataSize, 12, 16);
  }

  /** A 32-byte key security cell with the given descriptor size and last
      eight bytes. */
  function Cell32(descriptorSize: byte, rest: seq<byte>): (data: seq<byte>)
    requires |rest| == 8
    ensures |data| == 32
  {
    [0x20, 0, 0, 0, 0x73, 0x6b, 0, 0] + seq(12, _ => 0) + [descriptorSize, 0, 0, 0] + rest
  }

  lemma Cell32Header(descriptorSize: byte, rest: seq<byte>)
    requires |rest| == 8
    ensures Size(HeaderOf(Cell32(descriptorSize, rest))) == 32
    ensures FixedOf(Cell32(descriptorSize, rest)).secDescriptorSize == descriptorSize
  {
    var data := Cell32(descriptorSize, rest);
    var d := data[..HCellDataSize];
    assert d[..4] == [0x20, 0, 0, 0];
    UnmarshalHeaderFields(d);
    LeUintOfFour(d[..4]);
    SecDescriptorSizeField(data);
    assert data[20..24] == [descriptorSize, 0, 0, 0];
    LeUintOfFour(data[20..24]);
  }

  /** A 54-byte descriptor does not fit a 32-byte buffer. */
  lemma DescriptorPastBuffer()
    ensures Unmarshal(Cell32(0x36, seq(8, _ => 0xaa))) == Err(OutOfBounds(0x36, 32))
  {
    Cell32Header(0x36, seq(8, _ => 0xaa));
  }

  /** A 4-byte descriptor in a 32-byte cell leaves 4 bytes of padding. */
  lemma DescriptorThenPadding()
    ensures var r := Unmarshal(Cell32(4, [0xaa, 0xaa, 0xaa, 0xaa, 0xbb, 0xbb, 0xbb, 0xbb]));
      && r.Ok?
      && r.value.secDescriptor == [0xaa, 0xaa, 0xaa, 0xaa]
      && r.value.header.padding == [0xbb, 0xbb, 0xbb, 0xbb]
  {
    var descriptor, padding: seq<byte> := [0xaa, 0xaa, 0xaa, 0xaa], [0xbb, 0xbb, 0xbb, 0xbb];
    var rest := descriptor + padding;
    assert rest == [0xaa, 0xaa, 0xaa, 0xaa, 0xbb, 0xbb, 0xbb, 0xbb];
    var data := Cell32(4, rest);
    Cell32Header(4, rest);
    assert DescriptorEnd(4) == KeySecurityDataEnd + 4;
    DescriptorAtTheEnd(data);
    Cell32Rest(4, rest);
    assert rest[..4] == descriptor && rest[4..] == padding;
  }

  /** A cell filling its buffer: the descriptor is followed by padding to
      the end. */
  lemma DescriptorAtTheEnd(data: seq<byte>)
    requires |data| >= KeySecurityDataEnd && Size(HeaderOf(data)) == |data|
    requires KeySecurityDataEnd <= DescriptorEnd(FixedOf(data).secDescriptorSize) <= |data|
    ensures var e := DescriptorEnd(FixedOf(data).secDescriptorSize);
      && Unmarshal(data).Ok?
      && Unmarshal(data).value.secDescriptor == data[KeySecurityDataEnd..e]
      && Unmarshal(data).value.header.padding == data[e..]
  {
    UnmarshalFits(data);
  }

  lemma Cell32Rest(descriptorSize: byte, rest: seq<byte>)
    requires |rest| == 8
    ensures Cell32(descriptorSize, rest)[KeySecurityDataEnd..KeySecurityDataEnd + 4] == rest[..4]
    ensures Cell32(descriptorSize, rest)[KeySecurityDataEnd + 4..] == rest[4..]
  {
  }

  /** A 16-byte cell passes the size check but is too short for the fixed block. */
  lemma FixedBlockMissing()
    ensures Unmarshal([0x10, 0, 0, 0, 0x73, 0x6b, 0, 0] + seq(12, _ => 0)) == Err(EndOfData)
  {
    var data: seq<byte> := [0x10, 0, 0, 0, 0x73, 0x6b, 0, 0] + seq(12, _ => 0);
    var d := data[..HCellDataSize];
    assert d[..4] == [0x10, 0, 0, 0];
    UnmarshalHeaderFields(d);
    LeUintOfFour(d[..4]);
  }
}
