/**
 * Key node cells ("nk"): the header, a 72-byte fixed block and the key
 * name, whose length is the fixed block's KeyNameLength.
 */
module KeyNodes {
  import opened Results
  import opened Binary
  import opened HCells

  /** KeyNodeData: timestamps, counts and offsets of a key; the last two
      fields are the key name and class name lengths. */
  datatype KeyNodeData = KeyNodeData(
    lastWTimestamp: uint64,
    accessBits: uint32,
    parent: int32,
    subkeysCount: int32,
    vSubkeysCount: int32,
    subkeysListOffset: int32,
    vSubkeysListOffset: int32,
    keyValuesCount: int32,
    keyValuesListOffset: int32,
    keySecurityOffset: int32,
    classNameOffset: int32,
    lSubkeyNameLength: int32,
    lSubkeyClassNameLength: int32,
    lValueNameLength: int32,
    lValueDataSize: int32,
    workVar: int32,
    keyNameLength: int16,
    classNameLength: int16)

  /** A key node: the header (its metadata holds the key flags, carried
      verbatim), the fixed block and the key name. */
  datatype KeyNode = KeyNode(header: HCellData, fixed: KeyNodeData, keyName: seq<byte>)

  const FrontShape: seq<Kind> := [
    Unsigned(8), Unsigned(4), Signed(4), Signed(4), Signed(4), Signed(4), Signed(4), Signed(4), Signed(4)]
  const BackShape: seq<Kind> := [
    Signed(4), Signed(4), Signed(4), Signed(4), Signed(4), Signed(4), Signed(4), Signed(2), Signed(2)]

  /** The layout of KeyNodeData, in two halves of nine fields. */
  const FixedShape: seq<Kind> := FrontShape + BackShape

  /** Where the key name starts: after the header and the fixed block. */
  const KeyNodeDataEnd: nat := HCellDataSize + KeyNodeDataSize

  lemma FixedWidth()
    ensures TotalWidth(FixedShape) == KeyNodeDataSize
  {
    assert TotalWidth(FrontShape) == 40;
    assert TotalWidth(BackShape) == 32;
    TotalWidthConcat(FrontShape, BackShape);
  }

  function FixedValues(f: KeyNodeData): (vs: seq<Value>)
    ensures Conforms(vs, FixedShape)
  {
    [U64(f.lastWTimestamp), U32(f.accessBits), I32(f.parent), I32(f.subkeysCount), I32(f.vSubkeysCount),
     I32(f.subkeysListOffset), I32(f.vSubkeysListOffset), I32(f.keyValuesCount), I32(f.keyValuesListOffset),
     I32(f.keySecurityOffset), I32(f.classNameOffset), I32(f.lSubkeyNameLength), I32(f.lSubkeyClassNameLength),
     I32(f.lValueNameLength), I32(f.lValueDataSize), I32(f.workVar), I16(f.keyNameLength), I16(f.classNameLength)]
  }

  function FromValues(vs: seq<Value>): (f: KeyNodeData)
    requires Conforms(vs, FixedShape)
    ensures FixedValues(f) == vs
  {
    KeyNodeData(
      AsU64(vs[0]), AsU32(vs[1]), AsI32(vs[2]), AsI32(vs[3]), AsI32(vs[4]), AsI32(vs[5]), AsI32(vs[6]),
      AsI32(vs[7]), AsI32(vs[8]), AsI32(vs[9]), AsI32(vs[10]), AsI32(vs[11]), AsI32(vs[12]), AsI32(vs[13]),
      AsI32(vs[14]), AsI32(vs[15]), AsI16(vs[16]), AsI16(vs[17]))
  }

  /** The fixed block is determined by its values. */
  lemma FromValuesOfFixed(f: KeyNodeData)
    ensures FromValues(FixedValues(f)) == f
  {
  }

  /** KeyNode.unmarshal. The header is taken from data[:8], which panics on a
      shorter buffer; then the cell size is checked against the buffer, the
      fixed block is read, and the key name and padding are sliced. */
  function Unmarshal(data: seq<byte>): (r: Result<KeyNode>)
    ensures |data| < HCellDataSize ==> r == Err(RuntimePanic)
    ensures |data| >= HCellDataSize && |data| < Size(HeaderOf(data))
            ==> r == Err(TooShort(|data|, Size(HeaderOf(data))))
    ensures |data| >= HCellDataSize && Size(HeaderOf(data)) <= |data| < KeyNodeDataEnd ==> r == Err(EndOfData)
    ensures r.Ok? ==> r.value.header.(padding := []) == HeaderOf(data)
    ensures r.Ok? ==> r.value.fixed == FixedOf(data)
    ensures r.Ok? ==> |r.value.keyName| == r.value.fixed.keyNameLength
    ensures r.Ok? ==> KeyNodeDataEnd + |r.value.keyName| + |r.value.header.padding| == Size(r.value.header) <= |data|
  {
    if |data| < HCellDataSize then Err(RuntimePanic)
    else
      var h := HeaderOf(data);
      if |data| < Size(h) then Err(TooShort(|data|, Size(h)))
      else if |data| < KeyNodeDataEnd then Err(EndOfData)
      else
        var f := FixedOf(data);
        var t :- FieldAndPadding(data, KeyNodeDataEnd, KeyNodeDataEnd + f.keyNameLength, f.keyNameLength, Size(h));
        Ok(KeyNode(h.(padding := t.padding), f, t.field))
  }

  /** Decoding succeeds when the cell fits the buffer and the key name fits
      the cell: the name follows the fixed block and the padding runs to
      the cell size. */
  lemma UnmarshalFits(data: seq<byte>)
    requires |data| >= KeyNodeDataEnd && Size(HeaderOf(data)) <= |data|
    requires 0 <= FixedOf(data).keyNameLength && KeyNodeDataEnd + FixedOf(data).keyNameLength <= Size(HeaderOf(data))
    ensures var h, e := HeaderOf(data), KeyNodeDataEnd + FixedOf(data).keyNameLength;
      Unmarshal(data) == Ok(KeyNode(h.(padding := data[e..Size(h)]), FixedOf(data), data[KeyNodeDataEnd..e]))
  {
  }

  /** A key name running past the buffer is reported with the declared
      length and the buffer length. */
  lemma KeyNameOutOfBounds(data: seq<byte>)
    requires KeyNodeDataEnd <= |data| && Size(HeaderOf(data)) <= |data|
    requires KeyNodeDataEnd + FixedOf(data).keyNameLength > |data|
    ensures Unmarshal(data) == Err(OutOfBounds(FixedOf(data).keyNameLength, |data|))
  {
  }

  /** The fixed block of a buffer long enough to hold it; it re-encodes to
      the bytes it was read from. */
  function FixedOf(data: seq<byte>): (f: KeyNodeData)
    requires |data| >= KeyNodeDataEnd
    ensures Write(FixedValues(f)) == data[HCellDataSize..][..KeyNodeDataSize]
  {
    FixedWidth();
    WriteRead(data[HCellDataSize..], FixedShape);
    FromValues(Read(data[HCellDataSize..], FixedShape).value)
  }

  /** KeyNode.marshal: header ++ fixed block ++ key name ++ padding. */
  function Marshal(kn: KeyNode): (out: seq<byte>)
    requires ValidHeader(kn.header)
    ensures |out| == KeyNodeDataEnd + |kn.keyName| + |kn.header.padding|
  {
    FixedWidth();
    WriteLength(FixedValues(kn.fixed), FixedShape);
    MarshalHeader(kn.header) + Write(FixedValues(kn.fixed)) + kn.keyName + kn.header.padding
  }

  /** The encoding starts with the cell header. */
  lemma HeaderFirst(kn: KeyNode)
    requires ValidHeader(kn.header)
    ensures MarshalHeader(kn.header) <= Marshal(kn)
  {
  }

  /** Re-encoding a decoded key node gives back the bytes up to its size. */
  lemma MarshalUnmarshal(data: seq<byte>)
    requires Unmarshal(data).Ok?
    ensures Marshal(Unmarshal(data).value) == data[..Size(Unmarshal(data).value.header)]
  {
    var kn := Unmarshal(data).value;
    DecodedHeaderBytes(data, kn.header);
    Reassemble(data, MarshalHeader(kn.header), Write(FixedValues(kn.fixed)), kn.keyName, kn.header.padding,
               KeyNodeDataEnd, Size(kn.header));
  }

  /** A well-formed key node: the size in its header covers exactly its
      bytes and its name length field matches its name. */
  predicate Valid(kn: KeyNode) {
    && ValidHeader(kn.header)
    && kn.header.parentHBinOffset == 0
    && Size(kn.header) == KeyNodeDataEnd + |kn.keyName| + |kn.header.padding|
    && kn.fixed.keyNameLength == |kn.keyName|
  }

  /** A well-formed key node decodes from its own encoding, whatever follows. */
  lemma UnmarshalMarshal(kn: KeyNode, tail: seq<byte>)
    requires Valid(kn)
    ensures Unmarshal(Marshal(kn) + tail) == Ok(kn)
  {
    FixedWidth();
    var hb, fb := MarshalHeader(kn.header), Write(FixedValues(kn.fixed));
    WriteLength(FixedValues(kn.fixed), FixedShape);
    var data := Marshal(kn) + tail;
    Parts(hb, fb, kn.keyName, kn.header.padding, tail);
    assert data == hb + fb + kn.keyName + kn.header.padding + tail;
    UnmarshalMarshalHeader(kn.header, []);
    AppendEmpty(hb);
    ReadWrite(FixedValues(kn.fixed), FixedShape, kn.keyName + kn.header.padding + tail);
    FromValuesOfFixed(kn.fixed);
    Repadded(kn.header, HeaderOf(data));
    UnmarshalFits(data);
  }

  /** The "OpenWithList" key node: a 92-byte cell whose key name is the last
      twelve bytes and whose padding is empty. */
  lemma OpenWithListVector()
    ensures var data := OpenWithList();
      && Unmarshal(data).Ok?
      && Unmarshal(data).value.keyName == data[KeyNodeDataEnd..]
      && Unmarshal(data).value.header.padding == []
      && Unmarshal(data).value.header.metadata == 0x20
  {
    OpenWithListHeader();
    OpenWithListNameLength();
    NameToTheEnd(OpenWithList());
  }

  /** A cell filling its buffer whose name runs to the end has no padding. */
  lemma NameToTheEnd(data: seq<byte>)
    requires |data| >= KeyNodeDataEnd && Size(HeaderOf(data)) == |data|
    requires KeyNodeDataEnd + FixedOf(data).keyNameLength == |data|
    ensures Unmarshal(data).Ok?
    ensures Unmarshal(data).value.keyName == data[KeyNodeDataEnd..]
    ensures Unmarshal(data).value.header.padding == []
    ensures Unmarshal(data).value.header.metadata == HeaderOf(data).metadata
  {
    UnmarshalFits(data);
  }

  lemma OpenWithListHeader()
    ensures HeaderOf(OpenWithList()).blockSize == 92 && HeaderOf(OpenWithList()).metadata == 0x20
    ensures Size(HeaderOf(OpenWithList())) == 92
  {
    var d := OpenWithList()[..HCellDataSize];
    assert d == [0x5c, 0, 0, 0, 0x6e, 0x6b, 0x20, 0x00];
    UnmarshalHeaderFields(d);
    assert d[..4] == [0x5c, 0, 0, 0] && d[6..8] == [0x20, 0];
    LeUintOfFour(d[..4]);
    assert LeUint(d[6..8]) == 0x20 by {
      assert d[6..8][1..][1..] == [];
    }
  }

  lemma OpenWithListNameLength()
    ensures FixedOf(OpenWithList()).keyNameLength == 12
  {
    var data := OpenWithList();
    KeyNameLengthField(data);
    var s := data[76..78];
    assert s == [0x0c, 0];
    assert LeUint(s) == 12 by {
      assert s[1..][1..] == [];
    }
  }

  /** KeyNameLength is the little-endian int16 at bytes 76..78 of the cell. */
  lemma KeyNameLengthField(data: seq<byte>)
    requires |data| >= KeyNodeDataEnd
    ensures FixedOf(data).keyNameLength == ToSigned(LeUint(data[76..78]), 2)
  {
    var rest := data[HCellDataSize..];
    FixedWidth();
    PrefixWidth();
    ReadAt(rest, FixedShape, 16);
    SliceOfSuffix(data, HCellDataSize, 68, 70);
    var vs := Read(rest, FixedShape).value;
    assert vs[16] == SInt(2, ToSigned(LeUint(data[76..78]), 2));
    NameLengthValue(vs);
  }

  /** The key name length is the seventeenth value of the fixed block. */
  lemma NameLengthValue(vs: seq<Value>)
    requires Conforms(vs, FixedShape)
    ensures FromValues(vs).keyNameLength == vs[16].n
  {
  }

  lemma PrefixWidth()
    ensures TotalWidth(FixedShape[..16]) == 68 && FixedShape[16] == Signed(2)
  {
    assert FixedShape[..16] == FrontShape + BackShape[..7];
    TotalWidthConcat(FrontShape, BackShape[..7]);
    assert BackShape[..7] == [Signed(4), Signed(4), Signed(4), Signed(4), Signed(4), Signed(4), Signed(4)];
    assert TotalWidth(FrontShape) == 40;
  }

  /** The key node cell of the key "OpenWithList" (92 bytes, free). */
  function OpenWithList(): (data: seq<byte>)
    ensures |data| == 92
  {
    [0x5c, 0, 0, 0, 0x6e, 0x6b, 0x20, 0x00]
    + [0x03, 0, 0, 0, 0x01, 0, 0, 0, 0x04, 0, 0, 0] + seq(52, _ => 0)
    + [0x0c, 0, 0, 0, 0x0c, 0, 0, 0]
    + [0x4f, 0x70, 0x65, 0x6e, 0x57, 0x69, 0x74, 0x68, 0x4c, 0x69, 0x73, 0x74]
  }
}
