/**
 * Key value cells ("vk"): the header, a 16-byte fixed block and the value
 * name, whose length is the header's metadata field.
 */
module KeyValues {
  import opened Results
  import opened Binary
  import opened HCells

  /** The value data types a KeyValueData.dataType may name. */
  const RegNone: int := 0
  const RegSz: int := 1
  const RegExpandSz: int := 2
  const RegBinary: int := 3
  const RegDWord: int := 4
  const RegDWordLittleEndian: int := 5
  const RegDWordBigEndian: int := 6
  const RegLink: int := 7
  const RegMultiSz: int := 8
  const RegResourceList: int := 9
  const RegFullResourceDescriptor: int := 10
  const RegResourceRequirementsList: int := 11
  const RegQWord: int := 12
  const RegUnknown: int := -1

  /** KeyValueData: where the value's data lives and of what type it is.
      dataOffset is stored, never followed. */
  datatype KeyValueData = KeyValueData(
    dataSize: int32,
    dataOffset: int32,
    dataType: uint32,
    flags: uint16,
    spare: uint16)

  datatype KeyValue = KeyValue(header: HCellData, fixed: KeyValueData, valueName: seq<byte>)

  const FixedShape: seq<Kind> := [Signed(4), Signed(4), Unsigned(4), Unsigned(2), Unsigned(2)]

  /** Where the value name starts: after the header and the fixed block. */
  const KeyValueDataEnd: nat := HCellDataSize + KeyValueDataSize

  lemma FixedWidth()
    ensures TotalWidth(FixedShape) == KeyValueDataSize
  {
  }

  function FixedValues(f: KeyValueData): (vs: seq<Value>)
    ensures Conforms(vs, FixedShape)
  {
    [I32(f.dataSize), I32(f.dataOffset), U32(f.dataType), U16(f.flags), U16(f.spare)]
  }

  function FromValues(vs: seq<Value>): (f: KeyValueData)
    requires Conforms(vs, FixedShape)
    ensures FixedValues(f) == vs
  {
    KeyValueData(AsI32(vs[0]), AsI32(vs[1]), AsU32(vs[2]), AsU16(vs[3]), AsU16(vs[4]))
  }

  lemma FromValuesOfFixed(f: KeyValueData)
    ensures FromValues(FixedValues(f)) == f
  {
  }

  /** KeyValue.unmarshal. The header is taken from data[:8], which panics on
      a shorter buffer; the cell size is checked before the fixed block is
      read; the name length is the header's metadata. */
  function Unmarshal(data: seq<byte>): (r: Result<KeyValue>)
    ensures |data| < HCellDataSize ==> r == Err(RuntimePanic)
    ensures |data| >= HCellDataSize && |data| < Size(HeaderOf(data))
            ==> r == Err(TooShort(|data|, Size(HeaderOf(data))))
    ensures |data| >= HCellDataSize && Size(HeaderOf(data)) <= |data| < KeyValueDataEnd ==> r == Err(EndOfData)
    ensures |data| >= KeyValueDataEnd && Size(HeaderOf(data)) <= |data|
            && KeyValueDataEnd + HeaderOf(data).metadata > |data|
            ==> r == Err(OutOfBounds(HeaderOf(data).metadata, |data|))
    ensures r.Ok? ==> r.value.header.(padding := []) == HeaderOf(data)
    ensures r.Ok? ==> r.value.fixed == FixedOf(data)
    ensures r.Ok? ==> |r.value.valueName| == r.value.header.metadata
    ensures r.Ok? ==> KeyValueDataEnd + |r.value.valueName| + |r.value.header.padding| == Size(r.value.header) <= |data|
  {
    if |data| < HCellDataSize then Err(RuntimePanic)
    else
      var h := HeaderOf(data);
      if |data| < Size(h) then Err(TooShort(|data|, Size(h)))
      else if |data| < KeyValueDataEnd then Err(EndOfData)
      else
        var f := FixedOf(data);
        var t :- FieldAndPadding(data, KeyValueDataEnd, KeyValueDataEnd + h.metadata, h.metadata, Size(h));
        Ok(KeyValue(h.(padding := t.padding), f, t.field))
  }

  /** Decoding succeeds when the cell fits the buffer and the value name
      fits the cell: the name follows the fixed block and the padding runs
      to the cell size. */
  lemma UnmarshalFits(data: seq<byte>)
    requires |data| >= KeyValueDataEnd && Size(HeaderOf(data)) <= |data|
    requires KeyValueDataEnd + HeaderOf(data).metadata <= Size(HeaderOf(data))
    ensures var h, e := HeaderOf(data), KeyValueDataEnd + HeaderOf(data).metadata;
      Unmarshal(data) == Ok(KeyValue(h.(padding := data[e..Size(h)]), FixedOf(data), data[KeyValueDataEnd..e]))
  {
  }

  /** The fixed block of a buffer long enough to hold it; it re-encodes to
      the bytes it was read from. */
  function FixedOf(data: seq<byte>): (f: KeyValueData)
    requires |data| >= KeyValueDataEnd
    ensures Write(FixedValues(f)) == data[HCellDataSize..][..KeyValueDataSize]
  {
    FixedWidth();
    WriteRead(data[HCellDataSize..], FixedShape);
    FromValues(Read(data[HCellDataSize..], FixedShape).value)
  }

  /** KeyValue.marshal: header ++ fixed block ++ value name ++ padding. */
  function Marshal(kv: KeyValue): (out: seq<byte>)
    requires ValidHeader(kv.header)
    ensures |out| == KeyValueDataEnd + |kv.valueName| + |kv.header.padding|
  {
    FixedWidth();
    WriteLength(FixedValues(kv.fixed), FixedShape);
    MarshalHeader(kv.header) + Write(FixedValues(kv.fixed)) + kv.valueName + kv.header.padding
  }

  /** The encoding starts with the cell header. */
  lemma HeaderFirst(kv: KeyValue)
    requires ValidHeader(kv.header)
    ensures MarshalHeader(kv.header) <= Marshal(kv)
  {
  }

  /** Re-encoding a decoded key value gives back the bytes up to its size. */
  lemma MarshalUnmarshal(data: seq<byte>)
    requires Unmarshal(data).Ok?
    ensures Marshal(Unmarshal(data).value) == data[..Size(Unmarshal(data).value.header)]
  {
    var kv := Unmarshal(data).value;
    DecodedHeaderBytes(data, kv.header);
    Reassemble(data, MarshalHeader(kv.header), Write(FixedValues(kv.fixed)), kv.valueName, kv.header.padding,
               KeyValueDataEnd, Size(kv.header));
  }

  /** A well-formed key value: the size in its header covers exactly its
      bytes and the header's metadata is its name length. */
  predicate Valid(kv: KeyValue) {
    && ValidHeader(kv.header)
    && kv.header.parentHBinOffset == 0
    && Size(kv.header) == KeyValueDataEnd + |kv.valueName| + |kv.header.padding|
    && kv.header.metadata == |kv.valueName|
  }

  /** A well-formed key value decodes from its own encoding, whatever follows. */
  lemma UnmarshalMarshal(kv: KeyValue, tail: seq<byte>)
    requires Valid(kv)
    ensures Unmarshal(Marshal(kv) + tail) == Ok(kv)
  {
    FixedWidth();
    var hb, fb := MarshalHeader(kv.header), Write(FixedValues(kv.fixed));
    WriteLength(FixedValues(kv.fixed), FixedShape);
    var data := Marshal(kv) + tail;
    Parts(hb, fb, kv.valueName, kv.header.padding, tail);
    assert data == hb + fb + kv.valueName + kv.header.padding + tail;
    UnmarshalMarshalHeader(kv.header, []);
    AppendEmpty(hb);
    ReadWrite(FixedValues(kv.fixed), FixedShape, kv.valueName + kv.header.padding + tail);
    FromValuesOfFixed(kv.fixed);
    Repadded(kv.header, HeaderOf(data));
  }

  /** Decoding does not require 8-byte alignment: the 27-byte value "123"
      decodes, with an empty padding. */
  lemma UnalignedValueDecodes()
    ensures var data := Value123();
      && Unmarshal(data).Ok?
      && Unmarshal(data).value.valueName == [0x31, 0x32, 0x33]
      && Unmarshal(data).value.header.padding == []
  {
    Value123Parts();
    NameToTheEnd(Value123());
  }

  /** The header and the name of the 27-byte value "123". */
  lemma Value123Parts()
    ensures var data := Value123();
      && Size(HeaderOf(data)) == |data| && KeyValueDataEnd + HeaderOf(data).metadata == |data|
      && data[KeyValueDataEnd..] == Name123()
  {
    var data := Value123();
    var h := HCellData(27, [0x76, 0x6b], 3, 0, []);
    HeaderBytes(Value123Header(), h);
    HeadAndTail(Value123Header(), Value123Fixed(), Name123());
    HeaderOfPrefix(data, Value123Header());
    assert Size(h) == 27;
  }

  /** A cell filling its buffer whose name runs to the end has no padding. */
  lemma NameToTheEnd(data: seq<byte>)
    requires |data| >= KeyValueDataEnd && Size(HeaderOf(data)) == |data|
    requires KeyValueDataEnd + HeaderOf(data).metadata == |data|
    ensures Unmarshal(data).Ok?
    ensures Unmarshal(data).value.valueName == data[KeyValueDataEnd..]
    ensures Unmarshal(data).value.header.padding == []
  {
    UnmarshalFits(data);
  }

  lemma HeadAndTail<T>(a: seq<T>, b: seq<T>, c: seq<T>)
    ensures (a + b + c)[..|a|] == a && (a + b + c)[|a| + |b|..] == c
  {
  }

  /** The key value cell named "123" (27 bytes, free). */
  function Value123(): (data: seq<byte>)
    ensures |data| == 27
  {
    Value123Header() + Value123Fixed() + Name123()
  }

  /** The fixed block of the value "123": sixteen zero bytes. */
  function Value123Fixed(): (data: seq<byte>) {
    seq(16, _ => 0)
  }

  function Name123(): (data: seq<byte>) {
    [0x31, 0x32, 0x33]
  }

  function Value123Header(): (data: seq<byte>) {
    [0x1b, 0, 0, 0, 0x76, 0x6b, 0x03, 0x00]
  }
}
