/**
 * Index cells: the index leaf ("li") and index root ("ri") list 4-byte cell
 * offsets, the fast leaf ("lf") and hash leaf ("lh") list 8-byte elements of
 * an offset and four name-hint or hash bytes. The four decoders are the
 * same code apart from the element type, so they share one definition here,
 * parameterised by the element layout.
 */
module IndexCells {
  import opened Results
  import opened Binary
  import opened HCells

  /** The element type of an index cell. */
  datatype Layout =
    | Offsets        // OffsetElement: li and ri
    | NamedOffsets   // NamedElement: lf and lh

  function ElementSize(l: Layout): (w: nat)
    ensures w == 4 || w == NamedElementSize
  {
    match l
    case Offsets => 4
    case NamedOffsets => NamedElementSize
  }

  /** One list element: a cell offset, or a cell offset with four bytes of
      name hint or hash (NamedElement). */
  datatype Element = OffsetElement(offset: int32) | NamedElement(offset: int32, name: seq<byte>)

  predicate FitsLayout(e: Element, l: Layout) {
    match l
    case Offsets => e.OffsetElement?
    case NamedOffsets => e.NamedElement? && |e.name| == 4
  }

  /** An index cell: the header, whose metadata is the element count, and
      the elements. */
  datatype IndexCell = IndexCell(header: HCellData, elements: seq<Element>)

  /** Decodes one element from its little-endian bytes. */
  function DecodeElement(b: seq<byte>, l: Layout): (e: Element)
    requires |b| == ElementSize(l)
    ensures FitsLayout(e, l)
  {
    match l
    case Offsets => OffsetElement(Int32At(b, 0))
    case NamedOffsets => NamedElement(Int32At(b, 0), b[4..8])
  }

  /** Encodes one element little-endian. */
  function EncodeElement(e: Element): (b: seq<byte>)
  {
    match e
    case OffsetElement(o) => EncodeValue(I32(o))
    case NamedElement(o, name) => EncodeValue(I32(o)) + name
  }

  lemma DecodeEncodeElement(e: Element, l: Layout)
    requires FitsLayout(e, l)
    ensures |EncodeElement(e)| == ElementSize(l)
    ensures DecodeElement(EncodeElement(e), l) == e
  {
    var b := EncodeElement(e);
    DecodeEncodeValue(I32(e.offset));
    assert b[0..4] == EncodeValue(I32(e.offset));
  }

  lemma EncodeDecodeElement(b: seq<byte>, l: Layout)
    requires |b| == ElementSize(l)
    ensures EncodeElement(DecodeElement(b, l)) == b
  {
    EncodeDecodeValue(b[0..4], Signed(4));
    if l.NamedOffsets? {
      assert b[0..4] + b[4..8] == b;
    } else {
      assert b[0..4] == b;
    }
  }

  /** The layout of a list of m elements: m byte arrays of the element size. */
  function ListShape(m: nat, l: Layout): (shape: seq<Kind>)
    ensures TotalWidth(shape) == m * ElementSize(l)
  {
    RepeatWidth(Octets(ElementSize(l)), m);
    Repeat(Octets(ElementSize(l)), m)
  }

  /** The elements held by the values read with ListShape. */
  function ElementsOf(vs: seq<Value>, m: nat, l: Layout): (es: seq<Element>)
    requires Conforms(vs, ListShape(m, l))
    ensures |es| == m && forall j | 0 <= j < m :: FitsLayout(es[j], l)
  {
    seq(m, j requires 0 <= j < m => DecodeElement(vs[j].b, l))
  }

  /** The values that encode a list of elements. */
  function ValuesOf(es: seq<Element>): (vs: seq<Value>)
    ensures |vs| == |es|
  {
    seq(|es|, j requires 0 <= j < |es| => Bytes(EncodeElement(es[j])))
  }

  lemma ValuesOfElementsOf(vs: seq<Value>, m: nat, l: Layout)
    requires Conforms(vs, ListShape(m, l))
    ensures ValuesOf(ElementsOf(vs, m, l)) == vs
  {
    var es := ElementsOf(vs, m, l);
    forall j | 0 <= j < m
      ensures ValuesOf(es)[j] == vs[j]
    {
      EncodeDecodeElement(vs[j].b, l);
    }
  }

  lemma ElementsOfValuesOf(es: seq<Element>, l: Layout)
    requires forall j | 0 <= j < |es| :: FitsLayout(es[j], l)
    ensures Conforms(ValuesOf(es), ListShape(|es|, l))
    ensures ElementsOf(ValuesOf(es), |es|, l) == es
  {
    forall j | 0 <= j < |es|
      ensures |EncodeElement(es[j])| == ElementSize(l)
      ensures DecodeElement(EncodeElement(es[j]), l) == es[j]
    {
      DecodeEncodeElement(es[j], l);
    }
  }

  /** The bytes the elements of a cell occupy, by its count. */
  function ListEnd(h: HCellData, l: Layout): (n: nat)
    ensures n == h.metadata * ElementSize(l)
  {
    h.metadata * ElementSize(l)
  }

  /** The padding length the source computes: the cell size less the header
      and the elements, where count times element size is taken in uint16
      and the subtraction in int32. */
  function PaddingLength(h: HCellData, l: Layout): int32 {
    var w := ElementSize(l);
    WrapInt32(Size(h) - HCellDataSize - (h.metadata * w) % 0x1_0000)
  }

  /** Without overflow the padding is what the cell size leaves after the
      header and the elements; with the count times the element size past
      16 bits, the computed padding is longer than that. */
  lemma PaddingLengthValue(h: HCellData, l: Layout)
    ensures 0 <= Size(h) && ListEnd(h, l) < 0x1_0000 ==> PaddingLength(h, l) == Size(h) - HCellDataSize - ListEnd(h, l)
    ensures 0 <= Size(h) && ListEnd(h, l) >= 0x1_0000 ==> PaddingLength(h, l) > Size(h) - HCellDataSize - ListEnd(h, l)
  {
  }

  /** IndexLeaf/IndexRoot/FastLeaf/HashLeaf.unmarshal. The header is taken
      from data[:8], which panics on a shorter buffer; the cell size is
      checked; then the elements and the padding are read from one cursor
      over data[8:]. A negative padding length makes the source's make
      panic. */
  function Unmarshal(data: seq<byte>, l: Layout): (r: Result<IndexCell>)
    ensures |data| < HCellDataSize ==> r == Err(RuntimePanic)
    ensures |data| >= HCellDataSize && |data| < Size(HeaderOf(data))
            ==> r == Err(TooShort(|data|, Size(HeaderOf(data))))
    ensures |data| >= HCellDataSize && Size(HeaderOf(data)) <= |data|
            && |data| < HCellDataSize + ListEnd(HeaderOf(data), l)
            ==> r == Err(EndOfData)
    ensures r.Ok? ==> r.value.header.(padding := []) == HeaderOf(data)
    ensures r.Ok? ==> |r.value.elements| == r.value.header.metadata
    ensures r.Ok? ==> forall j | 0 <= j < |r.value.elements| :: FitsLayout(r.value.elements[j], l)
    ensures r.Ok? ==> |r.value.header.padding| == PaddingLength(r.value.header, l)
    ensures r.Ok? ==> HCellDataSize + ListEnd(r.value.header, l) + |r.value.header.padding| <= |data|
    ensures r.Ok? ==> Size(r.value.header) <= |data|
  {
    if |data| < HCellDataSize then Err(RuntimePanic)
    else
      var h := HeaderOf(data);
      if |data| < Size(h) then Err(TooShort(|data|, Size(h)))
      else
        var rest := data[HCellDataSize..];
        var listEnd := ListEnd(h, l);
        var vs :- Read(rest, ListShape(h.metadata, l));
        var n := PaddingLength(h, l);
        if n < 0 then Err(RuntimePanic)
        else if |rest| < listEnd + n then Err(EndOfData)
        else Ok(IndexCell(h.(padding := rest[listEnd..listEnd + n]), ElementsOf(vs, h.metadata, l)))
  }

  /** Marshal: header ++ elements ++ padding. */
  function Marshal(c: IndexCell): (out: seq<byte>)
    requires ValidHeader(c.header)
  {
    MarshalHeader(c.header) + Write(ValuesOf(c.elements)) + c.header.padding
  }

  /** The encoding starts with the cell header. */
  lemma HeaderFirst(c: IndexCell)
    requires ValidHeader(c.header)
    ensures MarshalHeader(c.header) <= Marshal(c)
  {
  }

  /** Re-encoding a decoded index cell gives back the bytes it was read
      from; those end at the cell size unless the element count times the
      element size overflowed 16 bits. */
  lemma MarshalUnmarshal(data: seq<byte>, l: Layout)
    requires Unmarshal(data, l).Ok?
    ensures var c := Unmarshal(data, l).value;
      var end := HCellDataSize + ListEnd(c.header, l) + |c.header.padding|;
      && end <= |data|
      && Marshal(c) == data[..end]
      && (0 <= Size(c.header) && ListEnd(c.header, l) < 0x1_0000 ==> end == Size(c.header))
  {
    var c := Unmarshal(data, l).value;
    DecodedPieces(data, l, c);
    DecodedBytes(data, l, c);
    PaddingLengthValue(c.header, l);
  }

  /** The header, the element list and the padding of a decoded cell
      re-encode to the slices they were read from. */
  lemma DecodedPieces(data: seq<byte>, l: Layout, c: IndexCell)
    requires Unmarshal(data, l) == Ok(c)
    ensures ValidHeader(c.header)
    ensures HCellDataSize + ListEnd(c.header, l) + |c.header.padding| <= |data|
    ensures MarshalHeader(c.header) == data[..HCellDataSize]
    ensures Write(ValuesOf(c.elements)) == data[HCellDataSize..][..ListEnd(c.header, l)]
    ensures c.header.padding == data[HCellDataSize..][ListEnd(c.header, l)..ListEnd(c.header, l) + |c.header.padding|]
  {
    var h, k, n := UnmarshalShape(data, l, c);
    ShapePieces(data, l, c, h, k, n);
  }

  /** What a successful decode is made of: the header, the elements read
      after it and the padding sliced after those. */
  lemma UnmarshalShape(data: seq<byte>, l: Layout, c: IndexCell) returns (h: HCellData, k: nat, n: nat)
    requires Unmarshal(data, l) == Ok(c)
    ensures |data| >= HCellDataSize && h == HeaderOf(data) && k == ListEnd(h, l) && n == PaddingLength(h, l)
    ensures Read(data[HCellDataSize..], ListShape(h.metadata, l)).Ok?
    ensures HCellDataSize + k + n <= |data|
    ensures c == IndexCell(h.(padding := data[HCellDataSize..][k..k + n]),
                           ElementsOf(Read(data[HCellDataSize..], ListShape(h.metadata, l)).value, h.metadata, l))
  {
    h, k, n := HeaderOf(data), ListEnd(HeaderOf(data), l), PaddingLength(HeaderOf(data), l);
  }

  /** The slices a decoded cell was built from re-encode to its parts. */
  lemma ShapePieces(data: seq<byte>, l: Layout, c: IndexCell, h: HCellData, k: nat, n: nat)
    requires |data| >= HCellDataSize && h == HeaderOf(data) && k == ListEnd(h, l)
    requires Read(data[HCellDataSize..], ListShape(h.metadata, l)).Ok?
    requires HCellDataSize + k + n <= |data|
    requires c == IndexCell(h.(padding := data[HCellDataSize..][k..k + n]),
                            ElementsOf(Read(data[HCellDataSize..], ListShape(h.metadata, l)).value, h.metadata, l))
    ensures ValidHeader(c.header)
    ensures HCellDataSize + ListEnd(c.header, l) + |c.header.padding| <= |data|
    ensures MarshalHeader(c.header) == data[..HCellDataSize]
    ensures Write(ValuesOf(c.elements)) == data[HCellDataSize..][..ListEnd(c.header, l)]
    ensures c.header.padding == data[HCellDataSize..][ListEnd(c.header, l)..ListEnd(c.header, l) + |c.header.padding|]
  {
    assert ListEnd(c.header, l) == k && |c.header.padding| == n;
    SameSlice(data[HCellDataSize..], k, n, c.header.padding, ListEnd(c.header, l), |c.header.padding|);
    DecodedHeaderBytes(data, c.header);
    DecodedElementBytes(data[HCellDataSize..], h.metadata, l);
  }

  /** A cell whose header, elements and padding re-encode to consecutive
      slices of a buffer re-encodes to the prefix they span. */
  lemma DecodedBytes(data: seq<byte>, l: Layout, c: IndexCell)
    requires ValidHeader(c.header)
    requires HCellDataSize + ListEnd(c.header, l) + |c.header.padding| <= |data|
    requires MarshalHeader(c.header) == data[..HCellDataSize]
    requires Write(ValuesOf(c.elements)) == data[HCellDataSize..][..ListEnd(c.header, l)]
    requires c.header.padding == data[HCellDataSize..][ListEnd(c.header, l)..ListEnd(c.header, l) + |c.header.padding|]
    ensures Marshal(c) == data[..HCellDataSize + ListEnd(c.header, l) + |c.header.padding|]
  {
    HeaderListPaddingOf(data, MarshalHeader(c.header), Write(ValuesOf(c.elements)), c.header.padding, ListEnd(c.header, l));
  }

  /** The elements read from a list re-encode to the list's bytes. */
  lemma DecodedElementBytes(rest: seq<byte>, m: nat, l: Layout)
    requires Read(rest, ListShape(m, l)).Ok?
    ensures var vs := Read(rest, ListShape(m, l)).value;
      m * ElementSize(l) <= |rest| && Write(ValuesOf(ElementsOf(vs, m, l))) == rest[..m * ElementSize(l)]
  {
    var vs := Read(rest, ListShape(m, l)).value;
    ValuesOfElementsOf(vs, m, l);
    WriteRead(rest, ListShape(m, l));
  }

  /** The header, list and padding slices of a cell join up. */
  lemma HeaderListPaddingOf<T>(data: seq<T>, a: seq<T>, b: seq<T>, p: seq<T>, k: nat)
    requires HCellDataSize + k + |p| <= |data|
    requires a == data[..HCellDataSize] && b == data[HCellDataSize..][..k] && p == data[HCellDataSize..][k..k + |p|]
    ensures a + b + p == data[..HCellDataSize + k + |p|]
  {
    var rest := data[HCellDataSize..];
    PrefixJoin(rest, k, k + |p|);
    PrefixParts(data, HCellDataSize, k + |p|);
  }

  /** A cell decoded from exactly its own bytes never had its count
      overflow, so it re-encodes to exactly those bytes. */
  lemma MarshalUnmarshalExact(data: seq<byte>, l: Layout)
    requires Unmarshal(data, l).Ok?
    requires |data| == Size(HeaderOf(data))
    ensures Marshal(Unmarshal(data, l).value) == data
  {
    var c := Unmarshal(data, l).value;
    NoWrapInExactBuffer(data, l);
    MarshalUnmarshal(data, l);
  }

  /** With the count overflowing 16 bits, the computed padding runs past a
      buffer that holds exactly the cell, and decoding fails. */
  lemma NoWrapInExactBuffer(data: seq<byte>, l: Layout)
    requires Unmarshal(data, l).Ok?
    requires |data| == Size(HeaderOf(data))
    ensures ListEnd(HeaderOf(data), l) < 0x1_0000
  {
  }

  /** A well-formed index cell: its count is the number of elements, the
      elements fit the layout, the count does not overflow, and the size in
      its header covers exactly its bytes. */
  predicate Valid(c: IndexCell, l: Layout) {
    && ValidHeader(c.header)
    && c.header.parentHBinOffset == 0
    && c.header.metadata == |c.elements|
    && (forall j | 0 <= j < |c.elements| :: FitsLayout(c.elements[j], l))
    && ListEnd(c.header, l) < 0x1_0000
    && Size(c.header) == HCellDataSize + ListEnd(c.header, l) + |c.header.padding|
  }

  /** A well-formed index cell decodes from its own encoding, whatever follows. */
  lemma UnmarshalMarshal(c: IndexCell, l: Layout, tail: seq<byte>)
    requires Valid(c, l)
    ensures Unmarshal(Marshal(c) + tail, l) == Ok(c)
  {
    EncodedParts(c, l, tail);
    DecodesTo(Marshal(c) + tail, l, c);
  }

  /** A buffer holding the parts of a well-formed cell decodes to it. */
  lemma DecodesTo(data: seq<byte>, l: Layout, c: IndexCell)
    requires Valid(c, l)
    requires |data| >= HCellDataSize && HeaderOf(data) == c.header.(padding := []) && |data| >= Size(c.header)
    requires Read(data[HCellDataSize..], ListShape(|c.elements|, l)) == Ok(ValuesOf(c.elements))
    requires ListEnd(c.header, l) + |c.header.padding| <= |data| - HCellDataSize
    requires data[HCellDataSize..][ListEnd(c.header, l)..ListEnd(c.header, l) + |c.header.padding|] == c.header.padding
    ensures Unmarshal(data, l) == Ok(c)
  {
    var h := HeaderOf(data);
    assert ListEnd(h, l) == ListEnd(c.header, l);
    PaddingLengthValue(h, l);
    assert PaddingLength(h, l) == |c.header.padding|;
    UnmarshalOk(data, l, ValuesOf(c.elements), c.header.padding);
    ElementsOfValuesOf(c.elements, l);
    assert h.(padding := c.header.padding) == c.header;
  }

  /** The parts of an encoded index cell, as the decoder finds them. */
  lemma EncodedParts(c: IndexCell, l: Layout, tail: seq<byte>)
    requires Valid(c, l)
    ensures var data := Marshal(c) + tail;
      && |data| >= HCellDataSize
      && HeaderOf(data) == c.header.(padding := [])
      && |data| >= Size(c.header)
      && Read(data[HCellDataSize..], ListShape(|c.elements|, l)) == Ok(ValuesOf(c.elements))
      && ListEnd(c.header, l) + |c.header.padding| <= |data| - HCellDataSize
      && data[HCellDataSize..][ListEnd(c.header, l)..ListEnd(c.header, l) + |c.header.padding|] == c.header.padding
  {
    var m := |c.elements|;
    var hb, eb, pad := MarshalHeader(c.header), Write(ValuesOf(c.elements)), c.header.padding;
    ElementsOfValuesOf(c.elements, l);
    WriteLength(ValuesOf(c.elements), ListShape(m, l));
    HeaderListPadding(hb, eb, pad, tail, Marshal(c) + tail, |eb|);
    UnmarshalMarshalHeader(c.header, []);
    ReadWrite(ValuesOf(c.elements), ListShape(m, l), pad + tail);
    EncodedPadding(c, l, tail);
  }

  /** The padding of an encoded index cell follows its element list. */
  lemma EncodedPadding(c: IndexCell, l: Layout, tail: seq<byte>)
    requires Valid(c, l)
    ensures var data := Marshal(c) + tail;
      && ListEnd(c.header, l) + |c.header.padding| <= |data| - HCellDataSize
      && data[HCellDataSize..][ListEnd(c.header, l)..ListEnd(c.header, l) + |c.header.padding|] == c.header.padding
  {
    var eb := Write(ValuesOf(c.elements));
    ElementsOfValuesOf(c.elements, l);
    WriteLength(ValuesOf(c.elements), ListShape(|c.elements|, l));
    HeaderListPadding(MarshalHeader(c.header), eb, c.header.padding, tail, Marshal(c) + tail, ListEnd(c.header, l));
  }

  /** A well-formed cell encodes to exactly its size. */
  lemma MarshalLength(c: IndexCell, l: Layout)
    requires Valid(c, l)
    ensures |Marshal(c)| == Size(c.header)
  {
    ElementsOfValuesOf(c.elements, l);
    WriteLength(ValuesOf(c.elements), ListShape(|c.elements|, l));
  }

  lemma HeaderListPadding(hb: seq<byte>, eb: seq<byte>, pad: seq<byte>, tail: seq<byte>, s: seq<byte>, k: nat)
    requires |hb| == HCellDataSize && k == |eb| && s == hb + eb + pad + tail
    ensures s[..HCellDataSize] == hb + []
    ensures s[HCellDataSize..] == eb + (pad + tail)
    ensures s[HCellDataSize..][k..k + |pad|] == pad
  {
    assert s == hb + (eb + (pad + tail));
    assert (eb + (pad + tail))[|eb|..|eb| + |pad|] == pad;
  }

  /** Unmarshal when every check passes. */
  lemma UnmarshalOk(data: seq<byte>, l: Layout, vs: seq<Value>, p: seq<byte>)
    requires |data| >= HCellDataSize
    requires Size(HeaderOf(data)) <= |data|
    requires Read(data[HCellDataSize..], ListShape(HeaderOf(data).metadata, l)) == Ok(vs)
    requires 0 <= PaddingLength(HeaderOf(data), l)
    requires ListEnd(HeaderOf(data), l) + PaddingLength(HeaderOf(data), l) <= |data| - HCellDataSize
    requires p == data[HCellDataSize..][ListEnd(HeaderOf(data), l)..ListEnd(HeaderOf(data), l) + PaddingLength(HeaderOf(data), l)]
    ensures Conforms(vs, ListShape(HeaderOf(data).metadata, l))
    ensures Unmarshal(data, l) == Ok(IndexCell(HeaderOf(data).(padding := p), ElementsOf(vs, HeaderOf(data).metadata, l)))
  {
  }

  /** The bytes of a list of three elements. */
  lemma WriteThree(a: Element, b: Element, c: Element)
    ensures Write(ValuesOf([a, b, c])) == EncodeElement(a) + EncodeElement(b) + EncodeElement(c)
  {
    var vs := ValuesOf([a, b, c]);
    assert vs == [Bytes(EncodeElement(a)), Bytes(EncodeElement(b)), Bytes(EncodeElement(c))];
    assert Write(vs[2..]) == EncodeElement(c) by {
      assert vs[2..][1..] == [];
    }
    assert vs[1..][1..] == vs[2..];
    assert Write(vs[1..]) == EncodeElement(b) + EncodeElement(c);
  }

  /** The int32 of four little-endian bytes whose top bit is clear. */
  lemma Int32AtPositive(b: seq<byte>)
    requires |b| == 4 && b[3] < 0x80
    ensures Int32At(b, 0) == b[0] + 0x100 * b[1] as int + 0x1_0000 * b[2] as int + 0x100_0000 * b[3] as int
  {
    assert b[0..4] == b;
    LeUintOfFour(b);
    Pow256Values();
  }

  /** The index leaf of three offsets, the middle one spelling "SLCK", and
      four bytes of padding; it decodes and re-encodes unchanged. */
  lemma IndexLeafVector()
    ensures Unmarshal(IndexLeafRecord(), Offsets) == Ok(IndexLeaf()) && Marshal(IndexLeaf()) == IndexLeafRecord()
  {
    IndexLeafBytes();
    UnmarshalMarshal(IndexLeaf(), Offsets, []);
    AppendEmpty(Marshal(IndexLeaf()));
  }

  lemma IndexLeafBytes()
    ensures Valid(IndexLeaf(), Offsets) && Marshal(IndexLeaf()) == IndexLeafRecord()
  {
    IndexLeafValid();
    HeaderBytes(IndexLeafHeader(), IndexLeaf().header);
    IndexLeafElements();
  }

  lemma IndexLeafValid()
    ensures Valid(IndexLeaf(), Offsets)
  {
    assert Size(IndexLeaf().header) == IndexLeaf().header.blockSize;
  }

  lemma IndexLeafElements()
    ensures Write(ValuesOf(IndexLeaf().elements)) == IndexLeafList()
  {
    var es := IndexLeaf().elements;
    OffsetBytes([0, 0, 0, 0], 0);
    OffsetBytes([0x53, 0x4c, 0x43, 0x4b], 1262701651);
    WriteThree(es[0], es[1], es[2]);
  }

  /** An offset element is the little-endian bytes of its offset. */
  lemma OffsetBytes(o: seq<byte>, offset: int32)
    requires |o| == 4 && o[3] < 0x80
    requires offset == o[0] + 0x100 * o[1] as int + 0x1_0000 * o[2] as int + 0x100_0000 * o[3] as int
    ensures EncodeElement(OffsetElement(offset)) == o
  {
    Int32AtPositive(o);
    EncodeDecodeElement(o, Offsets);
  }

  function IndexLeaf(): (c: IndexCell) {
    IndexCell(HCellData(24, [0x6c, 0x69], 3, 0, [0, 0, 0, 0]),
              [OffsetElement(0), OffsetElement(1262701651), OffsetElement(0)])
  }

  /** The 24-byte index leaf record: header, three offsets, padding. */
  function IndexLeafRecord(): (data: seq<byte>) {
    IndexLeafHeader() + IndexLeafList() + [0, 0, 0, 0]
  }

  function IndexLeafHeader(): (data: seq<byte>) {
    [0x18, 0, 0, 0, 0x6c, 0x69, 0x03, 0x00]
  }

  function IndexLeafList(): (data: seq<byte>) {
    [0, 0, 0, 0] + [0x53, 0x4c, 0x43, 0x4b] + [0, 0, 0, 0]
  }

  /** The fast leaf of three named elements and eight bytes of padding; it
      decodes and re-encodes unchanged. */
  lemma FastLeafVector()
    ensures Unmarshal(FastLeafRecord(), NamedOffsets) == Ok(FastLeaf()) && Marshal(FastLeaf()) == FastLeafRecord()
  {
    FastLeafBytes();
    UnmarshalMarshal(FastLeaf(), NamedOffsets, []);
    AppendEmpty(Marshal(FastLeaf()));
  }

  lemma FastLeafBytes()
    ensures Valid(FastLeaf(), NamedOffsets) && Marshal(FastLeaf()) == FastLeafRecord()
  {
    FastLeafValid();
    HeaderBytes(FastLeafHeader(), FastLeaf().header);
    FastLeafElements();
  }

  lemma FastLeafValid()
    ensures Valid(FastLeaf(), NamedOffsets)
  {
    assert Size(FastLeaf().header) == FastLeaf().header.blockSize;
  }

  lemma FastLeafElements()
    ensures Write(ValuesOf(FastLeaf().elements)) == FastLeafList()
  {
    var es := FastLeaf().elements;
    NamedBytes([0, 0, 0, 0], 0, [0x53, 0x4c, 0x43, 0x4b]);
    NamedBytes([0x53, 0x4c, 0x43, 0x4b], 1262701651, [0, 0, 0, 0]);
    NamedBytes([2, 0, 0, 0], 2, [0, 0, 0, 3]);
    WriteThree(es[0], es[1], es[2]);
  }

  /** A named element is its offset's little-endian bytes followed by its
      name. */
  lemma NamedBytes(o: seq<byte>, offset: int32, name: seq<byte>)
    requires |o| == 4 && o[3] < 0x80 && |name| == 4
    requires offset == o[0] + 0x100 * o[1] as int + 0x1_0000 * o[2] as int + 0x100_0000 * o[3] as int
    ensures EncodeElement(NamedElement(offset, name)) == o + name
  {
    Int32AtPositive(o);
    EncodeDecodeElement(o + name, NamedOffsets);
    assert (o + name)[0..4] == o[0..4] && (o + name)[4..8] == name;
  }

  function FastLeaf(): (c: IndexCell) {
    IndexCell(HCellData(40, [0x6c, 0x66], 3, 0, [0, 0, 0, 0, 0, 0, 0, 0]),
              [NamedElement(0, [0x53, 0x4c, 0x43, 0x4b]),
               NamedElement(1262701651, [0, 0, 0, 0]),
               NamedElement(2, [0, 0, 0, 3])])
  }

  /** The 40-byte fast leaf record: header, three offset and name-hint
      pairs, padding. */
  function FastLeafRecord(): (data: seq<byte>) {
    FastLeafHeader() + FastLeafList() + [0, 0, 0, 0, 0, 0, 0, 0]
  }

  function FastLeafHeader(): (data: seq<byte>) {
    [0x28, 0, 0, 0, 0x6c, 0x66, 0x03, 0x00]
  }

  function FastLeafList(): (data: seq<byte>) {
    ([0, 0, 0, 0] + [0x53, 0x4c, 0x43, 0x4b])
    + ([0x53, 0x4c, 0x43, 0x4b] + [0, 0, 0, 0])
    + ([2, 0, 0, 0] + [0, 0, 0, 3])
  }
}
