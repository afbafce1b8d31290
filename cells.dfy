/**
 * Cell dispatch (UnmarshalHCell): a cell buffer must be non-empty and a
 * multiple of 8 bytes long; its signature bytes 4..6 choose the cell type,
 * and any other signature makes it a raw data record.
 */
module Cells {
  import opened Results
  import opened Binary
  import HCells
  import IndexCells
  import KeyNodes
  import KeyValues
  import KeySecurities
  import BigDatas

  const IndexLeafTag: seq<byte> := [0x6c, 0x69]    // "li"
  const FastLeafTag: seq<byte> := [0x6c, 0x66]     // "lf"
  const HashLeafTag: seq<byte> := [0x6c, 0x68]     // "lh"
  const IndexRootTag: seq<byte> := [0x72, 0x69]    // "ri"
  const KeyNodeTag: seq<byte> := [0x6e, 0x6b]      // "nk"
  const KeyValueTag: seq<byte> := [0x76, 0x6b]     // "vk"
  const KeySecurityTag: seq<byte> := [0x73, 0x6b]  // "sk"
  const BigDataTag: seq<byte> := [0x64, 0x62]      // "db"

  /** The cell types UnmarshalHCell can produce. */
  datatype CellType =
    | IndexLeafType | FastLeafType | HashLeafType | IndexRootType
    | KeyNodeType | KeyValueType | KeySecurityType | BigDataType
    | DataRecordType

  /** The signature of each cell type; a data record has none. */
  function Signature(t: CellType): (sig: seq<byte>)
    requires t != DataRecordType
    ensures |sig| == 2
  {
    match t
    case IndexLeafType => IndexLeafTag
    case FastLeafType => FastLeafTag
    case HashLeafType => HashLeafTag
    case IndexRootType => IndexRootTag
    case KeyNodeType => KeyNodeTag
    case KeyValueType => KeyValueTag
    case KeySecurityType => KeySecurityTag
    case BigDataType => BigDataTag
  }

  /** Whether a two-byte signature field holds the given signature. */
  predicate Names(tag: seq<byte>, sig: seq<byte>)
    requires |tag| == 2 && |sig| == 2
  {
    tag[0] == sig[0] && tag[1] == sig[1]
  }

  /** The cell type a signature field selects. */
  function TypeOf(tag: seq<byte>): CellType
    requires |tag| == 2
  {
    if Names(tag, IndexLeafTag) then IndexLeafType
    else if Names(tag, FastLeafTag) then FastLeafType
    else if Names(tag, HashLeafTag) then HashLeafType
    else if Names(tag, IndexRootTag) then IndexRootType
    else if Names(tag, KeyNodeTag) then KeyNodeType
    else if Names(tag, KeyValueTag) then KeyValueType
    else if Names(tag, KeySecurityTag) then KeySecurityType
    else if Names(tag, BigDataTag) then BigDataType
    else DataRecordType
  }

  /** Each signature selects its own cell type ... */
  lemma TypeOfSignature(t: CellType)
    requires t != DataRecordType
    ensures TypeOf(Signature(t)) == t
  {
  }

  /** ... and only its own signature selects a cell type other than a data
      record. */
  lemma SignatureOfType(tag: seq<byte>)
    requires |tag| == 2 && TypeOf(tag) != DataRecordType
    ensures Signature(TypeOf(tag)) == tag
  {
    assert tag == [tag[0], tag[1]];
  }

  /** A decoded cell (the HCell interface): one constructor per cell type. */
  datatype Cell =
    | IndexLeaf(list: IndexCells.IndexCell)
    | FastLeaf(list: IndexCells.IndexCell)
    | HashLeaf(list: IndexCells.IndexCell)
    | IndexRoot(list: IndexCells.IndexCell)
    | KeyNode(node: KeyNodes.KeyNode)
    | KeyValue(value: KeyValues.KeyValue)
    | KeySecurity(security: KeySecurities.KeySecurity)
    | BigData(bigData: BigDatas.BigData)
    | DataRecord(record: HCells.DataRecord)

  /** The type of a cell. */
  function TypeOfCell(c: Cell): CellType {
    match c
    case IndexLeaf(_) => IndexLeafType
    case FastLeaf(_) => FastLeafType
    case HashLeaf(_) => HashLeafType
    case IndexRoot(_) => IndexRootType
    case KeyNode(_) => KeyNodeType
    case KeyValue(_) => KeyValueType
    case KeySecurity(_) => KeySecurityType
    case BigData(_) => BigDataType
    case DataRecord(_) => DataRecordType
  }

  /** The HCellData every cell type embeds. */
  function Header(c: Cell): HCells.HCellData {
    match c
    case IndexLeaf(x) => x.header
    case FastLeaf(x) => x.header
    case HashLeaf(x) => x.header
    case IndexRoot(x) => x.header
    case KeyNode(x) => x.header
    case KeyValue(x) => x.header
    case KeySecurity(x) => x.header
    case BigData(x) => x.header
    case DataRecord(x) => x.header
  }

  /** The element layout of the index cell types. */
  function LayoutOf(t: CellType): IndexCells.Layout
    requires t in {IndexLeafType, FastLeafType, HashLeafType, IndexRootType}
  {
    if t == IndexLeafType || t == IndexRootType then IndexCells.Offsets else IndexCells.NamedOffsets
  }

  /** The guard shared by UnmarshalBlock and UnmarshalHCell. */
  predicate Aligned(data: seq<byte>) {
    |data| != 0 && |data| % 8 == 0
  }

  /** What every successfully decoded cell satisfies: a two-byte signature,
      no parent bin yet, and a size, read from the first four bytes, within
      the buffer it came from. */
  predicate Decoded(c: Cell, data: seq<byte>) {
    && HCells.ValidHeader(Header(c))
    && Header(c).parentHBinOffset == 0
    && HCells.Size(Header(c)) <= |data|
    && |data| >= HCells.HCellSizeLength
    && Header(c).blockSize == Int32At(data, 0)
  }

  /** The unmarshal method of the given cell type. */
  function UnmarshalAs(t: CellType, data: seq<byte>): (r: Result<Cell>)
  {
    match t
    case IndexLeafType => UnmarshalList(IndexLeafType, data)
    case FastLeafType => UnmarshalList(FastLeafType, data)
    case HashLeafType => UnmarshalList(HashLeafType, data)
    case IndexRootType => UnmarshalList(IndexRootType, data)
    case KeyNodeType => UnmarshalKeyNode(data)
    case KeyValueType => UnmarshalKeyValue(data)
    case KeySecurityType => UnmarshalKeySecurity(data)
    case BigDataType => UnmarshalBigData(data)
    case DataRecordType => UnmarshalRecord(data)
  }

  /** The index cell of the given type. */
  function ListCell(t: CellType, x: IndexCells.IndexCell): (c: Cell)
    requires t in {IndexLeafType, FastLeafType, HashLeafType, IndexRootType}
    ensures TypeOfCell(c) == t && c.list == x
  {
    match t
    case IndexLeafType => IndexLeaf(x)
    case FastLeafType => FastLeaf(x)
    case HashLeafType => HashLeaf(x)
    case IndexRootType => IndexRoot(x)
  }

  /** IndexLeaf, FastLeaf, HashLeaf and IndexRoot unmarshal: the same list
      decoder with the type's element layout. */
  function UnmarshalList(t: CellType, data: seq<byte>): (r: Result<Cell>)
    requires t in {IndexLeafType, FastLeafType, HashLeafType, IndexRootType}
    ensures r.Ok? ==> TypeOfCell(r.value) == t && Decoded(r.value, data)
  {
    HCells.HeaderOfBlockSize(data);
    var x :- IndexCells.Unmarshal(data, LayoutOf(t));
    Ok(ListCell(t, x))
  }

  function UnmarshalKeyNode(data: seq<byte>): (r: Result<Cell>)
    ensures r.Ok? ==> r.value.KeyNode? && Decoded(r.value, data)
  {
    HCells.HeaderOfBlockSize(data);
    var x :- KeyNodes.Unmarshal(data); Ok(KeyNode(x))
  }

  function UnmarshalKeyValue(data: seq<byte>): (r: Result<Cell>)
    ensures r.Ok? ==> r.value.KeyValue? && Decoded(r.value, data)
  {
    HCells.HeaderOfBlockSize(data);
    var x :- KeyValues.Unmarshal(data); Ok(KeyValue(x))
  }

  function UnmarshalKeySecurity(data: seq<byte>): (r: Result<Cell>)
    ensures r.Ok? ==> r.value.KeySecurity? && Decoded(r.value, data)
  {
    HCells.HeaderOfBlockSize(data);
    var x :- KeySecurities.Unmarshal(data); Ok(KeySecurity(x))
  }

  function UnmarshalBigData(data: seq<byte>): (r: Result<Cell>)
    ensures r.Ok? ==> r.value.BigData? && Decoded(r.value, data)
  {
    HCells.HeaderOfBlockSize(data);
    var x :- BigDatas.Unmarshal(data); Ok(BigData(x))
  }

  function UnmarshalRecord(data: seq<byte>): (r: Result<Cell>)
    ensures r.Ok? ==> r.value.DataRecord? && Decoded(r.value, data)
  {
    var x :- HCells.UnmarshalDataRecord(data); Ok(DataRecord(x))
  }

  /** UnmarshalHCell: rejects an empty or unaligned buffer, then decodes it
      as the cell type its signature names. */
  function UnmarshalHCell(data: seq<byte>): (r: Result<Cell>)
    ensures !Aligned(data) ==> r == Err(InvalidBlock)
    ensures r.Ok? ==> Aligned(data) && Decoded(r.value, data)
    ensures r.Ok? ==> TypeOfCell(r.value) == TypeOf(data[4..6])
  {
    if !Aligned(data) then Err(InvalidBlock)
    else UnmarshalAs(TypeOf(data[4..6]), data)
  }

  /** The cell's marshal method. */
  function MarshalCell(c: Cell): seq<byte>
    requires HCells.ValidHeader(Header(c))
  {
    match c
    case IndexLeaf(x) => IndexCells.Marshal(x)
    case FastLeaf(x) => IndexCells.Marshal(x)
    case HashLeaf(x) => IndexCells.Marshal(x)
    case IndexRoot(x) => IndexCells.Marshal(x)
    case KeyNode(x) => KeyNodes.Marshal(x)
    case KeyValue(x) => KeyValues.Marshal(x)
    case KeySecurity(x) => KeySecurities.Marshal(x)
    case BigData(x) => BigDatas.Marshal(x)
    case DataRecord(x) => HCells.MarshalDataRecord(x)
  }

  /** The cell's setOffset: stamps its offset within the bin. */
  function SetCellOffset(c: Cell, offset: int32): (r: Cell)
    ensures Header(r) == HCells.SetOffset(Header(c), offset)
    ensures TypeOfCell(r) == TypeOfCell(c)
  {
    var h := HCells.SetOffset(Header(c), offset);
    match c
    case IndexLeaf(x) => IndexLeaf(x.(header := h))
    case FastLeaf(x) => FastLeaf(x.(header := h))
    case HashLeaf(x) => HashLeaf(x.(header := h))
    case IndexRoot(x) => IndexRoot(x.(header := h))
    case KeyNode(x) => KeyNode(x.(header := h))
    case KeyValue(x) => KeyValue(x.(header := h))
    case KeySecurity(x) => KeySecurity(x.(header := h))
    case BigData(x) => BigData(x.(header := h))
    case DataRecord(x) => DataRecord(x.(header := h))
  }

  /** The offset is bookkeeping: it is not part of the encoding. */
  lemma MarshalIgnoresOffset(c: Cell, offset: int32)
    requires HCells.ValidHeader(Header(c))
    ensures MarshalCell(SetCellOffset(c, offset)) == MarshalCell(c)
  {
    assert HCells.HeaderValues(Header(SetCellOffset(c, offset))) == HCells.HeaderValues(Header(c));
  }

  /** A cell that decodes from its own encoding: each part consistent with
      the header, the signature naming the cell type (a data record's first
      payload bytes naming none), and a non-empty size that is a multiple
      of eight. */
  predicate ValidCell(c: Cell) {
    && HCells.ValidHeader(Header(c))
    && (match c
        case IndexLeaf(x) => IndexCells.Valid(x, IndexCells.Offsets)
        case FastLeaf(x) => IndexCells.Valid(x, IndexCells.NamedOffsets)
        case HashLeaf(x) => IndexCells.Valid(x, IndexCells.NamedOffsets)
        case IndexRoot(x) => IndexCells.Valid(x, IndexCells.Offsets)
        case KeyNode(x) => KeyNodes.Valid(x)
        case KeyValue(x) => KeyValues.Valid(x)
        case KeySecurity(x) => KeySecurities.Valid(x)
        case BigData(x) => BigDatas.Valid(x)
        case DataRecord(x) =>
          && x.header == HCells.SizeOnlyHeader(x.header.blockSize)
          && HCells.Size(x.header) == HCells.HCellSizeLength + |x.data|
          && |x.data| >= 2
          && TypeOf(x.data[..2]) == DataRecordType)
    && (!c.DataRecord? ==> Header(c).signature == Signature(TypeOfCell(c)))
    && HCells.Size(Header(c)) != 0
    && HCells.Size(Header(c)) % 8 == 0
  }

  /** A valid cell encodes to exactly its size. */
  lemma MarshalLength(c: Cell)
    requires ValidCell(c)
    ensures |MarshalCell(c)| == HCells.Size(Header(c))
  {
    match c
    case IndexLeaf(x) => IndexCells.MarshalLength(x, IndexCells.Offsets);
    case FastLeaf(x) => IndexCells.MarshalLength(x, IndexCells.NamedOffsets);
    case HashLeaf(x) => IndexCells.MarshalLength(x, IndexCells.NamedOffsets);
    case IndexRoot(x) => IndexCells.MarshalLength(x, IndexCells.Offsets);
    case KeyNode(x) =>
    case KeyValue(x) =>
    case KeySecurity(x) =>
    case BigData(x) =>
    case DataRecord(x) =>
  }

  /** A valid cell's encoding starts with its size field. */
  lemma EncodedBlockSize(c: Cell)
    requires ValidCell(c)
    ensures |MarshalCell(c)| >= HCells.HCellSizeLength
    ensures Int32At(MarshalCell(c), 0) == Header(c).blockSize
  {
    UnmarshalMarshalCell(c);
  }

  /** Stamping a cell with offset 0 and then with its own offset gives it
      back. */
  lemma Restamp(c: Cell)
    ensures SetCellOffset(SetCellOffset(c, 0), Header(c).parentHBinOffset) == c
  {
  }

  /** UnmarshalHCell hands an aligned buffer to the arm its signature
      selects. */
  lemma Dispatch(d: seq<byte>, t: CellType, c: Cell)
    requires Aligned(d) && TypeOf(d[4..6]) == t && UnmarshalAs(t, d) == Ok(c)
    ensures UnmarshalHCell(d) == Ok(c)
  {
  }

  /** A valid cell decodes from its own encoding. */
  lemma UnmarshalMarshalCell(c: Cell)
    requires ValidCell(c)
    ensures UnmarshalHCell(MarshalCell(c)) == Ok(c)
  {
    var d := MarshalCell(c);
    MarshalLength(c);
    if !c.DataRecord? {
      TypeOfSignature(TypeOfCell(c));
    }
    EncodedAs(c);
    Dispatch(d, TypeOfCell(c), c);
  }

  /** The encoding of a valid cell carries the signature that selects its
      type, and the arm for that type decodes it. */
  lemma EncodedAs(c: Cell)
    requires ValidCell(c)
    ensures |MarshalCell(c)| >= 6
    ensures !c.DataRecord? ==> MarshalCell(c)[4..6] == Header(c).signature
    ensures c.DataRecord? ==> MarshalCell(c)[4..6] == c.record.data[..2]
    ensures UnmarshalAs(TypeOfCell(c), MarshalCell(c)) == Ok(c)
  {
    match c
    case IndexLeaf(x) => EncodedList(x, LayoutOf(IndexLeafType)); ToListArm(IndexLeafType, IndexCells.Marshal(x), x);
    case FastLeaf(x) => EncodedList(x, LayoutOf(FastLeafType)); ToListArm(FastLeafType, IndexCells.Marshal(x), x);
    case HashLeaf(x) => EncodedList(x, LayoutOf(HashLeafType)); ToListArm(HashLeafType, IndexCells.Marshal(x), x);
    case IndexRoot(x) => EncodedList(x, LayoutOf(IndexRootType)); ToListArm(IndexRootType, IndexCells.Marshal(x), x);
    case KeyNode(x) => EncodedKeyNode(x); ToKeyNodeArm(KeyNodes.Marshal(x), x);
    case KeyValue(x) => EncodedKeyValue(x); ToKeyValueArm(KeyValues.Marshal(x), x);
    case KeySecurity(x) => EncodedKeySecurity(x); ToKeySecurityArm(KeySecurities.Marshal(x), x);
    case BigData(x) => EncodedBigData(x); ToBigDataArm(BigDatas.Marshal(x), x);
    case DataRecord(x) => EncodedRecord(x); ToRecordArm(HCells.MarshalDataRecord(x), x);
  }

  lemma EncodedKeyNode(x: KeyNodes.KeyNode)
    requires KeyNodes.Valid(x)
    ensures |KeyNodes.Marshal(x)| >= HCells.HCellDataSize
    ensures KeyNodes.Marshal(x)[4..6] == x.header.signature
    ensures KeyNodes.Unmarshal(KeyNodes.Marshal(x)) == Ok(x)
  {
    var d := KeyNodes.Marshal(x);
    KeyNodes.HeaderFirst(x);
    HCells.HeaderTag(x.header, d);
    KeyNodes.UnmarshalMarshal(x, []);
    AppendEmpty(d);
  }

  lemma ToKeyNodeArm(d: seq<byte>, x: KeyNodes.KeyNode)
    requires KeyNodes.Unmarshal(d) == Ok(x)
    ensures UnmarshalAs(KeyNodeType, d) == Ok(KeyNode(x))
  {
  }

  lemma EncodedKeyValue(x: KeyValues.KeyValue)
    requires KeyValues.Valid(x)
    ensures |KeyValues.Marshal(x)| >= HCells.HCellDataSize
    ensures KeyValues.Marshal(x)[4..6] == x.header.signature
    ensures KeyValues.Unmarshal(KeyValues.Marshal(x)) == Ok(x)
  {
    var d := KeyValues.Marshal(x);
    KeyValues.HeaderFirst(x);
    HCells.HeaderTag(x.header, d);
    KeyValues.UnmarshalMarshal(x, []);
    AppendEmpty(d);
  }

  lemma ToKeyValueArm(d: seq<byte>, x: KeyValues.KeyValue)
    requires KeyValues.Unmarshal(d) == Ok(x)
    ensures UnmarshalAs(KeyValueType, d) == Ok(KeyValue(x))
  {
  }

  lemma EncodedKeySecurity(x: KeySecurities.KeySecurity)
    requires KeySecurities.Valid(x)
    ensures |KeySecurities.Marshal(x)| >= HCells.HCellDataSize
    ensures KeySecurities.Marshal(x)[4..6] == x.header.signature
    ensures KeySecurities.Unmarshal(KeySecurities.Marshal(x)) == Ok(x)
  {
    var d := KeySecurities.Marshal(x);
    KeySecurities.HeaderFirst(x);
    HCells.HeaderTag(x.header, d);
    KeySecurities.UnmarshalMarshal(x, []);
    AppendEmpty(d);
  }

  lemma ToKeySecurityArm(d: seq<byte>, x: KeySecurities.KeySecurity)
    requires KeySecurities.Unmarshal(d) == Ok(x)
    ensures UnmarshalAs(KeySecurityType, d) == Ok(KeySecurity(x))
  {
  }

  lemma EncodedBigData(x: BigDatas.BigData)
    requires BigDatas.Valid(x)
    ensures |BigDatas.Marshal(x)| >= HCells.HCellDataSize
    ensures BigDatas.Marshal(x)[4..6] == x.header.signature
    ensures BigDatas.Unmarshal(BigDatas.Marshal(x)) == Ok(x)
  {
    var d := BigDatas.Marshal(x);
    BigDatas.HeaderFirst(x);
    HCells.HeaderTag(x.header, d);
    BigDatas.UnmarshalMarshal(x, []);
    AppendEmpty(d);
  }

  lemma ToBigDataArm(d: seq<byte>, x: BigDatas.BigData)
    requires BigDatas.Unmarshal(d) == Ok(x)
    ensures UnmarshalAs(BigDataType, d) == Ok(BigData(x))
  {
  }

  lemma EncodedList(x: IndexCells.IndexCell, l: IndexCells.Layout)
    requires IndexCells.Valid(x, l)
    ensures |IndexCells.Marshal(x)| >= HCells.HCellDataSize
    ensures IndexCells.Marshal(x)[4..6] == x.header.signature
    ensures IndexCells.Unmarshal(IndexCells.Marshal(x), l) == Ok(x)
  {
    var d := IndexCells.Marshal(x);
    IndexCells.HeaderFirst(x);
    IndexCells.MarshalLength(x, l);
    HCells.HeaderTag(x.header, d);
    IndexCells.UnmarshalMarshal(x, l, []);
    AppendEmpty(d);
  }

  lemma ToListArm(t: CellType, d: seq<byte>, x: IndexCells.IndexCell)
    requires t in {IndexLeafType, FastLeafType, HashLeafType, IndexRootType}
    requires IndexCells.Unmarshal(d, LayoutOf(t)) == Ok(x)
    ensures UnmarshalAs(t, d) == Ok(ListCell(t, x))
  {
  }

  lemma EncodedRecord(x: HCells.DataRecord)
    requires x.header == HCells.SizeOnlyHeader(x.header.blockSize)
    requires HCells.Size(x.header) == HCells.HCellSizeLength + |x.data| && |x.data| >= 2
    ensures |HCells.MarshalDataRecord(x)| >= 6
    ensures HCells.MarshalDataRecord(x)[4..6] == x.data[..2]
    ensures HCells.UnmarshalDataRecord(HCells.MarshalDataRecord(x)) == Ok(x)
  {
    var d := HCells.MarshalDataRecord(x);
    HCells.UnmarshalMarshalDataRecord(x, []);
    AppendEmpty(d);
  }

  lemma ToRecordArm(d: seq<byte>, x: HCells.DataRecord)
    requires HCells.UnmarshalDataRecord(d) == Ok(x)
    ensures UnmarshalAs(DataRecordType, d) == Ok(DataRecord(x))
  {
  }

  /** A cell read from a buffer of exactly its own size re-encodes to that
      buffer. */
  lemma MarshalUnmarshalCell(data: seq<byte>)
    requires UnmarshalHCell(data).Ok?
    requires HCells.Size(Header(UnmarshalHCell(data).value)) == |data|
    ensures MarshalCell(UnmarshalHCell(data).value) == data
  {
    MarshalUnmarshalAs(TypeOf(data[4..6]), data, UnmarshalHCell(data).value);
  }

  lemma MarshalUnmarshalAs(t: CellType, data: seq<byte>, c: Cell)
    requires UnmarshalAs(t, data) == Ok(c)
    requires HCells.Size(Header(c)) == |data|
    ensures MarshalCell(c) == data
  {
    match t
    case IndexLeafType => MarshalUnmarshalList(t, data, c);
    case FastLeafType => MarshalUnmarshalList(t, data, c);
    case HashLeafType => MarshalUnmarshalList(t, data, c);
    case IndexRootType => MarshalUnmarshalList(t, data, c);
    case KeyNodeType => MarshalUnmarshalKeyNode(data, c);
    case KeyValueType => MarshalUnmarshalKeyValue(data, c);
    case KeySecurityType => MarshalUnmarshalKeySecurity(data, c);
    case BigDataType => MarshalUnmarshalBigData(data, c);
    case DataRecordType => MarshalUnmarshalRecord(data, c);
  }

  lemma MarshalUnmarshalList(t: CellType, data: seq<byte>, c: Cell)
    requires t in {IndexLeafType, FastLeafType, HashLeafType, IndexRootType}
    requires UnmarshalAs(t, data) == Ok(c)
    requires HCells.Size(Header(c)) == |data|
    ensures MarshalCell(c) == data
  {
    FromListArm(t, data, c);
    IndexCells.MarshalUnmarshalExact(data, LayoutOf(t));
  }

  lemma FromListArm(t: CellType, d: seq<byte>, c: Cell)
    requires t in {IndexLeafType, FastLeafType, HashLeafType, IndexRootType}
    requires UnmarshalAs(t, d) == Ok(c)
    ensures IndexCells.Unmarshal(d, LayoutOf(t)) == Ok(c.list)
    ensures c == ListCell(t, c.list)
  {
  }

  lemma MarshalUnmarshalKeyNode(data: seq<byte>, c: Cell)
    requires UnmarshalAs(KeyNodeType, data) == Ok(c)
    requires HCells.Size(Header(c)) == |data|
    ensures MarshalCell(c) == data
  {
    FromKeyNodeArm(data, c);
    KeyNodes.MarshalUnmarshal(data);
  }

  lemma FromKeyNodeArm(d: seq<byte>, c: Cell)
    requires UnmarshalAs(KeyNodeType, d) == Ok(c)
    ensures c.KeyNode? && KeyNodes.Unmarshal(d) == Ok(c.node)
  {
  }

  lemma MarshalUnmarshalKeyValue(data: seq<byte>, c: Cell)
    requires UnmarshalAs(KeyValueType, data) == Ok(c)
    requires HCells.Size(Header(c)) == |data|
    ensures MarshalCell(c) == data
  {
    FromKeyValueArm(data, c);
    KeyValues.MarshalUnmarshal(data);
  }

  lemma FromKeyValueArm(d: seq<byte>, c: Cell)
    requires UnmarshalAs(KeyValueType, d) == Ok(c)
    ensures c.KeyValue? && KeyValues.Unmarshal(d) == Ok(c.value)
  {
  }

  lemma MarshalUnmarshalKeySecurity(data: seq<byte>, c: Cell)
    requires UnmarshalAs(KeySecurityType, data) == Ok(c)
    requires HCells.Size(Header(c)) == |data|
    ensures MarshalCell(c) == data
  {
    FromKeySecurityArm(data, c);
    KeySecurities.MarshalUnmarshal(data);
  }

  lemma FromKeySecurityArm(d: seq<byte>, c: Cell)
    requires UnmarshalAs(KeySecurityType, d) == Ok(c)
    ensures c.KeySecurity? && KeySecurities.Unmarshal(d) == Ok(c.security)
  {
  }

  lemma MarshalUnmarshalBigData(data: seq<byte>, c: Cell)
    requires UnmarshalAs(BigDataType, data) == Ok(c)
    requires HCells.Size(Header(c)) == |data|
    ensures MarshalCell(c) == data
  {
    FromBigDataArm(data, c);
    BigDatas.MarshalUnmarshal(data);
  }

  lemma FromBigDataArm(d: seq<byte>, c: Cell)
    requires UnmarshalAs(BigDataType, d) == Ok(c)
    ensures c.BigData? && BigDatas.Unmarshal(d) == Ok(c.bigData)
  {
  }

  lemma MarshalUnmarshalRecord(data: seq<byte>, c: Cell)
    requires UnmarshalAs(DataRecordType, data) == Ok(c)
    requires HCells.Size(Header(c)) == |data|
    ensures MarshalCell(c) == data
  {
    FromRecordArm(data, c);
    HCells.MarshalUnmarshalDataRecord(data);
  }

  lemma FromRecordArm(d: seq<byte>, c: Cell)
    requires UnmarshalAs(DataRecordType, d) == Ok(c)
    ensures c.DataRecord? && HCells.UnmarshalDataRecord(d) == Ok(c.record)
  {
  }
}
