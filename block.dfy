/**
 * The entry points of the block codec: UnmarshalBlock picks the block type
 * from the first four bytes, and Marshal encodes any block.
 */
module Blocks {
  import opened Results
  import opened Binary
  import BaseBlocks
  import HCells
  import Cells
  import HBins

  /** The wire tags that select a base block and a bin. */
  const RegfTag: seq<byte> := [0x72, 0x65, 0x67, 0x66]
  const HbinTag: seq<byte> := [0x68, 0x62, 0x69, 0x6e]

  /** The blocks UnmarshalBlock can return: the base block, a bin or a cell. */
  datatype Block =
    | Base(base: BaseBlocks.BaseBlock)
    | Bin(bin: HBins.HBin)
    | Cell(cell: Cells.Cell)

  /** UnmarshalBlock: an empty or unaligned buffer is rejected; "regf"
      selects the base block, "hbin" a bin and anything else a cell. The
      buffer's capacity is taken to be its length. */
  function UnmarshalBlock(data: seq<byte>): (r: Result<Block>)
    ensures !Cells.Aligned(data) ==> r == Err(InvalidBlock)
    ensures r.Ok? ==> Cells.Aligned(data)
    ensures r.Ok? ==> (r.value.Base? <==> data[..4] == RegfTag)
    ensures r.Ok? ==> (r.value.Bin? <==> data[..4] == HbinTag)
    ensures r.Ok? ==> Encodable(r.value)
  {
    if !Cells.Aligned(data) then Err(InvalidBlock)
    else if data[..4] == RegfTag then
      var b :- BaseBlocks.Unmarshal(data);
      Ok(Base(b))
    else if data[..4] == HbinTag then
      var b :- HBins.UnmarshalBin(data);
      HBins.MarshalUnmarshalBin(data);
      Ok(Bin(b))
    else
      var c :- Cells.UnmarshalHCell(data);
      Ok(Cell(c))
  }

  /** The blocks Marshal can encode: a two-byte tag on every cell. */
  predicate Encodable(b: Block) {
    match b
    case Base(x) => BaseBlocks.Valid(x)
    case Bin(x) => HBins.Encodable(x.cells)
    case Cell(x) => HCells.ValidHeader(Cells.Header(x))
  }

  /** Marshal: the block's own marshal method. */
  function Marshal(b: Block): (out: seq<byte>)
    requires Encodable(b)
  {
    match b
    case Base(x) => BaseBlocks.Marshal(x)
    case Bin(x) => HBins.MarshalBin(x)
    case Cell(x) => Cells.MarshalCell(x)
  }

  /** The first four bytes of an aligned buffer that starts with "regf" or
      "hbin", read as a cell's int32 size field. */
  lemma TagSizes(data: seq<byte>)
    requires |data| >= HCells.HCellSizeLength
    ensures data[..4] == RegfTag ==> Int32At(data, 0) == 0x6667_6572
    ensures data[..4] == HbinTag ==> Int32At(data, 0) == 0x6e69_6268
  {
  }

  /** A size field that is a multiple of eight and is not "hbin" spells
      neither tag. */
  lemma NotATag(data: seq<byte>)
    requires |data| >= HCells.HCellSizeLength
    requires Int32At(data, 0) % 8 == 0 && Int32At(data, 0) != 0x6e69_6268
    ensures data[..4] != RegfTag && data[..4] != HbinTag
  {
    TagSizes(data);
  }

  /** The tags read as little-endian numbers. */
  lemma TagValues()
    ensures LeUint(RegfTag) == 0x6667_6572 && LeUint(HbinTag) == 0x6e69_6268
  {
    LeUintOfFour(RegfTag);
    LeUintOfFour(HbinTag);
  }

  /** Four bytes whose little-endian value is a tag's value are the tag. */
  lemma TagFromValue(data: seq<byte>, tag: seq<byte>)
    requires |data| >= 4 && |tag| == 4 && LeUint(data[..4]) == LeUint(tag)
    ensures data[..4] == tag
  {
    LeUintInjective(data[..4], tag);
  }

  /** A base block whose header says "regf" comes back from its encoding. */
  lemma UnmarshalMarshalBase(b: BaseBlocks.BaseBlock)
    requires BaseBlocks.Valid(b) && b.regfHeader == 0x6667_6572
    ensures UnmarshalBlock(Marshal(Base(b))) == Ok(Base(b))
  {
    var data := BaseBlocks.Marshal(b);
    AppendEmpty(data);
    BaseBlocks.UnmarshalMarshal(b, []);
    BaseDecodes(data, b);
  }

  /** A buffer the base block decoder reads with a "regf" header is
      dispatched to it. */
  lemma BaseDecodes(data: seq<byte>, b: BaseBlocks.BaseBlock)
    requires |data| == BaseBlocks.BaseBlockSize && BaseBlocks.Unmarshal(data) == Ok(b)
    requires b.regfHeader == 0x6667_6572
    ensures UnmarshalBlock(data) == Ok(Base(b))
  {
    TagValues();
    BaseBlocks.UnmarshalFields(data);
    TagFromValue(data, RegfTag);
    BaseArm(data);
  }

  /** "regf": the buffer goes to the base block decoder. */
  lemma BaseArm(data: seq<byte>)
    requires Cells.Aligned(data) && data[..4] == RegfTag
    ensures BaseBlocks.Unmarshal(data).Ok? ==> UnmarshalBlock(data) == Ok(Base(BaseBlocks.Unmarshal(data).value))
  {
  }

  /** A valid bin whose signature field says "hbin" and whose encoding is a
      whole number of 8-byte units comes back from its encoding. */
  lemma UnmarshalMarshalBin(b: HBins.HBin)
    requires HBins.ValidBin(b) && b.header.signature == 0x6e69_6268
    requires |HBins.MarshalBin(b)| % 8 == 0
    ensures UnmarshalBlock(Marshal(Bin(b))) == Ok(Bin(b))
  {
    var data := HBins.MarshalBin(b);
    AppendEmpty(data);
    HBins.UnmarshalMarshalBin(b, []);
    BinDecodes(data, b);
  }

  /** An aligned buffer the bin decoder reads with an "hbin" signature is
      dispatched to it. */
  lemma BinDecodes(data: seq<byte>, b: HBins.HBin)
    requires |data| % 8 == 0 && HBins.UnmarshalBin(data) == Ok(b)
    requires b.header.signature == 0x6e69_6268
    ensures UnmarshalBlock(data) == Ok(Bin(b))
  {
    BinTag(data, b.header);
    BinArm(data);
  }

  /** Bytes that begin with an encoded bin header whose signature field is
      "hbin" begin with the tag. */
  lemma BinTag(data: seq<byte>, h: HBins.HBinHeader)
    requires |data| >= HBins.HBinHeaderSize && HBins.MarshalHeader(h) == data[..HBins.HBinHeaderSize]
    requires h.signature == 0x6e69_6268
    ensures data[..4] == HbinTag
  {
    var head := data[..HBins.HBinHeaderSize];
    AppendEmpty(head);
    HBins.UnmarshalMarshalHeader(h, []);
    HBins.UnmarshalHeaderFields(head);
    assert head[..4] == data[..4];
    TagValues();
    TagFromValue(data, HbinTag);
  }

  /** "hbin": the buffer goes to the bin decoder. */
  lemma BinArm(data: seq<byte>)
    requires Cells.Aligned(data) && data[..4] == HbinTag
    ensures HBins.UnmarshalBin(data).Ok? ==> UnmarshalBlock(data) == Ok(Bin(HBins.UnmarshalBin(data).value))
  {
  }

  /** A valid cell comes back from its encoding, unless its size field
      happens to spell "hbin", which sends the buffer to the bin decoder.
      ("regf" cannot occur: it is not a multiple of eight.) */
  lemma UnmarshalMarshalCell(c: Cells.Cell)
    requires Cells.ValidCell(c) && Cells.Header(c).blockSize != 0x6e69_6268
    ensures UnmarshalBlock(Marshal(Cell(c))) == Ok(Cell(c))
  {
    var data := Cells.MarshalCell(c);
    Cells.MarshalLength(c);
    Cells.EncodedBlockSize(c);
    Cells.UnmarshalMarshalCell(c);
    SizeFieldAligned(data, Cells.Header(c).blockSize);
    CellDecodes(data, c);
  }

  /** A cell size field spanning an aligned buffer is a multiple of eight. */
  lemma SizeFieldAligned(data: seq<byte>, blockSize: int32)
    requires Cells.Aligned(data) && (blockSize == |data| || blockSize == -|data|)
    ensures blockSize % 8 == 0
  {
  }

  /** A buffer the cell decoder reads, whose size field spells neither tag,
      is dispatched to it. */
  lemma CellDecodes(data: seq<byte>, c: Cells.Cell)
    requires Cells.UnmarshalHCell(data) == Ok(c)
    requires |data| >= 4 && Int32At(data, 0) % 8 == 0 && Int32At(data, 0) != 0x6e69_6268
    ensures UnmarshalBlock(data) == Ok(Cell(c))
  {
    NotATag(data);
    CellArm(data);
  }

  /** Neither tag: the buffer goes to the cell decoder. */
  lemma CellArm(data: seq<byte>)
    requires Cells.Aligned(data) && data[..4] != RegfTag && data[..4] != HbinTag
    ensures Cells.UnmarshalHCell(data).Ok? ==> UnmarshalBlock(data) == Ok(Cell(Cells.UnmarshalHCell(data).value))
  {
  }

  /** Decoding then encoding gives back the bytes the block was read from:
      the first 4096 of a base block, a prefix of a bin covering at least its
      declared size, and all of a cell's bytes when its size field spans the
      buffer. */
  lemma MarshalUnmarshalBlock(data: seq<byte>)
    requires UnmarshalBlock(data).Ok?
    ensures var b := UnmarshalBlock(data).value;
      b.Base? ==> Marshal(b) <= data && |Marshal(b)| == BaseBlocks.BaseBlockSize
    ensures var b := UnmarshalBlock(data).value;
      b.Bin? ==> Marshal(b) <= data && |Marshal(b)| >= b.bin.header.size
    ensures var b := UnmarshalBlock(data).value;
      b.Cell? && HCells.Size(Cells.Header(b.cell)) == |data| ==> Marshal(b) == data
  {
    var b := UnmarshalBlock(data).value;
    if data[..4] == RegfTag {
      BaseArm(data);
      BaseBlocks.MarshalUnmarshal(data);
      SlicedPrefix(data, BaseBlocks.BaseBlockSize);
    } else if data[..4] == HbinTag {
      BinArm(data);
      HBins.MarshalUnmarshalBin(data);
      SlicedPrefix(data, |Marshal(b)|);
    } else {
      CellArm(data);
      if HCells.Size(Cells.Header(b.cell)) == |data| {
        Cells.MarshalUnmarshalCell(data);
      }
    }
  }
}
