/**
 * Hive bins: the 32-byte bin header, a bin (its header and the cells laid
 * out back to back after it) and the run of bins that fills the hive after
 * the base block.
 *
 * The bin decoders take `mem`, the bytes from the start of the bin to the
 * end of the buffer's capacity: the source slices bins and cells with Go
 * slice expressions, which may reach past a slice's length up to its
 * capacity, and never consults the length of the bin slice itself.
 */
module HBins {
  import opened Results
  import opened Binary
  import HCells
  import Cells

  const HBinHeaderSize: nat := 32

  /** The bin header; its signature is "hbin" read as a little-endian uint32. */
  datatype HBinHeader = HBinHeader(
    signature: uint32,
    dataOffset: int32,
    size: int32,
    reserved1: uint64,
    timestamp: uint64,
    spare: uint32)

  const HeaderShape: seq<Kind> :=
    [Unsigned(4), Signed(4), Signed(4), Unsigned(8), Unsigned(8), Unsigned(4)]

  lemma HeaderWidth()
    ensures TotalWidth(HeaderShape) == HBinHeaderSize
  {
  }

  function HeaderValues(h: HBinHeader): (vs: seq<Value>)
    ensures Conforms(vs, HeaderShape)
  {
    [U32(h.signature), I32(h.dataOffset), I32(h.size), U64(h.reserved1), U64(h.timestamp), U32(h.spare)]
  }

  function HeaderFromValues(vs: seq<Value>): (h: HBinHeader)
    requires Conforms(vs, HeaderShape)
    ensures HeaderValues(h) == vs
  {
    HBinHeader(AsU32(vs[0]), AsI32(vs[1]), AsI32(vs[2]), AsU64(vs[3]), AsU64(vs[4]), AsU32(vs[5]))
  }

  /** HBinHeader.unmarshal: 32 bytes are required, read little-endian. */
  function UnmarshalHeader(data: seq<byte>): (r: Result<HBinHeader>)
    ensures r.Ok? <==> |data| >= HBinHeaderSize
    ensures r.Err? ==> r.error == TooShort(|data|, HBinHeaderSize)
  {
    if |data| < HBinHeaderSize then Err(TooShort(|data|, HBinHeaderSize))
    else
      HeaderWidth();
      Ok(HeaderFromValues(Read(data, HeaderShape).value))
  }

  /** HBinHeader.marshal: the six fields, little-endian. */
  function MarshalHeader(h: HBinHeader): (out: seq<byte>)
    ensures |out| == HBinHeaderSize
  {
    HeaderWidth();
    WriteLength(HeaderValues(h), HeaderShape);
    Write(HeaderValues(h))
  }

  /** The decoded signature, data offset and size are the little-endian
      fields at bytes 0..4, 4..8 and 8..12. */
  lemma UnmarshalHeaderFields(data: seq<byte>)
    requires |data| >= HBinHeaderSize
    ensures UnmarshalHeader(data).value.signature == LeUint(data[..4])
    ensures UnmarshalHeader(data).value.dataOffset == Int32At(data, 4)
    ensures UnmarshalHeader(data).value.size == Int32At(data, 8)
  {
    FirstFields(data);
    SizeField(data);
  }

  lemma FirstFields(data: seq<byte>)
    requires |data| >= HBinHeaderSize
    ensures Read(data, HeaderShape).Ok?
    ensures Read(data, HeaderShape).value[0] == DecodeValue(data[..4], Unsigned(4))
    ensures Read(data, HeaderShape).value[1] == DecodeValue(data[4..8], Signed(4))
  {
    HeaderWidth();
    assert HeaderShape[..0] == [] && HeaderShape[..1] == [Unsigned(4)];
    ReadAt(data, HeaderShape, 0);
    ReadAt(data, HeaderShape, 1);
    assert data[0..4] == data[..4];
  }

  lemma SizeField(data: seq<byte>)
    requires |data| >= HBinHeaderSize
    ensures Read(data, HeaderShape).Ok?
    ensures Read(data, HeaderShape).value[2] == DecodeValue(data[8..12], Signed(4))
  {
    HeaderWidth();
    assert HeaderShape[..2] == [Unsigned(4), Signed(4)];
    ReadAt(data, HeaderShape, 2);
  }

  /** Header marshal after unmarshal reproduces the first 32 bytes. */
  lemma MarshalUnmarshalHeader(data: seq<byte>)
    requires |data| >= HBinHeaderSize
    ensures MarshalHeader(UnmarshalHeader(data).value) == data[..HBinHeaderSize]
  {
    HeaderWidth();
    WriteRead(data, HeaderShape);
  }

  /** Header unmarshal after marshal gives the header back, whatever follows. */
  lemma UnmarshalMarshalHeader(h: HBinHeader, tail: seq<byte>)
    ensures UnmarshalHeader(MarshalHeader(h) + tail) == Ok(h)
  {
    HeaderWidth();
    ReadWrite(HeaderValues(h), HeaderShape, tail);
  }

  /** HBinHeader.Signature: the signature field rendered most significant
      byte first (uint32toba). */
  function Signature(h: HBinHeader): (s: seq<byte>)
    ensures |s| == 4
  {
    Uint32ToBytes(h.signature)
  }

  /** A bin starting with "hbin" reports the signature "nibh". */
  lemma SignatureOfHbin(data: seq<byte>)
    requires |data| >= HBinHeaderSize
    requires data[..4] == [0x68, 0x62, 0x69, 0x6e]
    ensures Signature(UnmarshalHeader(data).value) == [0x6e, 0x69, 0x62, 0x68]
  {
    UnmarshalHeaderFields(data);
    Uint32ToBytesReversesWire(data[..4]);
  }

  /** A bin: its header and its cells in file order, each stamped with its
      byte offset from the start of the bin. */
  datatype HBin = HBin(header: HBinHeader, cells: seq<Cells.Cell>)

  /** A cell decoder: the bin loop calls UnmarshalHCell; its proofs hold for
      any decoder. */
  type CellDecoder = seq<byte> -> Result<Cells.Cell>

  /** The cells of a bin of the given size from offset i on (the cell loop
      of HBin.unmarshal). While i is below the size, the int32 at i is made
      non-negative, the cell of that many bytes is decoded and stamped with
      offset i, and i moves past it. The slices are int32 slice expressions
      that panic when they reach past mem; a slice end beyond the int32 range
      wraps to a negative end, which panics as well, and so does the most
      negative size, which negation leaves negative. A cell error ends the
      decode. A decoder that accepted an empty cell would leave i where it
      is and the loop would never end (UnmarshalHCell rejects it). */
  function CellsFrom(decode: CellDecoder, mem: seq<byte>, size: int32, i: int32): (r: Result<seq<Cells.Cell>>)
    requires i >= 0
    decreases size - i
  {
    if i >= size then Ok([])
    else if i + HCells.HCellSizeLength > Int32Max || i + HCells.HCellSizeLength > |mem| then Err(RuntimePanic)
    else
      var raw := Int32At(mem, i);
      if raw == Int32Min then Err(RuntimePanic)
      else
        var n := if raw < 0 then -raw else raw;
        if i + n > Int32Max || i + n > |mem| then Err(RuntimePanic)
        else
          var c :- decode(mem[i..i + n]);
          if n == 0 then Err(NoProgress)
          else
            var rest :- CellsFrom(decode, mem, size, i + n);
            Ok([Cells.SetCellOffset(c, i)] + rest)
  }

  /** One step of the cell loop: the cell at i decodes, so it comes first
      and the loop goes on at j, just past it. */
  lemma CellsFromStep(decode: CellDecoder, mem: seq<byte>, size: int32, i: int32, n: int32, j: int32, c: Cells.Cell)
    requires 0 <= i < size && i + HCells.HCellSizeLength <= |mem| && i + HCells.HCellSizeLength <= Int32Max
    requires Int32At(mem, i) != Int32Min && (n == Int32At(mem, i) || n == -Int32At(mem, i)) && n > 0
    requires j == i + n && j <= |mem|
    requires decode(mem[i..j]) == Ok(c)
    ensures CellsFrom(decode, mem, size, i) == Prepend([Cells.SetCellOffset(c, i)], CellsFrom(decode, mem, size, j))
  {
  }

  /** The cell loop stops at i: the cell there does not decode, or its
      size is zero. */
  lemma CellsFromStops(decode: CellDecoder, mem: seq<byte>, size: int32, i: int32, n: int32, j: int32)
    requires 0 <= i < size && i + HCells.HCellSizeLength <= |mem| && i + HCells.HCellSizeLength <= Int32Max
    requires Int32At(mem, i) != Int32Min && (n == Int32At(mem, i) || n == -Int32At(mem, i)) && n >= 0
    requires j == i + n && j <= |mem| && j <= Int32Max
    requires decode(mem[i..j]).Err? || n == 0
    ensures CellsFrom(decode, mem, size, i) == if decode(mem[i..j]).Err? then Err(decode(mem[i..j]).error) else Err(NoProgress)
  {
  }

  /** HBin.unmarshal: the header from the first 32 bytes (a shorter mem
      makes the slice panic), then the cells from offset 32 up to the
      header's size. */
  function UnmarshalBin(mem: seq<byte>): (r: Result<HBin>)
    ensures |mem| < HBinHeaderSize ==> r == Err(RuntimePanic)
    ensures r.Ok? ==> MarshalHeader(r.value.header) == mem[..HBinHeaderSize]
  {
    if |mem| < HBinHeaderSize then Err(RuntimePanic)
    else
      MarshalUnmarshalHeader(mem[..HBinHeaderSize]);
      var h := UnmarshalHeader(mem[..HBinHeaderSize]).value;
      var cells :- CellsFrom(Cells.UnmarshalHCell, mem, h.size, HBinHeaderSize as int32);
      Ok(HBin(h, cells))
  }

  /** HBin.unmarshal as the source writes it: the header, then a cursor
      loop over the cells. */
  method DecodeBin(mem: seq<byte>) returns (r: Result<HBin>)
    ensures r == UnmarshalBin(mem)
  {
    if |mem| < HBinHeaderSize {
      return Err(RuntimePanic);
    }
    var header := UnmarshalHeader(mem[..HBinHeaderSize]);
    var h := header.value;
    var cells := DecodeCells(Cells.UnmarshalHCell, mem, h.size);
    if cells.Err? {
      return Err(cells.error);
    }
    return Ok(HBin(h, cells.value));
  }

  /** The cell loop of HBin.unmarshal: advances a cursor from offset 32,
      appending each decoded cell stamped with its offset. */
  method DecodeCells(decode: CellDecoder, mem: seq<byte>, size: int32) returns (r: Result<seq<Cells.Cell>>)
    ensures r == CellsFrom(decode, mem, size, HBinHeaderSize as int32)
  {
    var cells: seq<Cells.Cell> := [];
    var i: int32 := HBinHeaderSize as int32;
    PrependNothing(CellsFrom(decode, mem, size, i));
    while i < size
      invariant i >= 0
      invariant CellsFrom(decode, mem, size, HBinHeaderSize as int32) == Prepend(cells, CellsFrom(decode, mem, size, i))
      decreases size - i
    {
      if i + HCells.HCellSizeLength > Int32Max || i + HCells.HCellSizeLength > |mem| {
        return Err(RuntimePanic);
      }
      var cellSize := Int32At(mem, i);
      if cellSize == Int32Min {
        return Err(RuntimePanic);
      }
      if cellSize < 0 {
        cellSize := -cellSize;
      }
      if i + cellSize > Int32Max || i + cellSize > |mem| {
        return Err(RuntimePanic);
      }
      var end: int32 := i + cellSize;
      var cell := decode(mem[i..end]);
      if cell.Err? || cellSize == 0 {
        CellsFromStops(decode, mem, size, i, cellSize, end);
        return if cell.Err? then Err(cell.error) else Err(NoProgress);
      }
      var stamped := Cells.SetCellOffset(cell.value, i);
      CellsFromStep(decode, mem, size, i, cellSize, end, cell.value);
      PrependOne(cells, stamped, CellsFrom(decode, mem, size, end));
      cells := cells + [stamped];
      i := end;
    }
    AppendEmpty(cells);
    return Ok(cells);
  }

  /** Every cell has a two-byte signature, as Go's [2]byte guarantees. */
  predicate Encodable(cells: seq<Cells.Cell>) {
    forall c | c in cells :: HCells.ValidHeader(Cells.Header(c))
  }

  /** The cells' encodings back to back. */
  function MarshalCells(cells: seq<Cells.Cell>): seq<byte>
    requires Encodable(cells)
  {
    if cells == [] then [] else Cells.MarshalCell(cells[0]) + MarshalCells(cells[1..])
  }

  lemma {:induction false} MarshalCellsAppend(cells: seq<Cells.Cell>, c: Cells.Cell)
    requires Encodable(cells) && HCells.ValidHeader(Cells.Header(c))
    ensures MarshalCells(cells + [c]) == MarshalCells(cells) + Cells.MarshalCell(c)
  {
    if cells == [] {
      assert [] + [c] == [c];
    } else {
      assert (cells + [c])[1..] == cells[1..] + [c];
      MarshalCellsAppend(cells[1..], c);
    }
  }

  /** HBin.marshal: the 32 header bytes followed by each cell's bytes. */
  function MarshalBin(b: HBin): (out: seq<byte>)
    requires Encodable(b.cells)
    ensures |out| == HBinHeaderSize + |MarshalCells(b.cells)|
  {
    MarshalHeader(b.header) + MarshalCells(b.cells)
  }

  /** HBin.marshal as the source writes it: one buffer, the header and then
      each cell appended in order. */
  method EncodeBin(b: HBin) returns (out: seq<byte>)
    requires Encodable(b.cells)
    ensures out == MarshalBin(b)
  {
    out := MarshalHeader(b.header);
    EncodedPrefix(b.cells, 0);
    for k := 0 to |b.cells|
      invariant Encodable(b.cells[..k])
      invariant out == MarshalHeader(b.header) + MarshalCells(b.cells[..k])
    {
      EncodedPrefix(b.cells, k);
      ConcatAssoc(MarshalHeader(b.header), MarshalCells(b.cells[..k]), Cells.MarshalCell(b.cells[k]));
      out := out + Cells.MarshalCell(b.cells[k]);
    }
    assert b.cells[..|b.cells|] == b.cells;
  }

  /** The encoding of the first k + 1 cells extends that of the first k. */
  lemma EncodedPrefix(cells: seq<Cells.Cell>, k: nat)
    requires Encodable(cells) && k <= |cells|
    ensures Encodable(cells[..k])
    ensures k < |cells| ==> Encodable(cells[..k + 1])
    ensures k < |cells| ==> MarshalCells(cells[..k + 1]) == MarshalCells(cells[..k]) + Cells.MarshalCell(cells[k])
  {
    if k < |cells| {
      assert cells[..k + 1] == cells[..k] + [cells[k]];
      MarshalCellsAppend(cells[..k], cells[k]);
    }
  }

  /** The cells lie back to back from offset i: each is a valid cell stamped
      with its own offset. */
  predicate Placed(cells: seq<Cells.Cell>, i: int)
    decreases |cells|
  {
    cells == []
    || (&& Cells.Header(cells[0]).parentHBinOffset == i
        && Cells.ValidCell(Cells.SetCellOffset(cells[0], 0))
        && Placed(cells[1..], i + HCells.Size(Cells.Header(cells[0]))))
  }

  /** A bin that decodes from its own encoding: its cells are placed from
      offset 32 and its declared size is exactly its encoded length. */
  predicate ValidBin(b: HBin) {
    && Encodable(b.cells)
    && Placed(b.cells, HBinHeaderSize)
    && b.header.size == HBinHeaderSize + |MarshalCells(b.cells)|
  }

  /** The decoder reads every valid cell back from its encoding. */
  ghost predicate Inverts(decode: CellDecoder) {
    forall c | Cells.ValidCell(c) :: decode(Cells.MarshalCell(c)) == Ok(c)
  }

  lemma UnmarshalHCellInverts()
    ensures Inverts(Cells.UnmarshalHCell)
  {
    forall c | Cells.ValidCell(c)
      ensures Cells.UnmarshalHCell(Cells.MarshalCell(c)) == Ok(c)
    {
      Cells.UnmarshalMarshalCell(c);
    }
  }

  /** Placed cells decode, from their encoding, as themselves. */
  lemma {:induction false} CellsFromMarshal(decode: CellDecoder, mem: seq<byte>, size: int32, i: int32, cells: seq<Cells.Cell>)
    requires Inverts(decode) && i >= 0
    requires Encodable(cells) && Placed(cells, i)
    requires size == i + |MarshalCells(cells)| <= |mem|
    requires mem[i..size] == MarshalCells(cells)
    ensures CellsFrom(decode, mem, size, i) == Ok(cells)
    decreases |cells|
  {
    if cells != [] {
      var n, j, c0 := PlacedHead(decode, mem, size, i, cells);
      CellsFromMarshal(decode, mem, size, j, cells[1..]);
      CellsFromStep(decode, mem, size, i, n, j, c0);
      HeadTail(cells);
    }
  }

  /** The first of the placed cells: its size field at i, its decoding, and
      the cells after it, placed from j. */
  lemma PlacedHead(decode: CellDecoder, mem: seq<byte>, size: int32, i: int32, cells: seq<Cells.Cell>)
    returns (n: int32, j: int32, c0: Cells.Cell)
    requires Inverts(decode) && i >= 0
    requires Encodable(cells) && Placed(cells, i) && cells != []
    requires size == i + |MarshalCells(cells)| <= |mem|
    requires mem[i..size] == MarshalCells(cells)
    ensures 0 < n && j == i + n && j <= size && i + HCells.HCellSizeLength <= size
    ensures Int32At(mem, i) != Int32Min && (n == Int32At(mem, i) || n == -Int32At(mem, i))
    ensures decode(mem[i..j]) == Ok(c0) && Cells.SetCellOffset(c0, i) == cells[0]
    ensures Encodable(cells[1..]) && Placed(cells[1..], j)
    ensures size == j + |MarshalCells(cells[1..])| && mem[j..size] == MarshalCells(cells[1..])
  {
    var e;
    c0, e := PlacedCell(cells[0]);
    var next, rest := PlacedTail(cells, i);
    n := |e| as int32;
    j := next as int32;
    PlacedNext(cells, i, j);
    HeadSlice(mem, i as nat, j as nat, size as nat, e, rest);
    InvertsAt(decode, c0);
  }

  /** An encoded cell followed by more bytes, found in mem at i: the slices
      that the cell loop takes are the two parts, and the int32 at i is the
      size field of the first. */
  lemma HeadSlice(mem: seq<byte>, i: nat, j: nat, size: nat, e: seq<byte>, rest: seq<byte>)
    requires |e| >= HCells.HCellSizeLength && j == i + |e| && size == j + |rest| <= |mem|
    requires mem[i..size] == e + rest
    ensures mem[i..j] == e && mem[j..size] == rest
    ensures Int32At(mem, i) == Int32At(e, 0)
  {
    SliceSplit(mem, i, j, size, e, rest);
    Int32AtSlice(mem, i, j);
  }

  /** The cells after the first are placed from where the first ends. */
  lemma PlacedNext(cells: seq<Cells.Cell>, i: int, next: int)
    requires cells != [] && Placed(cells, i) && next == i + HCells.Size(Cells.Header(cells[0]))
    ensures Placed(cells[1..], next)
  {
  }

  /** Unfolds the placement of a non-empty run of cells once. */
  lemma PlacedTail(cells: seq<Cells.Cell>, i: int) returns (next: int, rest: seq<byte>)
    requires Encodable(cells) && Placed(cells, i) && cells != []
    ensures next == i + HCells.Size(Cells.Header(cells[0]))
    ensures rest == MarshalCells(cells[1..]) && MarshalCells(cells) == Cells.MarshalCell(cells[0]) + rest
    ensures Encodable(cells[1..]) && Placed(cells[1..], i + HCells.Size(Cells.Header(cells[0])))
    ensures Cells.Header(cells[0]).parentHBinOffset == i && Cells.ValidCell(Cells.SetCellOffset(cells[0], 0))
  {
    next := i + HCells.Size(Cells.Header(cells[0]));
    rest := MarshalCells(cells[1..]);
  }

  lemma InvertsAt(decode: CellDecoder, c: Cells.Cell)
    requires Inverts(decode) && Cells.ValidCell(c)
    ensures decode(Cells.MarshalCell(c)) == Ok(c)
  {
  }

  /** A cell stamped with its offset: unstamped it is valid, and its
      encoding is that of the unstamped cell, as long as its size, and
      starts with its size field. */
  lemma PlacedCell(c: Cells.Cell) returns (c0: Cells.Cell, e: seq<byte>)
    requires Cells.ValidCell(Cells.SetCellOffset(c, 0))
    ensures c0 == Cells.SetCellOffset(c, 0) && Cells.ValidCell(c0)
    ensures e == Cells.MarshalCell(c) == Cells.MarshalCell(c0)
    ensures |e| == HCells.Size(Cells.Header(c)) && |e| >= HCells.HCellDataSize && |e| <= Int32Max
    ensures Int32At(e, 0) != Int32Min && (|e| == Int32At(e, 0) || |e| == -Int32At(e, 0))
    ensures Cells.SetCellOffset(c0, Cells.Header(c).parentHBinOffset) == c
  {
    c0 := Cells.SetCellOffset(c, 0);
    e := Cells.MarshalCell(c0);
    Cells.MarshalIgnoresOffset(c, 0);
    Cells.MarshalLength(c0);
    Cells.EncodedBlockSize(c0);
    Cells.Restamp(c);
  }

  /** A bin decodes from its own encoding, whatever follows it. */
  lemma UnmarshalMarshalBin(b: HBin, tail: seq<byte>)
    requires ValidBin(b)
    ensures UnmarshalBin(MarshalBin(b) + tail) == Ok(b)
  {
    var mem := MarshalBin(b) + tail;
    var enc := MarshalCells(b.cells);
    ConcatAssoc(MarshalHeader(b.header), enc, tail);
    UnmarshalMarshalHeader(b.header, enc + tail);
    assert mem[..HBinHeaderSize] == MarshalHeader(b.header);
    UnmarshalMarshalHeader(b.header, []);
    AppendEmpty(MarshalHeader(b.header));
    assert mem[HBinHeaderSize..b.header.size] == enc;
    UnmarshalHCellInverts();
    CellsFromMarshal(Cells.UnmarshalHCell, mem, b.header.size, HBinHeaderSize as int32, b.cells);
  }

  /** The decoder accepts no slice shorter than a size field, and gives
      back a valid header and the very bytes of any cell whose size field
      spans the whole slice. */
  ghost predicate Reencodes(decode: CellDecoder) {
    forall x | decode(x).Ok? ::
      && |x| >= HCells.HCellSizeLength
      && (Tight(x) ==> HCells.ValidHeader(Cells.Header(decode(x).value)) && Cells.MarshalCell(decode(x).value) == x)
  }

  /** The int32 size field at the start of x has magnitude |x|. */
  predicate Tight(x: seq<byte>)
    requires |x| >= HCells.HCellSizeLength
  {
    Int32At(x, 0) != Int32Min && (|x| == Int32At(x, 0) || |x| == -Int32At(x, 0))
  }

  lemma UnmarshalHCellReencodes()
    ensures Reencodes(Cells.UnmarshalHCell)
  {
    forall x | Cells.UnmarshalHCell(x).Ok?
      ensures |x| >= HCells.HCellSizeLength
      ensures Tight(x) ==> HCells.ValidHeader(Cells.Header(Cells.UnmarshalHCell(x).value))
      ensures Tight(x) ==> Cells.MarshalCell(Cells.UnmarshalHCell(x).value) == x
    {
      if Tight(x) {
        var h := Cells.Header(Cells.UnmarshalHCell(x).value);
        assert h.blockSize == Int32At(x, 0);
        assert HCells.Size(h) == |x|;
        Cells.MarshalUnmarshalCell(x);
      }
    }
  }

  /** The first step of a cell loop that succeeded: the cell at i, the
      offset j past it and the cells decoded from j. */
  lemma CellsFromHead(decode: CellDecoder, mem: seq<byte>, size: int32, i: int32, cells: seq<Cells.Cell>)
    returns (j: int32, c: Cells.Cell, rest: seq<Cells.Cell>)
    requires 0 <= i < size && CellsFrom(decode, mem, size, i) == Ok(cells)
    ensures i < j <= |mem| && i + HCells.HCellSizeLength <= |mem|
    ensures Int32At(mem, i) != Int32Min && (j - i == Int32At(mem, i) || j - i == -Int32At(mem, i))
    ensures decode(mem[i..j]) == Ok(c)
    ensures cells == [Cells.SetCellOffset(c, i)] + rest && CellsFrom(decode, mem, size, j) == Ok(rest)
  {
    var raw := Int32At(mem, i);
    var n := if raw < 0 then -raw else raw;
    j := i + n;
    c := decode(mem[i..j]).value;
    rest := CellsFrom(decode, mem, size, j).value;
  }

  /** The cell decoded at i, stamped with i, re-encodes to the slice it
      was read from. */
  lemma HeadEncodes(decode: CellDecoder, mem: seq<byte>, i: int32, j: int32, c: Cells.Cell)
    requires Reencodes(decode) && 0 <= i < j <= |mem| && i + HCells.HCellSizeLength <= |mem|
    requires Int32At(mem, i) != Int32Min && (j - i == Int32At(mem, i) || j - i == -Int32At(mem, i))
    requires decode(mem[i..j]) == Ok(c)
    ensures HCells.ValidHeader(Cells.Header(Cells.SetCellOffset(c, i)))
    ensures Cells.MarshalCell(Cells.SetCellOffset(c, i)) == mem[i..j]
  {
    var x := mem[i..j];
    assert |x| >= HCells.HCellSizeLength;
    Int32AtSlice(mem, i as nat, j as nat);
    assert Tight(x);
    Cells.MarshalIgnoresOffset(c, i);
  }

  /** Decoded cells re-encode to the bytes they were read from, which run
      from i at least up to the bin size. */
  lemma {:induction false} CellsFromEncodes(decode: CellDecoder, mem: seq<byte>, size: int32, i: int32, cells: seq<Cells.Cell>)
    returns (end: nat)
    requires Reencodes(decode) && 0 <= i <= |mem|
    requires CellsFrom(decode, mem, size, i) == Ok(cells)
    ensures Encodable(cells) && end == i + |MarshalCells(cells)|
    ensures end >= size && end <= |mem| && mem[i..end] == MarshalCells(cells)
    decreases size - i
  {
    if i >= size {
      end := i as nat;
    } else {
      var j, c, rest := CellsFromHead(decode, mem, size, i, cells);
      HeadEncodes(decode, mem, i, j, c);
      end := CellsFromEncodes(decode, mem, size, j, rest);
      EncodedCons(Cells.SetCellOffset(c, i), rest, cells);
      SliceJoin(mem, i as nat, j as nat, end);
    }
  }

  /** The encoding of a cell followed by more cells. */
  lemma EncodedCons(c: Cells.Cell, rest: seq<Cells.Cell>, cells: seq<Cells.Cell>)
    requires cells == [c] + rest && HCells.ValidHeader(Cells.Header(c)) && Encodable(rest)
    ensures Encodable(cells) && MarshalCells(cells) == Cells.MarshalCell(c) + MarshalCells(rest)
  {
    assert cells[0] == c && cells[1..] == rest;
  }

  /** A decoded bin re-encodes to the bytes it was read from, up to where
      the cell loop stopped: at least the declared size. */
  lemma MarshalUnmarshalBin(mem: seq<byte>)
    requires UnmarshalBin(mem).Ok?
    ensures Encodable(UnmarshalBin(mem).value.cells)
    ensures var out := MarshalBin(UnmarshalBin(mem).value);
      UnmarshalBin(mem).value.header.size <= |out| <= |mem| && out == mem[..|out|]
  {
    var b := UnmarshalBin(mem).value;
    BinParts(mem, b);
    UnmarshalHCellReencodes();
    var end := CellsFromEncodes(Cells.UnmarshalHCell, mem, b.header.size, HBinHeaderSize as int32, b.cells);
    PrefixJoin(mem, HBinHeaderSize, end);
  }

  /** A decoded bin: its header from the first 32 bytes, its cells from the
      cell loop starting after them. */
  lemma BinParts(mem: seq<byte>, b: HBin)
    requires UnmarshalBin(mem) == Ok(b)
    ensures |mem| >= HBinHeaderSize && MarshalHeader(b.header) == mem[..HBinHeaderSize]
    ensures CellsFrom(Cells.UnmarshalHCell, mem, b.header.size, HBinHeaderSize as int32) == Ok(b.cells)
  {
  }
}
