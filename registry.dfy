/**
 * The whole hive: Registry.Load splits a hive buffer into the base block,
 * the bin area that follows it and the remnant after the bin area, taking
 * each part only when its read flag is set; Registry.Bytes concatenates the
 * parts selected by the write flags, in that same order.
 */
module Winrego {
  import opened Results
  import opened Binary
  import BaseBlocks
  import HBins
  import HBinDatas
  import HCells
  import Cells

  /** A flag mask (a Go int; only the low five bits are used). */
  type Mode = bv64

  /** Read flags, one bit each. */
  const ReadFP: Mode := 1
  const ReadHeader: Mode := 2
  const ReadHBins: Mode := 4
  const ReadHBinsRaw: Mode := 8
  const ReadRemData: Mode := 16
  const ReadAllUnmarshal: Mode := ReadHeader | ReadHBins | ReadRemData
  const ReadAllRaw: Mode := ReadHeader | ReadHBinsRaw | ReadRemData
  const ReadAll: Mode := ReadFP | ReadHeader | ReadHBins | ReadHBinsRaw | ReadRemData

  /** Write flags: bit 1 is skipped, so each has the value of the read flag
      for the same part. */
  const WriteHeader: Mode := 2
  const WriteHBins: Mode := 4
  const WriteHBinsRaw: Mode := 8
  const WriteRemData: Mode := 16
  const WriteAllMarshal: Mode := WriteHeader | WriteHBins | WriteRemData
  const WriteAllRaw: Mode := WriteHeader | WriteHBinsRaw | WriteRemData

  predicate Has(mode: Mode, flag: Mode) {
    mode & flag != 0
  }

  /** The parts of the hive a mask selects: base block, decoded bins, raw
      bin area, remnant. */
  datatype Parts = Parts(header: bool, hBins: bool, raw: bool, remnant: bool)

  /** The parts a read mask selects (the file pointer flag is not part of
      this model). */
  function ReadParts(mode: Mode): (p: Parts)
    ensures p.header <==> Has(mode, ReadHeader)
    ensures p.hBins <==> Has(mode, ReadHBins)
    ensures p.raw <==> Has(mode, ReadHBinsRaw)
    ensures p.remnant <==> Has(mode, ReadRemData)
  {
    Parts(Has(mode, ReadHeader), Has(mode, ReadHBins), Has(mode, ReadHBinsRaw), Has(mode, ReadRemData))
  }

  /** The parts a write mask selects. */
  function WriteParts(mode: Mode): (p: Parts)
    ensures p.header <==> Has(mode, WriteHeader)
    ensures p.hBins <==> Has(mode, WriteHBins)
    ensures p.raw <==> Has(mode, WriteHBinsRaw)
    ensures p.remnant <==> Has(mode, WriteRemData)
  {
    Parts(Has(mode, WriteHeader), Has(mode, WriteHBins), Has(mode, WriteHBinsRaw), Has(mode, WriteRemData))
  }

  /** The composite masks: everything decoded, everything raw. */
  lemma CompositeModes()
    ensures ReadParts(ReadAllUnmarshal) == Parts(true, true, false, true)
    ensures ReadParts(ReadAllRaw) == Parts(true, false, true, true)
    ensures ReadParts(ReadAll) == Parts(true, true, true, true)
    ensures WriteParts(WriteAllMarshal) == Parts(true, true, false, true)
    ensures WriteParts(WriteAllRaw) == Parts(true, false, true, true)
  {
  }

  /** The fields of a Registry that Load and Bytes use. */
  datatype Hive = Hive(
    baseBlock: BaseBlocks.BaseBlock,
    hBins: seq<HBins.HBin>,
    remnantData: seq<byte>,
    rawHiveData: seq<byte>)

  /** A fresh Registry: every field zero. */
  const Empty: Hive := Hive(BaseBlocks.Zero, [], [], [])

  /** What Bytes needs: base block arrays of their Go lengths and a
      two-byte tag on every cell. */
  predicate Writable(h: Hive) {
    BaseBlocks.Valid(h.baseBlock) && HBinDatas.Encodable(h.hBins)
  }

  const BaseBlockSize: nat := BaseBlocks.BaseBlockSize
  const HBinSizeOffset: nat := BaseBlocks.HBinSizeOffset

  /** The base block decoded from the first 4096 bytes. */
  function Header(data: seq<byte>): (b: BaseBlocks.BaseBlock)
    requires |data| >= BaseBlockSize
    ensures BaseBlocks.Valid(b)
  {
    BaseBlocks.Unmarshal(data[..BaseBlockSize]).value
  }

  /** The bin-area size: the little-endian uint32 at bytes 40..44. */
  function HBinSizeField(data: seq<byte>): (n: nat)
    requires |data| >= BaseBlockSize
  {
    LeUint(data[HBinSizeOffset..HBinSizeOffset + 4])
  }

  /** The size Load uses: the decoded header's HBinSize when the header is
      read, the raw field otherwise. */
  function AreaSize(data: seq<byte>, p: Parts): nat
    requires |data| >= BaseBlockSize
  {
    if p.header then Header(data).hBinSize else HBinSizeField(data)
  }

  /** Whichever way it is read, the bin-area size is the same field. */
  lemma AreaSizeIsField(data: seq<byte>, p: Parts)
    requires |data| >= BaseBlockSize
    ensures AreaSize(data, p) == HBinSizeField(data) < 0x1_0000_0000
  {
    var head := data[..BaseBlockSize];
    BaseBlocks.UnmarshalFields(head);
    SliceOfPrefix(data, BaseBlockSize, HBinSizeOffset, HBinSizeOffset + 4);
    Pow256Values();
  }

  /** The header step of Load: the base block replaced when it is read. */
  function WithHeader(h: Hive, data: seq<byte>, p: Parts): (h1: Hive)
    requires |data| >= BaseBlockSize
    ensures h1.(baseBlock := h.baseBlock) == h
    ensures p.header ==> h1.baseBlock == Header(data)
    ensures !p.header ==> h1 == h
  {
    if p.header then h.(baseBlock := Header(data)) else h
  }

  /** The bins Load stores: decoded from the bin area when selected (the
      decoder may read on to the end of the buffer if a bin says so). */
  function AreaBins(h: Hive, data: seq<byte>, p: Parts, hbEnd: nat): Result<seq<HBins.HBin>>
    requires BaseBlockSize <= hbEnd <= |data|
  {
    if p.hBins then HBinDatas.UnmarshalBins(data[BaseBlockSize..], hbEnd - BaseBlockSize) else Ok(h.hBins)
  }

  /** The rest of Load once the bin area data[4096..hbEnd] is known to lie
      within the buffer and its bins are decoded: a decoding error stops
      Load, otherwise the bins, the raw area and the remnant are stored,
      each only when it is selected. */
  function TakeRegions(h: Hive, data: seq<byte>, p: Parts, hbEnd: nat, bins: Result<seq<HBins.HBin>>): (r: (Hive, Outcome))
    requires BaseBlockSize <= hbEnd <= |data|
    ensures r.1.Pass? <==> bins.Ok?
    ensures r.1.Fail? ==> r == (h, Fail(bins.error))
    ensures r.0.baseBlock == h.baseBlock
    ensures r.1.Pass? ==> r.0.hBins == bins.value
    ensures r.0.rawHiveData == if r.1.Pass? && p.raw then data[BaseBlockSize..hbEnd] else h.rawHiveData
    ensures r.0.remnantData == if r.1.Pass? && p.remnant then data[hbEnd..] else h.remnantData
  {
    if bins.Err? then (h, Fail(bins.error))
    else
      (Hive(h.baseBlock, bins.value,
         if p.remnant then data[hbEnd..] else h.remnantData,
         if p.raw then data[BaseBlockSize..hbEnd] else h.rawHiveData),
       Pass)
  }

  /** Registry.Load, with the end of the bin area computed without
      wrap-around: the new fields and the outcome. Fields that are not
      selected, and the fields after a failing step, keep their values. */
  function LoadHive(h: Hive, data: seq<byte>, p: Parts): (r: (Hive, Outcome))
    ensures |data| < BaseBlockSize ==> r == (h, Fail(TooShort(|data|, BaseBlockSize)))
    ensures r.1.Pass? ==> |data| >= BaseBlockSize && BaseBlockSize + HBinSizeField(data) <= |data|
    ensures !p.header ==> r.0.baseBlock == h.baseBlock
    ensures !p.hBins ==> r.0.hBins == h.hBins
    ensures !p.raw ==> r.0.rawHiveData == h.rawHiveData
    ensures !p.remnant ==> r.0.remnantData == h.remnantData
    ensures r.1.Fail? ==> r.0.hBins == h.hBins && r.0.rawHiveData == h.rawHiveData && r.0.remnantData == h.remnantData
  {
    if |data| < BaseBlockSize then (h, Fail(TooShort(|data|, BaseBlockSize)))
    else
      AreaSizeIsField(data, p);
      var h1 := WithHeader(h, data, p);
      var hbEnd := BaseBlockSize + AreaSize(data, p);
      if |data| < hbEnd then (h1, Fail(TooShort(|data|, hbEnd)))
      else TakeRegions(h1, data, p, hbEnd, AreaBins(h1, data, p, hbEnd))
  }

  /** Registry.Load as written: hbEnd = 4096 + hbSize and the length check
      are computed in uint32, so a bin-area size of 0xfffff000 or more wraps
      hbEnd below 4096, the check passes, and the slice data[4096:hbEnd]
      panics (or the remnant starts inside the base block). Only this
      defect is modelled as written: the bin area is decoded by the
      corrected bin loop (AreaBins, HBinDatas.UnmarshalBins), not by the
      loop that slices each bin by the size of the one before it. */
  function LoadHiveAsWritten(h: Hive, data: seq<byte>, p: Parts): (r: (Hive, Outcome))
    ensures |data| < BaseBlockSize ==> r == (h, Fail(TooShort(|data|, BaseBlockSize)))
    ensures !p.header ==> r.0.baseBlock == h.baseBlock
    ensures !p.hBins ==> r.0.hBins == h.hBins
    ensures !p.raw ==> r.0.rawHiveData == h.rawHiveData
  {
    if |data| < BaseBlockSize then (h, Fail(TooShort(|data|, BaseBlockSize)))
    else
      var h1 := WithHeader(h, data, p);
      var hbEnd := (BaseBlockSize + AreaSize(data, p)) % 0x1_0000_0000;
      if |data| % 0x1_0000_0000 < hbEnd then (h1, Fail(TooShort(|data|, hbEnd)))
      else if hbEnd < BaseBlockSize then
        if p.hBins || p.raw then (h1, Fail(RuntimePanic))
        else if p.remnant then (h1.(remnantData := data[hbEnd..]), Pass)
        else (h1, Pass)
      else TakeRegions(h1, data, p, hbEnd, AreaBins(h1, data, p, hbEnd))
  }

  /** Load past the first check, in terms of the size field. */
  lemma LoadSteps(h: Hive, data: seq<byte>, p: Parts)
    requires |data| >= BaseBlockSize
    ensures var hbEnd := BaseBlockSize + HBinSizeField(data);
      var h1 := WithHeader(h, data, p);
      LoadHive(h, data, p) ==
        if |data| < hbEnd then (h1, Fail(TooShort(|data|, hbEnd)))
        else TakeRegions(h1, data, p, hbEnd, AreaBins(h1, data, p, hbEnd))
  {
    AreaSizeIsField(data, p);
  }

  /** Load when the buffer ends inside the bin area. */
  lemma LoadStopsShort(h: Hive, data: seq<byte>, p: Parts)
    requires BaseBlockSize <= |data| < BaseBlockSize + HBinSizeField(data)
    ensures LoadHive(h, data, p) == (WithHeader(h, data, p), Fail(TooShort(|data|, BaseBlockSize + HBinSizeField(data))))
  {
    LoadSteps(h, data, p);
  }

  /** Load when the buffer holds the whole bin area. */
  lemma LoadTakes(h: Hive, data: seq<byte>, p: Parts)
    requires |data| >= BaseBlockSize && |data| >= BaseBlockSize + HBinSizeField(data)
    ensures var hbEnd := BaseBlockSize + HBinSizeField(data);
      var h1 := WithHeader(h, data, p);
      LoadHive(h, data, p) == TakeRegions(h1, data, p, hbEnd, AreaBins(h1, data, p, hbEnd))
  {
    LoadSteps(h, data, p);
  }

  /** Load succeeds exactly when the buffer holds the base block and the
      bin area, and the bins decode when they are asked for. */
  lemma LoadSucceeds(h: Hive, data: seq<byte>, p: Parts)
    ensures LoadHive(h, data, p).1.Pass? <==>
      && |data| >= BaseBlockSize
      && BaseBlockSize + HBinSizeField(data) <= |data|
      && (p.hBins ==> HBinDatas.UnmarshalBins(data[BaseBlockSize..], HBinSizeField(data)).Ok?)
  {
    if |data| >= BaseBlockSize {
      LoadSteps(h, data, p);
    }
  }

  /** What a successful Load stores: the decoded base block, the bins
      decoded from the bin area, the bin area itself and everything after
      it, each when it is selected. */
  lemma LoadRegions(h: Hive, data: seq<byte>, p: Parts)
    requires LoadHive(h, data, p).1.Pass?
    ensures var hbEnd := BaseBlockSize + HBinSizeField(data);
      var r := LoadHive(h, data, p).0;
      && (p.header ==> r.baseBlock == Header(data))
      && (p.hBins ==> HBinDatas.UnmarshalBins(data[BaseBlockSize..], HBinSizeField(data)) == Ok(r.hBins))
      && (p.raw ==> r.rawHiveData == data[BaseBlockSize..hbEnd])
      && (p.remnant ==> r.remnantData == data[hbEnd..])
  {
    LoadSteps(h, data, p);
  }

  /** Load keeps what Bytes needs. */
  lemma LoadWritable(h: Hive, data: seq<byte>, p: Parts)
    requires Writable(h)
    ensures Writable(LoadHive(h, data, p).0)
  {
    if |data| >= BaseBlockSize {
      LoadSteps(h, data, p);
      var hbEnd := BaseBlockSize + HBinSizeField(data);
      if hbEnd <= |data| {
        HBinDatas.UnmarshalBinsEncodable(data[BaseBlockSize..], hbEnd - BaseBlockSize);
      }
    }
  }

  /** Registry.Bytes: the selected parts in the fixed order header, bins,
      raw bin area, remnant. */
  function HiveBytes(h: Hive, p: Parts): (out: seq<byte>)
    requires Writable(h)
  {
    Opt(p.header, BaseBlocks.Marshal(h.baseBlock))
    + Opt(p.hBins, HBinDatas.MarshalBins(h.hBins))
    + Opt(p.raw, h.rawHiveData)
    + Opt(p.remnant, h.remnantData)
  }

  /** The bytes of a part when it is selected, nothing otherwise. */
  function Opt(selected: bool, part: seq<byte>): seq<byte> {
    if selected then part else []
  }

  /** The two composite write masks. */
  lemma AllBytes(h: Hive)
    requires Writable(h)
    ensures HiveBytes(h, WriteParts(WriteAllRaw)) == BaseBlocks.Marshal(h.baseBlock) + h.rawHiveData + h.remnantData
    ensures HiveBytes(h, WriteParts(WriteAllMarshal))
      == BaseBlocks.Marshal(h.baseBlock) + HBinDatas.MarshalBins(h.hBins) + h.remnantData
  {
    CompositeModes();
    var head := BaseBlocks.Marshal(h.baseBlock);
    AppendEmpty(head);
    AppendEmpty(head + HBinDatas.MarshalBins(h.hBins));
  }

  /** A hive with a 4096-byte base block, one bin holding the four-byte
      data record "abcd", the raw area "tset" and the remnant "dcba". */
  const WriteFlagsHive: Hive := Hive(
    BaseBlocks.Zero.(regfHeader := 0x6667_6572),
    [HBins.HBin(HBins.HBinHeader(0x6e69_6268, 0, 0, 0, 0, 0),
      [Cells.DataRecord(HCells.DataRecord(HCells.SizeOnlyHeader(4), [0x61, 0x62, 0x63, 0x64]))])],
    [0x64, 0x63, 0x62, 0x61],
    [0x74, 0x73, 0x65, 0x74])

  /** The output sizes of the two composite write masks on that hive: the
      bin is its 32-byte header plus the eight-byte record, so a marshalled
      write is 4096 + 40 + 4 bytes and a raw write 4096 + 4 + 4. */
  lemma WriteFlagsLengths()
    ensures Writable(WriteFlagsHive)
    ensures Writable(WriteFlagsHive) && |HiveBytes(WriteFlagsHive, WriteParts(WriteAllMarshal))| == 4140
    ensures Writable(WriteFlagsHive) && |HiveBytes(WriteFlagsHive, WriteParts(WriteAllRaw))| == 4104
  {
    var h := WriteFlagsHive;
    assert HCells.ValidHeader(Cells.Header(h.hBins[0].cells[0]));
    assert Writable(h);
    AllBytes(h);
    var bin := h.hBins[0];
    assert HBins.MarshalCells(bin.cells) == Cells.MarshalCell(bin.cells[0]) + HBins.MarshalCells([]);
    assert |HBins.MarshalBin(bin)| == 40;
    assert HBinDatas.MarshalBins(h.hBins) == HBins.MarshalBin(bin) + HBinDatas.MarshalBins([]);
  }

  /** Bytes of a buffer cut at 4096 and at hbEnd, put back together. */
  lemma ThreeParts(data: seq<byte>, hbEnd: nat, head: seq<byte>, area: seq<byte>, rest: seq<byte>)
    requires BaseBlockSize <= hbEnd <= |data|
    requires head == data[..BaseBlockSize] && area == data[BaseBlockSize..hbEnd] && rest == data[hbEnd..]
    ensures head + area + rest == data
  {
    assert data == data[..BaseBlockSize] + data[BaseBlockSize..hbEnd] + data[hbEnd..];
  }

  /** The decoded base block re-encodes to the first 4096 bytes. */
  lemma HeaderRoundTrip(data: seq<byte>)
    requires |data| >= BaseBlockSize
    ensures BaseBlocks.Marshal(Header(data)) == data[..BaseBlockSize]
  {
    BaseBlocks.MarshalUnmarshalHead(data);
  }

  /** A hive holding the decoded header, the raw area and the remnant of a
      buffer writes back, raw, to that buffer. */
  lemma RawParts(r: Hive, data: seq<byte>, hbEnd: nat)
    requires Writable(r) && BaseBlockSize <= hbEnd <= |data|
    requires r.baseBlock == Header(data)
    requires r.rawHiveData == data[BaseBlockSize..hbEnd] && r.remnantData == data[hbEnd..]
    ensures HiveBytes(r, WriteParts(WriteAllRaw)) == data
  {
    HeaderRoundTrip(data);
    AllBytes(r);
    ThreeParts(data, hbEnd, BaseBlocks.Marshal(r.baseBlock), r.rawHiveData, r.remnantData);
  }

  /** Loading raw and writing raw gives back the buffer, whatever the bin
      area holds. */
  lemma RawRoundTrip(h: Hive, data: seq<byte>)
    requires Writable(h) && LoadHive(h, data, ReadParts(ReadAllRaw)).1.Pass?
    ensures Writable(LoadHive(h, data, ReadParts(ReadAllRaw)).0)
    ensures HiveBytes(LoadHive(h, data, ReadParts(ReadAllRaw)).0, WriteParts(WriteAllRaw)) == data
  {
    CompositeModes();
    var r := LoadHive(h, data, ReadParts(ReadAllRaw)).0;
    LoadWritable(h, data, ReadParts(ReadAllRaw));
    LoadRegions(h, data, ReadParts(ReadAllRaw));
    RawParts(r, data, BaseBlockSize + HBinSizeField(data));
  }

  /** A hive whose base block and bins re-encode to the two areas of a
      buffer, and whose remnant is the rest, writes back to that buffer. */
  lemma DecodedParts(r: Hive, data: seq<byte>, hbEnd: nat)
    requires Writable(r) && BaseBlockSize <= hbEnd <= |data|
    requires BaseBlocks.Marshal(r.baseBlock) == data[..BaseBlockSize]
    requires HBinDatas.MarshalBins(r.hBins) == data[BaseBlockSize..hbEnd]
    requires r.remnantData == data[hbEnd..]
    ensures HiveBytes(r, WriteParts(WriteAllMarshal)) == data
  {
    AllBytes(r);
    ThreeParts(data, hbEnd, BaseBlocks.Marshal(r.baseBlock), HBinDatas.MarshalBins(r.hBins), r.remnantData);
  }

  /** Loading everything decoded and writing it back gives the buffer, when
      the decoded bins re-encode to exactly the declared bin area. */
  lemma UnmarshalRoundTrip(h: Hive, data: seq<byte>)
    requires Writable(h) && LoadHive(h, data, ReadParts(ReadAllUnmarshal)).1.Pass?
    requires HBinSizeField(data) <= Int32Max
    requires forall b | b in LoadHive(h, data, ReadParts(ReadAllUnmarshal)).0.hBins :: HBinDatas.Fits(b)
    requires var r := LoadHive(h, data, ReadParts(ReadAllUnmarshal)).0;
      HBinDatas.Encodable(r.hBins) && |HBinDatas.MarshalBins(r.hBins)| == HBinSizeField(data)
    ensures Writable(LoadHive(h, data, ReadParts(ReadAllUnmarshal)).0)
    ensures HiveBytes(LoadHive(h, data, ReadParts(ReadAllUnmarshal)).0, WriteParts(WriteAllMarshal)) == data
  {
    CompositeModes();
    var r := LoadHive(h, data, ReadParts(ReadAllUnmarshal)).0;
    LoadWritable(h, data, ReadParts(ReadAllUnmarshal));
    LoadRegions(h, data, ReadParts(ReadAllUnmarshal));
    var hbEnd := BaseBlockSize + HBinSizeField(data);
    HeaderRoundTrip(data);
    HBinDatas.MarshalUnmarshalExact(data[BaseBlockSize..], HBinSizeField(data), r.hBins);
    PrefixOfSuffix(data, BaseBlockSize, hbEnd);
    DecodedParts(r, data, hbEnd);
  }

  /** A hive built from a base block whose HBinSize is the length of the
      encoded bins loads back to those parts and writes back to itself. */
  lemma MarshalRoundTrip(h: Hive, b: BaseBlocks.BaseBlock, bins: seq<HBins.HBin>, rem: seq<byte>)
    requires BaseBlocks.Valid(b) && HBinDatas.ValidBins(bins)
    requires b.hBinSize == |HBinDatas.MarshalBins(bins)|
    ensures var data := BaseBlocks.Marshal(b) + HBinDatas.MarshalBins(bins) + rem;
      && LoadHive(h, data, ReadParts(ReadAllUnmarshal)) == (Hive(b, bins, rem, h.rawHiveData), Pass)
      && HiveBytes(Hive(b, bins, rem, h.rawHiveData), WriteParts(WriteAllMarshal)) == data
  {
    CompositeModes();
    var p := ReadParts(ReadAllUnmarshal);
    var head, area := BaseBlocks.Marshal(b), HBinDatas.MarshalBins(bins);
    var data := head + area + rem;
    MarshalledParts(b, bins, rem);
    LoadSteps(h, data, p);
    AllBytes(Hive(b, bins, rem, h.rawHiveData));
  }

  /** What Load reads from an encoded hive: the base block, the size field,
      the bins and the remnant it was built from. */
  lemma MarshalledParts(b: BaseBlocks.BaseBlock, bins: seq<HBins.HBin>, rem: seq<byte>)
    requires BaseBlocks.Valid(b) && HBinDatas.ValidBins(bins)
    requires b.hBinSize == |HBinDatas.MarshalBins(bins)|
    ensures var data := BaseBlocks.Marshal(b) + HBinDatas.MarshalBins(bins) + rem;
      && |data| >= BaseBlockSize
      && Header(data) == b
      && HBinSizeField(data) == |HBinDatas.MarshalBins(bins)|
      && HBinDatas.UnmarshalBins(data[BaseBlockSize..], HBinSizeField(data)) == Ok(bins)
      && data[BaseBlockSize + HBinSizeField(data)..] == rem
  {
    var head, area := BaseBlocks.Marshal(b), HBinDatas.MarshalBins(bins);
    var data := head + area + rem;
    ConcatPieces(head, area, rem);
    WholePrefix(head);
    BaseBlocks.UnmarshalMarshal(b, []);
    AppendEmpty(head);
    AreaSizeIsField(data, Parts(true, false, false, false));
    HBinDatas.UnmarshalMarshalBins(bins, rem);
  }

  /** The uint32 arithmetic of the source agrees with the corrected one
      while 4096 + hbSize and the buffer length stay below 2^32. */
  lemma AsWrittenAgrees(h: Hive, data: seq<byte>, p: Parts)
    requires |data| < 0x1_0000_0000
    requires |data| >= BaseBlockSize ==> BaseBlockSize + HBinSizeField(data) < 0x1_0000_0000
    ensures LoadHiveAsWritten(h, data, p) == LoadHive(h, data, p)
  {
    if |data| >= BaseBlockSize {
      Below32(BaseBlockSize + HBinSizeField(data));
      Below32(|data|);
      AsWrittenSteps(h, data, p);
      LoadSteps(h, data, p);
    }
  }

  /** uint32 arithmetic leaves a value below 2^32 unchanged. */
  lemma Below32(n: nat)
    requires n < 0x1_0000_0000
    ensures n % 0x1_0000_0000 == n
  {
  }

  /** Load as written past the first check, in terms of the size field. */
  lemma AsWrittenSteps(h: Hive, data: seq<byte>, p: Parts)
    requires |data| >= BaseBlockSize
    ensures var hbEnd := (BaseBlockSize + HBinSizeField(data)) % 0x1_0000_0000;
      var h1 := WithHeader(h, data, p);
      LoadHiveAsWritten(h, data, p) ==
        if |data| % 0x1_0000_0000 < hbEnd then (h1, Fail(TooShort(|data|, hbEnd)))
        else if hbEnd < BaseBlockSize then
          if p.hBins || p.raw then (h1, Fail(RuntimePanic))
          else if p.remnant then (h1.(remnantData := data[hbEnd..]), Pass)
          else (h1, Pass)
        else TakeRegions(h1, data, p, hbEnd, AreaBins(h1, data, p, hbEnd))
  {
    AreaSizeIsField(data, p);
  }

  /** 4096 + size in uint32 arithmetic, for a size that wraps it, and a
      buffer length that fits in uint32. */
  lemma WrappedEnd(size: nat, length: nat)
    requires 0x1_0000_0000 - BaseBlockSize <= size < 0x1_0000_0000 && length < 0x1_0000_0000
    ensures (BaseBlockSize + size) % 0x1_0000_0000 == size + BaseBlockSize - 0x1_0000_0000 < BaseBlockSize
    ensures length % 0x1_0000_0000 == length
  {
  }

  /** A bin-area size field so large that 4096 + size wraps: the source
      panics on data[4096:hbEnd] where the corrected Load reports that the
      buffer is too short. */
  lemma WrappedEndPanics(h: Hive, data: seq<byte>)
    requires BaseBlockSize <= |data| < 0x1_0000_0000 - BaseBlockSize
    requires HBinSizeField(data) >= 0x1_0000_0000 - BaseBlockSize
    ensures LoadHiveAsWritten(h, data, ReadParts(ReadAllUnmarshal)).1 == Fail(RuntimePanic)
    ensures LoadHive(h, data, ReadParts(ReadAllUnmarshal)).1
      == Fail(TooShort(|data|, BaseBlockSize + HBinSizeField(data)))
  {
    var p := ReadParts(ReadAllUnmarshal);
    CompositeModes();
    AreaSizeIsField(data, p);
    WrappedEnd(HBinSizeField(data), |data|);
    AsWrittenSteps(h, data, p);
    LoadSteps(h, data, p);
  }

  /** With only the header and the remnant selected, the wrapped end makes
      the source succeed with a remnant that starts inside the base block,
      at byte 4096 + size - 2^32. */
  lemma WrappedEndRemnant(h: Hive, data: seq<byte>)
    requires BaseBlockSize <= |data| < 0x1_0000_0000 - BaseBlockSize
    requires HBinSizeField(data) >= 0x1_0000_0000 - BaseBlockSize
    ensures HBinSizeField(data) + BaseBlockSize - 0x1_0000_0000 < BaseBlockSize
    ensures var hbEnd := HBinSizeField(data) + BaseBlockSize - 0x1_0000_0000;
      LoadHiveAsWritten(h, data, Parts(true, false, false, true))
        == (h.(baseBlock := Header(data), remnantData := data[hbEnd..]), Pass)
  {
    var p := Parts(true, false, false, true);
    AreaSizeIsField(data, p);
    WrappedEnd(HBinSizeField(data), |data|);
    AsWrittenSteps(h, data, p);
  }

  /** A 4096-byte hive whose bin-area size field is 0xffffffff. */
  function WrappingHive(): (data: seq<byte>)
    ensures |data| == BaseBlockSize
  {
    seq(BaseBlockSize, i => if HBinSizeOffset <= i < HBinSizeOffset + 4 then 0xff else 0)
  }

  lemma WrappingHiveWitness(h: Hive)
    ensures LoadHiveAsWritten(h, WrappingHive(), ReadParts(ReadAllUnmarshal)).1 == Fail(RuntimePanic)
    ensures LoadHive(h, WrappingHive(), ReadParts(ReadAllUnmarshal)).1.Fail?
  {
    var data := WrappingHive();
    var field := data[HBinSizeOffset..HBinSizeOffset + 4];
    assert field == [0xff, 0xff, 0xff, 0xff];
    LeUintOfFour(field);
    WrappedEndPanics(h, data);
  }

  /** Registry: the base block, the decoded bins, the remnant and the raw
      bin area (the file pointer is not part of this model). */
  class Registry {
    var baseBlock: BaseBlocks.BaseBlock
    var hBins: seq<HBins.HBin>
    var remnantData: seq<byte>
    var rawHiveData: seq<byte>

    function State(): Hive
      reads this
    {
      Hive(baseBlock, hBins, remnantData, rawHiveData)
    }

    ghost predicate Valid()
      reads this
    {
      Writable(State())
    }

    constructor()
      ensures Valid() && State() == Empty
    {
      baseBlock := BaseBlocks.Zero;
      hBins := [];
      remnantData := [];
      rawHiveData := [];
    }

    /** Registry.Load: each step may return early, leaving the fields
        assigned so far. */
    method Load(data: seq<byte>, mode: Mode) returns (r: Outcome)
      requires Valid()
      modifies this
      ensures (State(), r) == LoadHive(old(State()), data, ReadParts(mode))
      ensures Valid()
    {
      ghost var h := State();
      var p := ReadParts(mode);
      if |data| < BaseBlockSize {
        LoadWritable(h, data, p);
        return Fail(TooShort(|data|, BaseBlockSize));
      }
      AreaSizeIsField(data, p);
      var hbSize := LeUint(data[HBinSizeOffset..HBinSizeOffset + 4]);
      if p.header {
        var b := BaseBlocks.Unmarshal(data[..BaseBlockSize]);
        baseBlock := b.value;
        hbSize := baseBlock.hBinSize;
      }
      ghost var h1 := State();
      assert h1 == WithHeader(h, data, p);
      var hbEnd := BaseBlockSize + hbSize;
      if |data| < hbEnd {
        LoadStopsShort(h, data, p);
        LoadWritable(h, data, p);
        return Fail(TooShort(|data|, hbEnd));
      }
      if p.hBins {
        var decoded := HBinDatas.DecodeBins(data[BaseBlockSize..], hbEnd - BaseBlockSize);
        if decoded.Err? {
          LoadTakes(h, data, p);
          LoadWritable(h, data, p);
          return Fail(decoded.error);
        }
        HBinDatas.UnmarshalBinsEncodable(data[BaseBlockSize..], hbEnd - BaseBlockSize);
        hBins := decoded.value;
      }
      assert AreaBins(h1, data, p, hbEnd) == Ok(hBins);
      if p.raw {
        rawHiveData := data[BaseBlockSize..hbEnd];
      }
      if p.remnant {
        remnantData := data[hbEnd..];
      }
      LoadTakes(h, data, p);
      return Pass;
    }

    /** Registry.Bytes: the selected parts appended to one buffer. */
    method Bytes(mode: Mode) returns (out: seq<byte>)
      requires Valid()
      ensures out == HiveBytes(State(), WriteParts(mode))
    {
      ghost var p := WriteParts(mode);
      out := [];
      if Has(mode, WriteHeader) {
        out := out + BaseBlocks.Marshal(baseBlock);
      }
      assert out == Opt(p.header, BaseBlocks.Marshal(baseBlock));
      if Has(mode, WriteHBins) {
        var bins := HBinDatas.EncodeBins(hBins);
        out := out + bins;
      }
      assert out == Opt(p.header, BaseBlocks.Marshal(baseBlock)) + Opt(p.hBins, HBinDatas.MarshalBins(hBins));
      if Has(mode, WriteHBinsRaw) {
        out := out + rawHiveData;
      }
      assert out == Opt(p.header, BaseBlocks.Marshal(baseBlock)) + Opt(p.hBins, HBinDatas.MarshalBins(hBins))
        + Opt(p.raw, rawHiveData);
      if Has(mode, WriteRemData) {
        out := out + remnantData;
      }
    }
  }
}
