/**
 * HBinData: the hive bins that follow the base block, decoded one after
 * the other and encoded back to back.
 */
module HBinDatas {
  import opened Results
  import opened Binary
  import BaseBlocks
  import HCells
  import Cells
  import HBins

  /** HBinData.Offset: the bins start right after the base block. */
  const Offset: int32 := BaseBlocks.BaseBlockSize as int32

  /** HBinData.Signature. */
  const Signature: string := "hbins"

  /** A bin decoder: the bin loop calls HBin.unmarshal (UnmarshalBin); its
      proofs hold for any decoder with the properties they name. */
  type BinDecoder = seq<byte> -> Result<HBins.HBin>

  /** HBinData.Size: the number of bins, as an int32. */
  function Count(bins: seq<HBins.HBin>): (n: int32)
    ensures |bins| <= Int32Max ==> n == |bins|
    ensures |bins| > Int32Max ==> n != |bins|
  {
    WrapInt32(|bins|)
  }

  /** The bins from offset start on, with each bin decoded from the bytes
      that start at its offset (the loop of HBinData.unmarshal with the slice
      it evidently means, data[start:]). mem runs to the end of the buffer's
      capacity and limit is the int32 of its length. The cursor advances by
      each bin's declared size; a zero size would leave it in place forever
      and a negative one sends it back to bytes already read, so the model
      stops there with NoProgress, unless the cursor goes below zero, where
      the next slice panics; so does an advance past the int32 range, which
      wraps the cursor to a negative offset. */
  function BinsFrom(decode: BinDecoder, mem: seq<byte>, limit: int32, start: int32): (r: Result<seq<HBins.HBin>>)
    requires 0 <= start && limit <= |mem|
    decreases limit - start
  {
    if start >= limit then Ok([])
    else
      var b :- decode(mem[start..]);
      var size := b.header.size;
      if size == 0 then Err(NoProgress)
      else if size < 0 then (if start + size < 0 then Err(RuntimePanic) else Err(NoProgress))
      else if start + size > Int32Max then Err(RuntimePanic)
      else
        var rest :- BinsFrom(decode, mem, limit, start + size);
        Ok([b] + rest)
  }

  /** HBinData.unmarshal with the bins read from their own offsets: the
      bytes run to the end of capacity and len of them are the data. */
  function UnmarshalBins(mem: seq<byte>, len: nat): (r: Result<seq<HBins.HBin>>)
    requires len <= |mem|
  {
    BinsFrom(HBins.UnmarshalBin, mem, WrapInt32(len), 0)
  }

  /** The loop of HBinData.unmarshal as written: the bin at start is decoded
      from data[start:start+prev], where prev is the size of the bin read
      before it (zero for the first). Nothing in HBin.unmarshal looks at the
      length of that slice, so the bin decodes as it would from data[start:],
      but the slice expression itself panics when start+prev wraps past the
      int32 range or reaches past the capacity. A zero size reads the same
      bin again and again, so the loop never ends (NoProgress); a negative
      size s moves the cursor back to start+s and the next slice,
      data[start+s:start+2s], has its high bound below its low bound, so it
      panics whatever the bytes. */
  function BinsFromAsWritten(decode: BinDecoder, mem: seq<byte>, limit: int32, start: int32, prev: int32): (r: Result<seq<HBins.HBin>>)
    requires 0 <= start && 0 <= prev && limit <= |mem|
    decreases limit - start
  {
    if start >= limit then Ok([])
    else if start + prev > Int32Max || start + prev > |mem| then Err(RuntimePanic)
    else
      var b :- decode(mem[start..]);
      var size := b.header.size;
      if size == 0 then Err(NoProgress)
      else if size < 0 then Err(RuntimePanic)
      else if start + size > Int32Max then Err(RuntimePanic)
      else
        var rest :- BinsFromAsWritten(decode, mem, limit, start + size, size);
        Ok([b] + rest)
  }

  function UnmarshalBinsAsWritten(mem: seq<byte>, len: nat): (r: Result<seq<HBins.HBin>>)
    requires len <= |mem|
  {
    BinsFromAsWritten(HBins.UnmarshalBin, mem, WrapInt32(len), 0, 0)
  }

  /** As written, a bin that declares a negative size makes the loop panic
      on its next slice. */
  lemma NegativeSizePanics(decode: BinDecoder, mem: seq<byte>, limit: int32, start: int32, prev: int32, b: HBins.HBin)
    requires 0 <= start < limit <= |mem| && 0 <= prev && start + prev <= Int32Max && start + prev <= |mem|
    requires decode(mem[start..]) == Ok(b) && b.header.size < 0
    ensures BinsFromAsWritten(decode, mem, limit, start, prev) == Err(RuntimePanic)
  {
  }

  lemma WrapBelow(len: nat)
    ensures WrapInt32(len) <= len
  {
  }

  /** The loop as written gives what the corrected loop gives, or panics. */
  lemma {:induction false} AsWrittenOrPanic(decode: BinDecoder, mem: seq<byte>, limit: int32, start: int32, prev: int32)
    requires 0 <= start && 0 <= prev && limit <= |mem|
    ensures var w := BinsFromAsWritten(decode, mem, limit, start, prev);
      w == BinsFrom(decode, mem, limit, start) || w == Err(RuntimePanic)
    decreases limit - start
  {
    if start < limit && start + prev <= Int32Max && start + prev <= |mem| {
      var b := decode(mem[start..]);
      if b.Ok? && b.value.header.size > 0 && start + b.value.header.size <= Int32Max {
        var next: int32 := start + b.value.header.size;
        AsWrittenOrPanic(decode, mem, limit, next, b.value.header.size);
      }
    }
  }

  lemma UnmarshalAsWrittenOrPanic(mem: seq<byte>, len: nat)
    requires len <= |mem|
    ensures var w := UnmarshalBinsAsWritten(mem, len);
      w == UnmarshalBins(mem, len) || w == Err(RuntimePanic)
  {
    WrapBelow(len);
    AsWrittenOrPanic(HBins.UnmarshalBin, mem, WrapInt32(len), 0, 0);
  }

  /** One step of the bin loop: the bin at start decodes with a positive
      size, so it comes first and the loop goes on at next. */
  lemma BinsFromStep(decode: BinDecoder, mem: seq<byte>, limit: int32, start: int32, b: HBins.HBin, next: int32)
    requires 0 <= start < limit <= |mem|
    requires decode(mem[start..]) == Ok(b) && b.header.size > 0 && next == start + b.header.size
    ensures BinsFrom(decode, mem, limit, start) == Prepend([b], BinsFrom(decode, mem, limit, next))
  {
  }

  /** The loop of HBinData.unmarshal as a method, over the bins' own
      offsets. */
  method DecodeBins(mem: seq<byte>, len: nat) returns (r: Result<seq<HBins.HBin>>)
    requires len <= |mem|
    ensures r == UnmarshalBins(mem, len)
  {
    var limit := WrapInt32(len);
    WrapBelow(len);
    r := DecodeBinsFrom(HBins.UnmarshalBin, mem, limit);
  }

  /** The cursor loop over the bins with the given decoder. */
  method DecodeBinsFrom(decode: BinDecoder, mem: seq<byte>, limit: int32) returns (r: Result<seq<HBins.HBin>>)
    requires limit <= |mem|
    ensures r == BinsFrom(decode, mem, limit, 0)
  {
    var bins: seq<HBins.HBin> := [];
    var start: int32 := 0;
    PrependNothing(BinsFrom(decode, mem, limit, start));
    while start < limit
      invariant 0 <= start
      invariant BinsFrom(decode, mem, limit, 0) == Prepend(bins, BinsFrom(decode, mem, limit, start))
      decreases limit - start
    {
      var b := decode(mem[start..]);
      if b.Err? {
        return Err(b.error);
      }
      var size := b.value.header.size;
      if size == 0 {
        return Err(NoProgress);
      }
      if size < 0 {
        if start + size < 0 {
          return Err(RuntimePanic);
        }
        return Err(NoProgress);
      }
      if start + size > Int32Max {
        return Err(RuntimePanic);
      }
      var next: int32 := start + size;
      BinsFromStep(decode, mem, limit, start, b.value, next);
      PrependOne(bins, b.value, BinsFrom(decode, mem, limit, next));
      bins := bins + [b.value];
      start := next;
    }
    AppendEmpty(bins);
    return Ok(bins);
  }

  /** Every bin's cells have two-byte tags. */
  predicate Encodable(bins: seq<HBins.HBin>) {
    forall b | b in bins :: HBins.Encodable(b.cells)
  }

  /** HBinData.marshal: the bins' encodings back to back. */
  function MarshalBins(bins: seq<HBins.HBin>): seq<byte>
    requires Encodable(bins)
  {
    if bins == [] then [] else HBins.MarshalBin(bins[0]) + MarshalBins(bins[1..])
  }

  lemma {:induction false} MarshalBinsAppend(bins: seq<HBins.HBin>, b: HBins.HBin)
    requires Encodable(bins) && HBins.Encodable(b.cells)
    ensures Encodable(bins + [b])
    ensures MarshalBins(bins + [b]) == MarshalBins(bins) + HBins.MarshalBin(b)
  {
    if bins == [] {
      assert [] + [b] == [b];
    } else {
      assert (bins + [b])[1..] == bins[1..] + [b];
      MarshalBinsAppend(bins[1..], b);
      ConcatAssoc(HBins.MarshalBin(bins[0]), MarshalBins(bins[1..]), HBins.MarshalBin(b));
    }
  }

  /** HBinData.marshal as the source writes it: one buffer, each bin
      appended in order. */
  method EncodeBins(bins: seq<HBins.HBin>) returns (out: seq<byte>)
    requires Encodable(bins)
    ensures out == MarshalBins(bins)
  {
    out := [];
    for k := 0 to |bins|
      invariant Encodable(bins[..k])
      invariant out == MarshalBins(bins[..k])
    {
      assert bins[k] in bins && bins[..k + 1] == bins[..k] + [bins[k]];
      MarshalBinsAppend(bins[..k], bins[k]);
      var b := HBins.EncodeBin(bins[k]);
      out := out + b;
    }
    assert bins[..|bins|] == bins;
  }

  /** Bins that decode from their own encoding: each bin valid, and the
      whole within the int32 range of the cursor. */
  predicate ValidBins(bins: seq<HBins.HBin>) {
    && (forall b | b in bins :: HBins.ValidBin(b))
    && Encodable(bins)
    && |MarshalBins(bins)| <= Int32Max
  }

  /** The decoder reads every valid bin back from its encoding, whatever
      follows it. */
  ghost predicate Inverts(decode: BinDecoder) {
    forall b: HBins.HBin, tail: seq<byte> | HBins.ValidBin(b) :: decode(HBins.MarshalBin(b) + tail) == Ok(b)
  }

  lemma UnmarshalBinInverts()
    ensures Inverts(HBins.UnmarshalBin)
  {
    forall b: HBins.HBin, tail: seq<byte> | HBins.ValidBin(b)
      ensures HBins.UnmarshalBin(HBins.MarshalBin(b) + tail) == Ok(b)
    {
      HBins.UnmarshalMarshalBin(b, tail);
    }
  }

  /** The first of a run of encoded bins, the offset past it and what
      follows it there. */
  lemma BinsHead(decode: BinDecoder, mem: seq<byte>, limit: int32, start: int32, bins: seq<HBins.HBin>)
    returns (next: int32)
    requires Inverts(decode) && ValidBins(bins) && bins != [] && 0 <= start
    requires limit == start + |MarshalBins(bins)| <= |mem|
    requires mem[start..limit] == MarshalBins(bins)
    ensures start < next <= limit && next == start + bins[0].header.size
    ensures decode(mem[start..]) == Ok(bins[0])
    ensures ValidBins(bins[1..]) && limit == next + |MarshalBins(bins[1..])|
    ensures mem[next..limit] == MarshalBins(bins[1..])
  {
    var b := bins[0];
    assert b in bins;
    var e := HBins.MarshalBin(b);
    var rest := MarshalBins(bins[1..]);
    next := start + |e| as int32;
    SliceSplit(mem, start as nat, next as nat, limit as nat, e, rest);
    SuffixJoin(mem, start as nat, next as nat, e);
    assert forall c | c in bins[1..] :: c in bins;
  }

  /** Valid bins decode from their encoding, whatever capacity lies
      beyond it. */
  lemma {:induction false} BinsFromMarshal(decode: BinDecoder, mem: seq<byte>, limit: int32, start: int32, bins: seq<HBins.HBin>)
    requires Inverts(decode) && ValidBins(bins) && 0 <= start
    requires limit == start + |MarshalBins(bins)| <= |mem|
    requires mem[start..limit] == MarshalBins(bins)
    ensures BinsFrom(decode, mem, limit, start) == Ok(bins)
    decreases |bins|
  {
    if bins != [] {
      var next := BinsHead(decode, mem, limit, start, bins);
      BinsFromMarshal(decode, mem, limit, next, bins[1..]);
      BinsFromStep(decode, mem, limit, start, bins[0], next);
      HeadTail(bins);
    }
  }

  /** HBinData round trip: the encoding of valid bins, with any bytes
      after it as spare capacity, decodes to the same bins. */
  lemma UnmarshalMarshalBins(bins: seq<HBins.HBin>, tail: seq<byte>)
    requires ValidBins(bins)
    ensures UnmarshalBins(MarshalBins(bins) + tail, |MarshalBins(bins)|) == Ok(bins)
  {
    var mem := MarshalBins(bins) + tail;
    var limit: int32 := |MarshalBins(bins)| as int32;
    assert mem[0..limit] == MarshalBins(bins);
    UnmarshalBinInverts();
    BinsFromMarshal(HBins.UnmarshalBin, mem, limit, 0, bins);
  }

  /** A bin whose encoding is exactly as long as its declared size. */
  predicate Fits(b: HBins.HBin) {
    HBins.Encodable(b.cells) && |HBins.MarshalBin(b)| == b.header.size
  }

  /** Whatever the decoder accepts re-encodes to a prefix of the bytes it
      was given, at least as long as the declared size. */
  ghost predicate Reencodes(decode: BinDecoder) {
    forall m | decode(m).Ok? ::
      && HBins.Encodable(decode(m).value.cells)
      && decode(m).value.header.size <= |HBins.MarshalBin(decode(m).value)| <= |m|
      && HBins.MarshalBin(decode(m).value) == m[..|HBins.MarshalBin(decode(m).value)|]
  }

  lemma UnmarshalBinReencodes()
    ensures Reencodes(HBins.UnmarshalBin)
  {
    forall m | HBins.UnmarshalBin(m).Ok?
      ensures HBins.Encodable(HBins.UnmarshalBin(m).value.cells)
      ensures HBins.UnmarshalBin(m).value.header.size <= |HBins.MarshalBin(HBins.UnmarshalBin(m).value)| <= |m|
      ensures HBins.MarshalBin(HBins.UnmarshalBin(m).value) == m[..|HBins.MarshalBin(HBins.UnmarshalBin(m).value)|]
    {
      HBins.MarshalUnmarshalBin(m);
    }
  }

  /** The first step of a bin loop that succeeded. */
  lemma BinsFromHead(decode: BinDecoder, mem: seq<byte>, limit: int32, start: int32, bins: seq<HBins.HBin>)
    returns (b: HBins.HBin, next: int32, rest: seq<HBins.HBin>)
    requires 0 <= start < limit <= |mem|
    requires BinsFrom(decode, mem, limit, start) == Ok(bins)
    ensures decode(mem[start..]) == Ok(b) && b.header.size > 0
    ensures next == start + b.header.size && start < next
    ensures bins == [b] + rest && BinsFrom(decode, mem, limit, next) == Ok(rest)
  {
    b := decode(mem[start..]).value;
    next := start + b.header.size;
    rest := BinsFrom(decode, mem, limit, next).value;
  }

  /** Decoded bins that fit re-encode to the bytes they were read from,
      which run from start at least up to the limit. */
  lemma {:induction false} BinsFromEncodes(decode: BinDecoder, mem: seq<byte>, limit: int32, start: int32, bins: seq<HBins.HBin>)
    returns (end: nat)
    requires Reencodes(decode) && 0 <= start <= |mem| && limit <= |mem|
    requires BinsFrom(decode, mem, limit, start) == Ok(bins)
    requires forall b | b in bins :: Fits(b)
    ensures Encodable(bins) && end == start + |MarshalBins(bins)|
    ensures end >= limit && end <= |mem| && mem[start..end] == MarshalBins(bins)
    decreases limit - start
  {
    if start >= limit {
      end := start as nat;
    } else {
      var b, next, rest := BinsFromHead(decode, mem, limit, start, bins);
      assert b in bins;
      var e := HBins.MarshalBin(b);
      assert e == mem[start..][..|e|];
      assert e == mem[start..next];
      assert forall c | c in rest :: c in bins;
      end := BinsFromEncodes(decode, mem, limit, next, rest);
      EncodedCons(b, rest, bins);
      SliceJoin(mem, start as nat, next as nat, end);
    }
  }

  lemma EncodedCons(b: HBins.HBin, rest: seq<HBins.HBin>, bins: seq<HBins.HBin>)
    requires bins == [b] + rest && HBins.Encodable(b.cells) && Encodable(rest)
    ensures Encodable(bins) && MarshalBins(bins) == HBins.MarshalBin(b) + MarshalBins(rest)
  {
    assert bins[0] == b && bins[1..] == rest;
  }

  /** Every bin the loop returns can be encoded again. */
  lemma {:induction false} BinsFromEncodable(decode: BinDecoder, mem: seq<byte>, limit: int32, start: int32, bins: seq<HBins.HBin>)
    requires Reencodes(decode) && 0 <= start && limit <= |mem|
    requires BinsFrom(decode, mem, limit, start) == Ok(bins)
    ensures Encodable(bins)
    decreases limit - start
  {
    if start < limit {
      var b, next, rest := BinsFromHead(decode, mem, limit, start, bins);
      BinsFromEncodable(decode, mem, limit, next, rest);
      EncodedCons(b, rest, bins);
    }
  }

  /** HBinData.unmarshal only returns bins that HBinData.marshal accepts. */
  lemma UnmarshalBinsEncodable(mem: seq<byte>, len: nat)
    requires len <= |mem|
    ensures UnmarshalBins(mem, len).Ok? ==> Encodable(UnmarshalBins(mem, len).value)
  {
    if UnmarshalBins(mem, len).Ok? {
      UnmarshalBinReencodes();
      BinsFromEncodable(HBins.UnmarshalBin, mem, WrapInt32(len), 0, UnmarshalBins(mem, len).value);
    }
  }

  /** HBinData decode then encode: bins that fit give back the bytes they
      were read from, at least the first len of them when len is within
      the int32 range. */
  lemma MarshalUnmarshalBins(mem: seq<byte>, len: nat)
    requires len <= |mem| && len <= Int32Max
    requires UnmarshalBins(mem, len).Ok?
    requires forall b | b in UnmarshalBins(mem, len).value :: Fits(b)
    ensures Encodable(UnmarshalBins(mem, len).value)
    ensures var out := MarshalBins(UnmarshalBins(mem, len).value);
      len <= |out| <= |mem| && out == mem[..|out|]
  {
    UnmarshalBinReencodes();
    var end := BinsFromEncodes(HBins.UnmarshalBin, mem, len as int32, 0, UnmarshalBins(mem, len).value);
  }

  /** Bins that decode from the first len bytes and re-encode to exactly len
      bytes re-encode to those bytes. */
  lemma MarshalUnmarshalExact(mem: seq<byte>, len: nat, bins: seq<HBins.HBin>)
    requires len <= |mem| && len <= Int32Max
    requires UnmarshalBins(mem, len) == Ok(bins)
    requires forall b | b in bins :: Fits(b)
    requires Encodable(bins) && |MarshalBins(bins)| == len
    ensures MarshalBins(bins) == mem[..len]
  {
    MarshalUnmarshalBins(mem, len);
  }

  /** The bins of the counterexample: a 40-byte bin holding one 8-byte data
      record, and an empty 32-byte bin after it. */
  function FirstBin(): HBins.HBin {
    var record := HCells.DataRecord(HCells.HCellData(-8, [0, 0], 0, 32, []), [0, 0, 0, 0]);
    HBins.HBin(HBins.HBinHeader(0x6e69_6268, 0, 40, 0, 0, 0), [Cells.DataRecord(record)])
  }

  function SecondBin(): HBins.HBin {
    HBins.HBin(HBins.HBinHeader(0x6e69_6268, 40, 32, 0, 0, 0), [])
  }

  lemma CounterexampleValid()
    ensures HBins.ValidBin(FirstBin()) && HBins.ValidBin(SecondBin())
    ensures FirstBin().header.size > SecondBin().header.size
  {
    var c := FirstBin().cells[0];
    Cells.MarshalLength(Cells.SetCellOffset(c, 0));
    assert HBins.Placed([], 40);
    assert HBins.MarshalCells(FirstBin().cells) == Cells.MarshalCell(c);
    Cells.MarshalIgnoresOffset(c, 0);
  }

  /** A bin followed by a smaller one, with no spare capacity: the loop as
      written panics on the second slice, which reaches past the end by the
      difference of the sizes, while the bins decode from their own
      offsets. */
  lemma PrevSizePanicsWith(decode: BinDecoder, b1: HBins.HBin, b2: HBins.HBin)
    requires Inverts(decode) && ValidBins([b1, b2]) && b2.header.size < b1.header.size
    ensures var mem := MarshalBins([b1, b2]);
      && BinsFromAsWritten(decode, mem, |mem| as int32, 0, 0) == Err(RuntimePanic)
      && BinsFrom(decode, mem, |mem| as int32, 0) == Ok([b1, b2])
  {
    var mem := MarshalBins([b1, b2]);
    var limit: int32 := |mem| as int32;
    assert mem[0..limit] == mem;
    BinsFromMarshal(decode, mem, limit, 0, [b1, b2]);
    var next := BinsHead(decode, mem, limit, 0, [b1, b2]);
    assert b1 in [b1, b2] && b2 in [b1, b2];
    assert BinsFromAsWritten(decode, mem, limit, next, b1.header.size) == Err(RuntimePanic);
  }

  /** A valid bin encodes to exactly its declared size. */
  lemma ValidBinFits(b: HBins.HBin)
    requires HBins.ValidBin(b)
    ensures Fits(b) && b.header.size >= HBins.HBinHeaderSize
  {
  }

  /** Two valid bins whose sizes add up within the int32 range. */
  lemma ValidPair(b1: HBins.HBin, b2: HBins.HBin)
    requires HBins.ValidBin(b1) && HBins.ValidBin(b2) && b1.header.size + b2.header.size <= Int32Max
    ensures ValidBins([b1, b2])
    ensures |MarshalBins([b1, b2])| == b1.header.size + b2.header.size
  {
    ValidBinFits(b1);
    ValidBinFits(b2);
    var bins := [b1, b2];
    assert bins[1..] == [b2] && bins[1..][1..] == [];
    assert MarshalBins([b2]) == HBins.MarshalBin(b2) + MarshalBins([]);
    assert MarshalBins(bins) == HBins.MarshalBin(b1) + MarshalBins([b2]);
  }

  /** The concrete pair is valid and 72 bytes long. */
  lemma CounterexampleBins()
    ensures ValidBins([FirstBin(), SecondBin()])
    ensures |MarshalBins([FirstBin(), SecondBin()])| == 72
  {
    CounterexampleValid();
    ValidPair(FirstBin(), SecondBin());
  }

  /** The as-written loop fails on the concrete pair of bins, which the
      corrected loop decodes. */
  lemma PrevSizeWitness()
    ensures var mem := MarshalBins([FirstBin(), SecondBin()]);
      && |mem| == 72
      && UnmarshalBinsAsWritten(mem, |mem|) == Err(RuntimePanic)
      && UnmarshalBins(mem, |mem|) == Ok([FirstBin(), SecondBin()])
  {
    CounterexampleBins();
    CounterexampleValid();
    UnmarshalBinInverts();
    PrevSizePanicsWith(HBins.UnmarshalBin, FirstBin(), SecondBin());
  }
}
