# winrego regf block codec, modelled in Dafny

winrego reads and writes Windows registry hive files (the "regf"
format). This project models its core:

- **The block codec.** Every record of a hive, decoded from little-endian
  bytes and encoded back:
  - the 4096-byte base block;
  - the hive bins ("hbin") and the bin area that holds them;
  - the eight-byte cell header;
  - the typed cells: index leaf "li", index root "ri", fast leaf "lf",
    hash leaf "lh", key node "nk", key value "vk", key security "sk" and
    big data "db";
  - the raw data record, used for any cell with an unknown signature.
- **The `Registry`.** `Load` splits a hive buffer into the base block, the
  bin area and the remnant after it, guided by read flags. `Bytes` puts the
  parts the write flags select back together.

How the model is organised:

- **Decoders and encoders are pure functions.** Each decoder returns a
  `Result` whose error kinds follow the source's error paths:
  - a buffer that is too short;
  - a declared length out of bounds;
  - the end of the data;
  - an invalid block;
  - a Go runtime panic, where a slice expression or `make` in the source
    would panic.
- **Loops become methods.** Every loop of the source is a `method` with a
  `while` loop, proved equal to the recursive function that specifies it.
  This covers the field reader and writer, the cell loop and the bin
  loop, and the encoders that append to a buffer.
- **`Registry` is a class.** Its `Load` and `Bytes` update and read the
  fields the source's struct holds.
- **Struct layouts are explicit.** The source reads and writes structs
  through reflection in `encoding/binary`. Here each struct layout is an
  explicit list of field kinds (module `Binary`), and one generic
  read/write pair is proved to round-trip over any layout.

Main results:

- **decode-then-encode:** for every record type, a decoded record
  re-encodes to the bytes it was read from.
- **encode-then-decode:** every well-formed record comes back from its own
  encoding.
- **Whole-hive round trips:** loading a hive and writing it back gives the
  same bytes, in raw mode and in decoded mode.
- **The read and write flags:** which parts `Load` takes and `Bytes` emits.
- **Findings:** three places where the source does not do what it
  evidently means. Each is modelled twice, as written and as corrected.

## Model

| member | source | states |
|---|---|---|
| Binary.Read | block/block.go:148-156 | Reading a layout succeeds exactly when the buffer holds all of its bytes; otherwise it fails with end-of-data. The values read conform to the layout. |
| Binary.ReadAll | block/block.go:148-160 | The cursor loop that reads each field from one shared reader returns exactly what `Read` defines. |
| Binary.ReadStep | block/block.go:148-160 | One step of the reader: field i comes from the front of the unread bytes, or the read stops with end-of-data. |
| Binary.WriteAll | block/block.go:168-180 | The loop that appends each field's encoding to one buffer returns `Write`. |
| Binary.Write | block/block.go:168-176 | binaryWriteAll: the little-endian encodings of the values back to back. Its partners are `ReadWrite` and `WriteRead`, the round trips with `Read`, and `WriteLength`. |
| Binary.WriteLength | block/block.go:168-176 | The encoding of a conforming record is exactly as long as its layout. |
| Binary.ReadWrite | block/block.go:143-180 | Reading back what was written gives the written values, whatever bytes follow. |
| Binary.WriteRead | block/block.go:143-180 | Writing back what was read reproduces exactly the bytes the layout covers. |
| Binary.DecodeEncodeValue | block/block.go:143-166 | A single field decodes from its own little-endian encoding. |
| Binary.EncodeDecodeValue | block/block.go:143-166 | A single field's bytes re-encode to themselves. |
| Binary.LeBytesOfLeUint | block/block.go:143-146 | Little-endian encoding inverts little-endian decoding at every width. |
| Binary.LeUintInjective | block/block.go:143-146 | Two byte strings of one width with the same little-endian value are equal. |
| Binary.Uint32ToBytesReversesWire | block/block.go:182-184 | A field read little-endian and rendered by uint32toba comes out with its wire bytes reversed. |
| Binary.Uint32ToBytes | block/block.go:182-184 | uint32toba: the four bytes of a uint32, most significant first. Its partner `Uint32ToBytesReversesWire` shows that these are the wire bytes of a little-endian field, reversed. |
| Filetime.ParseFiletime | block/block.go:138-141 | As written: for FILETIMEs from 1970 on, the result is the Unix second of the timestamp. Before 1970 the uint64 subtraction wraps, giving a large positive count. |
| Filetime.UnixSeconds | block/block.go:138-141 | Corrected: the result is the Unix second that contains the FILETIME (floor), for every FILETIME. |
| Filetime.UnixSecondsOfToFiletime | block/block.go:138-141 | The corrected conversion inverts the seconds-to-FILETIME map. |
| Filetime.UnixSecondsOfTick | block/block.go:138-141 | Every tick inside a second maps to that second. |
| Filetime.ParseFiletimeWrapsBeforeEpoch | block/block.go:138-141 | One tick before 1970 the source answers 1844674407370 seconds, where the intended answer is -1. |
| Filetime.ParseFiletimeOfZero | block/block.go:138-141 | The all-zero timestamp of a fresh hive parses to a positive date instead of one in 1601. |
| BaseBlocks.ShapeWidths | block/block.go:86-113 | The base block struct is 4096 bytes, and HBinSize is the uint32 at offset 40. |
| BaseBlocks.Unmarshal | block/block.go:119-124 | Decoding succeeds exactly when at least 4096 bytes are given; otherwise it reports too-short with both lengths. A decoded block has Go-sized arrays. |
| BaseBlocks.UnmarshalFields | block/block.go:86-124 | The decoded HBinSize and RegfHeader are the little-endian values of bytes 40..44 and 0..4. |
| BaseBlocks.Marshal | block/block.go:115-117 | The encoding of a base block is exactly 4096 bytes. |
| BaseBlocks.MarshalUnmarshal | block/block.go:115-124 | A decoded base block re-encodes to the first 4096 bytes it was read from. |
| BaseBlocks.MarshalUnmarshalHead | block/block.go:115-124 | Decoding only the first 4096 bytes, then encoding, gives those bytes. |
| BaseBlocks.UnmarshalMarshal | block/block.go:115-124 | A valid base block decodes from its own encoding, whatever follows it. |
| BaseBlocks.Signature | block/block.go:134-136 | The signature is four bytes. |
| BaseBlocks.SignatureOfDecoded | block/block.go:134-136 | The signature of a decoded block is its first four bytes reversed. |
| BaseBlocks.SignatureOfRegf | block/block.go:134-136 | A hive starting with "regf" reports the signature "fger". |
| HCells.UnmarshalHeader | block/hcell.go:44-49 | Decoding the cell header succeeds exactly with eight or more bytes; otherwise it reports too-short. The parent offset and padding start empty. |
| HCells.MarshalHeader | block/hcell.go:51-53 | The header encodes to eight bytes. |
| HCells.UnmarshalHeaderFields | block/hcell.go:22-49 | The size is the int32 at bytes 0..4, the signature is bytes 4..6 and the metadata is the uint16 at 6..8. |
| HCells.MarshalUnmarshalHeader | block/hcell.go:44-53 | A decoded header re-encodes to the first eight bytes. |
| HCells.UnmarshalMarshalHeader | block/hcell.go:44-53 | An encoded header decodes back, with only its off-wire fields reset. |
| HCells.Size | block/hcell.go:70-77 | The cell size is the absolute value of the size field. The most negative int32 stays negative, as the source's int32 negation leaves it. |
| HCells.SizeIgnoresAllocation | block/hcell.go:70-77 | An allocated cell (negative size) and a free cell of the same magnitude have the same size. |
| HCells.AssertPayloadDataSize | block/hcell.go:63-68 | The check fails exactly when the buffer is shorter than the cell, and reports both lengths. |
| HCells.SetOffset | block/hcell.go:59-61 | Only the parent-bin offset changes, and it becomes the given offset. |
| HCells.FieldAndPadding | block/nk.go:76-82 | A declared end past the buffer is out-of-bounds with the declared length. An end before the field or past the cell panics. Otherwise the field and the padding are the two slices, and they tile the cell. |
| HCells.UnmarshalDataRecord | block/hcell.go:103-112 | A data record decodes exactly when four size bytes exist and the size lies between 4 and the buffer length. The payload is the bytes 4 up to the size. |
| HCells.MarshalDataRecord | block/hcell.go:99-101 | A record encodes to its size field followed by its payload. |
| HCells.MarshalUnmarshalDataRecord | block/hcell.go:99-112 | A decoded record re-encodes to the buffer's first size bytes. |
| HCells.UnmarshalMarshalDataRecord | block/hcell.go:99-112 | A record whose size covers its payload decodes from its encoding, whatever follows. |
| HCells.DataRecordStopsAtSize | block/hcell.go:103-112 | A 16-byte record in a 20-byte buffer keeps 12 payload bytes: the payload ends at the size. |
| HCells.DataRecordWholeCell | block/hcell.go:103-112 | When the buffer is exactly as long as the record's size, which is how the bin loop hands over every cell, the payload is everything after the size field. |
| Cells.TypeOfSignature | block/block.go:50-75 | Each known signature selects its own cell type. |
| Cells.SignatureOfType | block/block.go:50-75 | Only that signature selects that type; every other signature falls through to a data record. |
| Cells.UnmarshalHCell | block/block.go:46-76 | An empty or unaligned buffer is an invalid block. A decoded cell has the type its signature bytes select, and a size within the buffer. |
| Cells.UnmarshalList | block/li.go:20-37 | The four index cell types share one decoder. Its result has the requested type and a size within the buffer. |
| Cells.UnmarshalKeyNode | block/nk.go:65-84 | The "nk" branch yields a key node whose size lies within the buffer. |
| Cells.UnmarshalKeyValue | block/vk.go:54-73 | The "vk" branch yields a key value whose size lies within the buffer. |
| Cells.UnmarshalKeySecurity | block/sk.go:36-55 | The "sk" branch yields a key security cell whose size lies within the buffer. |
| Cells.UnmarshalBigData | block/db.go:16-30 | The "db" branch yields a big data cell whose size lies within the buffer. |
| Cells.UnmarshalRecord | block/hcell.go:103-112 | The default branch yields a data record whose size lies within the buffer. |
| Cells.Dispatch | block/block.go:50-75 | An aligned buffer goes to the branch its signature selects. |
| Cells.SetCellOffset | block/hcell.go:59-61 | Stamping a cell changes only its header's offset, never its type. |
| Cells.MarshalIgnoresOffset | block/hcell.go:51-61 | The offset is not on the wire: a stamped cell encodes like the unstamped one. |
| Cells.Restamp | block/hcell.go:59-61 | Stamping with 0 and then with the original offset restores the cell. |
| Cells.MarshalLength | block/block.go:19-21 | A valid cell encodes to exactly its size. |
| Cells.MarshalCell | block/block.go:19-21 | Encodes a cell with its own type's marshal, chosen by the cell's kind. Its partners `UnmarshalMarshalCell` and `MarshalUnmarshalCell` are the round trips with `UnmarshalHCell`. |
| Cells.UnmarshalMarshalCell | block/block.go:46-76 | Every valid cell of every type decodes from its own encoding. |
| Cells.MarshalUnmarshalCell | block/block.go:46-76 | A cell read from a buffer of exactly its size re-encodes to that buffer. |
| Blocks.UnmarshalBlock | block/block.go:27-44 | An empty or unaligned buffer is invalid. "regf" yields a base block and "hbin" yields a bin, in both directions. Whatever is decoded can be encoded. |
| Blocks.TagSizes | block/block.go:33-43 | "regf" and "hbin", read as a cell size field, are 0x66676572 and 0x6e696268. |
| Blocks.NotATag | block/block.go:33-43 | An aligned size field other than the "hbin" value spells neither tag. |
| Blocks.BaseArm | block/block.go:33-35 | A "regf" buffer goes to the base block decoder. |
| Blocks.BinArm | block/block.go:36-37 | An "hbin" buffer goes to the bin decoder. |
| Blocks.CellArm | block/block.go:38-39 | Any other buffer goes to the cell decoder. |
| Blocks.UnmarshalMarshalBase | block/block.go:27-44 | A valid base block with the "regf" header comes back from its encoding. |
| Blocks.UnmarshalMarshalBin | block/block.go:27-44 | A valid "hbin" bin of aligned length comes back from its encoding. |
| Blocks.UnmarshalMarshalCell | block/block.go:27-44 | A valid cell comes back from its encoding, unless its size field spells "hbin". |
| Blocks.MarshalUnmarshalBlock | block/block.go:19-44 | Decode then encode gives back the 4096 header bytes, a prefix of at least the declared bin size, or all of a cell's bytes. |
| Blocks.Marshal | block/block.go:19-21 | block.Marshal: encodes a base block, a bin or a cell with its own marshal. Its partners are `UnmarshalMarshalBase`, `UnmarshalMarshalBin`, `UnmarshalMarshalCell` and `MarshalUnmarshalBlock`. |
| HBins.UnmarshalHeader | block/hbin.go:25-30 | The bin header decodes exactly from 32 or more bytes; otherwise it reports too-short. |
| HBins.MarshalHeader | block/hbin.go:21-23 | The bin header encodes to 32 bytes. |
| HBins.UnmarshalHeaderFields | block/hbin.go:12-30 | The signature, data offset and size are the little-endian fields at bytes 0, 4 and 8. |
| HBins.MarshalUnmarshalHeader | block/hbin.go:21-30 | A decoded bin header re-encodes to the first 32 bytes. |
| HBins.UnmarshalMarshalHeader | block/hbin.go:21-30 | Any bin header decodes from its encoding, whatever follows. |
| HBins.Signature | block/hbin.go:40-42 | The bin signature is four bytes. |
| HBins.SignatureOfHbin | block/hbin.go:40-42 | A bin starting with "hbin" reports "nibh". |
| HBins.UnmarshalBin | block/hbin.go:118-145 | Fewer than 32 bytes panic. A decoded bin's header re-encodes to the first 32 bytes. |
| HBins.DecodeBin | block/hbin.go:118-145 | The imperative HBin.unmarshal equals `UnmarshalBin`. |
| HBins.DecodeCells | block/hbin.go:124-142 | The cursor loop over cells equals the recursive cell-loop definition. |
| HBins.CellsFrom | block/hbin.go:124-142 | The cell loop from offset i up to the bin size. Each cell is decoded from `data[i:i+size]`, where the size is the absolute value of its size field, and the cursor advances by that size. Its partners are `CellsFromMarshal` and `CellsFromEncodes`, the round trips with `MarshalCells`. |
| HBins.CellsFromStep | block/hbin.go:124-142 | A cell that decodes is stamped with its offset and comes first; the loop continues past it. |
| HBins.CellsFromStops | block/hbin.go:124-142 | A cell that fails to decode ends the loop with that cell's error. |
| HBins.BinParts | block/hbin.go:118-145 | A decoded bin is its header from the first 32 bytes plus the cells that the loop reads from offset 32. |
| HBins.MarshalBin | block/hbin.go:93-116 | A bin encodes to 32 header bytes plus its cells' bytes. |
| HBins.MarshalCells | block/hbin.go:104-113 | The cells' encodings back to back, as HBin.marshal appends them after the header. Its partners are `CellsFromMarshal` and `CellsFromEncodes`. |
| HBins.EncodeBin | block/hbin.go:93-116 | The append loop of HBin.marshal equals `MarshalBin`. |
| HBins.UnmarshalHCellInverts | block/block.go:46-76 | The cell decoder reads every valid cell back from its encoding. |
| HBins.UnmarshalHCellReencodes | block/block.go:46-76 | The cell decoder re-encodes every cell whose size spans its slice to exactly that slice. |
| HBins.CellsFromMarshal | block/hbin.go:124-142 | Cells laid out back to back, each stamped with its own offset, decode from their encoding. |
| HBins.CellsFromEncodes | block/hbin.go:124-142 | The cells the loop decodes re-encode to the bytes they came from, at least up to the bin size. |
| HBins.UnmarshalMarshalBin | block/hbin.go:93-145 | A valid bin decodes from its own encoding, whatever follows. |
| HBins.MarshalUnmarshalBin | block/hbin.go:93-145 | A decoded bin re-encodes to a prefix of its buffer at least as long as the declared size. |
| HBinDatas.Count | block/hbin.go:71-73 | The bin count is the number of bins whenever that fits in an int32. |
| HBinDatas.BinsFrom | block/hbin.go:60-68 | The corrected bin loop: each bin is decoded from `data[start:]` and the cursor advances by its size. A zero size, or a negative size that keeps the cursor at or above zero, stops with `NoProgress`; a move past the int32 range or below zero panics. Its partners are `BinsFromMarshal`, `BinsFromEncodes` and `BinsFromEncodable`. |
| HBinDatas.UnmarshalBins | block/hbin.go:58-69 | HBinData.unmarshal with the corrected slicing, over the int32 of the area length. Its partners are `UnmarshalMarshalBins`, `MarshalUnmarshalBins` and `UnmarshalBinsEncodable`. |
| HBinDatas.MarshalBins | block/hbin.go:46-56 | HBinData.marshal: the bins' encodings back to back. Its partners are `UnmarshalMarshalBins` and `MarshalUnmarshalBins`; `EncodeBins` is its loop. |
| HBinDatas.DecodeBins | block/hbin.go:58-69 | The imperative bin loop (corrected slicing) equals `UnmarshalBins`. |
| HBinDatas.DecodeBinsFrom | block/hbin.go:58-69 | The cursor loop over bins, for any bin decoder, equals `BinsFrom`. |
| HBinDatas.BinsFromStep | block/hbin.go:58-69 | A bin that decodes with a positive size comes first; the loop continues at its end. |
| HBinDatas.EncodeBins | block/hbin.go:46-56 | The append loop of HBinData.marshal equals `MarshalBins`. |
| HBinDatas.MarshalBinsAppend | block/hbin.go:46-56 | Encoding one more bin appends its encoding. |
| HBinDatas.UnmarshalBinInverts | block/hbin.go:118-145 | The bin decoder reads every valid bin back from its encoding. |
| HBinDatas.UnmarshalBinReencodes | block/hbin.go:118-145 | Every decoded bin re-encodes to a prefix of its input. |
| HBinDatas.BinsFromMarshal | block/hbin.go:58-69 | Valid bins decode from their back-to-back encoding, whatever capacity follows. |
| HBinDatas.UnmarshalMarshalBins | block/hbin.go:46-69 | The encoding of valid bins decodes to the same bins. |
| HBinDatas.MarshalUnmarshalBins | block/hbin.go:46-69 | Decoded bins that fit re-encode to a prefix of the buffer at least the bin-area length long. |
| HBinDatas.MarshalUnmarshalExact | block/hbin.go:46-69 | Bins that re-encode to exactly the bin-area length re-encode to exactly the bin area. |
| HBinDatas.UnmarshalBinsEncodable | block/hbin.go:46-69 | Whatever the decoder returns, the encoder accepts. |
| HBinDatas.AsWrittenOrPanic | block/hbin.go:58-69 | The as-written loop gives the corrected loop's result, or panics. |
| HBinDatas.UnmarshalAsWrittenOrPanic | block/hbin.go:58-69 | The same, for the whole bin area. |
| HBinDatas.BinsFromAsWritten | block/hbin.go:58-69 | The bin loop as written: the bin at start comes from `data[start:start+prev]`, where prev is the size of the bin before it. That slice panics when it passes the capacity or the int32 range. A zero size loops forever (`NoProgress`) and a negative size panics. Its partner `AsWrittenOrPanic` ties it to the corrected loop. |
| HBinDatas.UnmarshalBinsAsWritten | block/hbin.go:58-69 | HBinData.unmarshal as written, over the whole bin area. Its partners are `UnmarshalAsWrittenOrPanic`, `PrevSizePanicsWith` and `PrevSizeWitness`. |
| HBinDatas.NegativeSizePanics | block/hbin.go:60-62 | As written, a bin with a negative size makes the loop panic, whatever the bytes: the cursor moves back by the size, and the next slice's high bound lies below its low bound. |
| HBinDatas.PrevSizePanicsWith | block/hbin.go:58-69 | Two valid bins, the second smaller, with no spare capacity: the as-written loop panics where the corrected one decodes both. |
| HBinDatas.PrevSizeWitness | block/hbin.go:58-69 | A concrete 72-byte bin area (a 40-byte bin then a 32-byte bin) on which that happens. |
| KeyNodes.FixedWidth | block/nk.go:22-41 | The key node's fixed block layout is 72 bytes. |
| KeyNodes.FromValuesOfFixed | block/nk.go:43-55 | The fixed block is determined by its field values. |
| KeyNodes.FixedOf | block/nk.go:72-74 | The decoded fixed block re-encodes to the 72 bytes after the header. |
| KeyNodes.KeyNameLengthField | block/nk.go:22-41 | KeyNameLength is the int16 at bytes 76..78 of the cell. |
| KeyNodes.Unmarshal | block/nk.go:65-84 | Fewer than 8 bytes panic, a cell larger than the buffer is too-short, and a cell with no room for the fixed block ends the data. On success, the name is KeyNameLength bytes and header, fixed block, name and padding fill the cell. |
| KeyNodes.UnmarshalFits | block/nk.go:76-82 | When the name fits the cell, the result is the header, the fixed block, the name slice and the padding up to the cell size. |
| KeyNodes.KeyNameOutOfBounds | block/nk.go:76-80 | A name past the buffer is out-of-bounds, with the declared length and the buffer length. |
| KeyNodes.Marshal | block/nk.go:57-63 | A key node encodes to 80 bytes plus its name plus its padding. |
| KeyNodes.MarshalUnmarshal | block/nk.go:57-84 | A decoded key node re-encodes to the buffer up to its size. |
| KeyNodes.UnmarshalMarshal | block/nk.go:57-84 | A well-formed key node decodes from its encoding, whatever follows. |
| KeyNodes.NameToTheEnd | block/nk.go:76-82 | A cell whose name runs to the end of its buffer has no padding. |
| KeyNodes.OpenWithListVector | block/nk_test.go:8-99 | The 92-byte "OpenWithList" node decodes with a 12-byte name, no padding and flags 0x20. |
| KeyValues.FixedWidth | block/vk.go:24-30 | The key value's fixed block is 16 bytes. |
| KeyValues.FromValuesOfFixed | block/vk.go:32-44 | The fixed block is determined by its field values. |
| KeyValues.FixedOf | block/vk.go:62-64 | The decoded fixed block re-encodes to the 16 bytes after the header. |
| KeyValues.Unmarshal | block/vk.go:54-73 | Panic, too-short, end-of-data and out-of-bounds (name longer than the buffer) exactly as the source orders them. On success, the name length is the header metadata and the parts fill the cell. |
| KeyValues.UnmarshalFits | block/vk.go:65-71 | When the name fits the cell, the result is header, fixed block, name slice and padding up to the cell size. |
| KeyValues.Marshal | block/vk.go:46-52 | A key value encodes to 24 bytes plus its name plus its padding. |
| KeyValues.MarshalUnmarshal | block/vk.go:46-73 | A decoded key value re-encodes to the buffer up to its size. |
| KeyValues.UnmarshalMarshal | block/vk.go:46-73 | A well-formed key value decodes from its encoding, whatever follows. |
| KeyValues.NameToTheEnd | block/vk.go:65-71 | A cell whose name runs to the end of its buffer has no padding. |
| KeyValues.UnalignedValueDecodes | block/vk_test.go:8-60 | The 27-byte value "123" decodes with an empty padding: no alignment is required. |
| KeySecurities.FixedWidth | block/sk.go:7-12 | The key security fixed block is 16 bytes. |
| KeySecurities.FromValuesOfFixed | block/sk.go:14-26 | The fixed block is determined by its field values. |
| KeySecurities.FixedOf | block/sk.go:44-46 | The decoded fixed block re-encodes to the 16 bytes after the header. |
| KeySecurities.SecDescriptorSizeField | block/sk.go:7-12 | SecDescriptorSize is the uint32 at bytes 20..24. |
| KeySecurities.DescriptorEnd | block/sk.go:47-51 | The descriptor end is computed in uint32, so it wraps below 24 for sizes near 2^32. |
| KeySecurities.Unmarshal | block/sk.go:36-55 | Panic, too-short, end-of-data and out-of-bounds (descriptor past the buffer), in the source's order. On success, the descriptor is SecDescriptorSize bytes and the parts fill the cell. |
| KeySecurities.UnmarshalFits | block/sk.go:47-53 | When the descriptor fits the cell, the result is header, fixed block, descriptor slice and padding. |
| KeySecurities.DescriptorAtTheEnd | block/sk.go:47-53 | In a cell filling its buffer, the padding runs from the descriptor's end to the end. |
| KeySecurities.Marshal | block/sk.go:28-34 | A key security cell encodes to 24 bytes plus descriptor plus padding. |
| KeySecurities.MarshalUnmarshal | block/sk.go:28-55 | A decoded cell re-encodes to the buffer up to its size. |
| KeySecurities.UnmarshalMarshal | block/sk.go:28-55 | A well-formed cell decodes from its encoding, whatever follows. |
| KeySecurities.DescriptorPastBuffer | block/sk_test.go:65-75 | A 54-byte descriptor in a 32-byte buffer is out-of-bounds. |
| KeySecurities.DescriptorThenPadding | block/sk_test.go:76-85 | A 4-byte descriptor in a 32-byte cell leaves four padding bytes. |
| KeySecurities.FixedBlockMissing | block/sk_test.go:86-92 | A 16-byte cell is too short for the fixed block and fails. |
| BigDatas.Unmarshal | block/db.go:16-30 | Short header, cell larger than the buffer, and no room for the list offset each fail with their own error. On success, the offset is the int32 at byte 8 and the padding runs to the cell size. |
| BigDatas.Marshal | block/db.go:8-14 | A big data cell encodes to 12 bytes plus padding. |
| BigDatas.MarshalUnmarshal | block/db.go:8-30 | A decoded big data cell re-encodes to the buffer up to its size. |
| BigDatas.UnmarshalMarshal | block/db.go:8-30 | A well-formed big data cell decodes from its encoding, whatever follows. |
| BigDatas.TwoSegmentVector | block/db_test.go:8-44 | The 16-byte two-segment record decodes to offset 9 and four padding bytes. |
| IndexCells.DecodeEncodeElement | block/hcell.go:87-92 | A list element decodes from its own encoding (a plain offset or a NamedElement). |
| IndexCells.EncodeDecodeElement | block/hcell.go:87-92 | An element's bytes re-encode to themselves. |
| IndexCells.ListEnd | block/li.go:27-32 | The element list takes count × element size bytes. |
| IndexCells.PaddingLengthValue | block/li.go:34-36 | Without 16-bit overflow, the padding is the cell size minus header and list. With overflow, the computed padding is longer than that. |
| IndexCells.Unmarshal | block/li.go:20-37 | Fewer than 8 bytes panic, a cell larger than the buffer is too-short, and a list past the buffer ends the data. On success, count elements of the layout are followed by padding of the computed length, all within the buffer. |
| IndexCells.MarshalUnmarshal | block/li.go:12-37 | A decoded index cell re-encodes to the bytes it came from, and those end at the cell size when the count did not overflow. |
| IndexCells.MarshalUnmarshalExact | block/li.go:12-37 | A cell decoded from exactly its size re-encodes to exactly its buffer. |
| IndexCells.NoWrapInExactBuffer | block/li.go:34-36 | In a buffer of exactly the cell size, the count never overflows 16 bits. |
| IndexCells.UnmarshalMarshal | block/li.go:12-37 | A well-formed index cell decodes from its encoding, whatever follows. |
| IndexCells.MarshalLength | block/li.go:12-18 | A well-formed index cell encodes to exactly its size. |
| IndexCells.Marshal | block/li.go:12-18 | IndexLeaf.marshal: the cell header, then the elements, then the padding. Its partners are `UnmarshalMarshal`, `MarshalUnmarshal` and `MarshalLength`. |
| IndexCells.IndexLeafVector | block/li_test.go:8-50 | The 24-byte three-offset index leaf decodes and re-encodes unchanged. |
| IndexCells.FastLeafVector | block/lf_test.go:9-60 | The 40-byte three-element fast leaf decodes and re-encodes unchanged. |
| Winrego.ReadParts | registry.go:14-31 | Each part is selected exactly when its read flag bit is set. |
| Winrego.WriteParts | registry.go:35-49 | Each part is emitted exactly when its write flag bit is set. |
| Winrego.CompositeModes | registry.go:14-49 | ReadAllUnmarshal and WriteAllMarshal select header, bins and remnant. The raw masks select the raw area instead of the bins. ReadAll selects all four parts. |
| Winrego.AreaSizeIsField | registry.go:109-115 | Whether or not the header is decoded, the bin-area size is the uint32 at bytes 40..44. |
| Winrego.WithHeader | registry.go:110-115 | The header step replaces only the base block, and only when it is selected. |
| Winrego.TakeRegions | registry.go:122-139 | A bin decoding error stops Load with nothing more assigned. Otherwise the bins, the raw area and the remnant are stored exactly when selected. |
| Winrego.AreaBins | registry.go:122-129 | The bins Load keeps: the area `data[4096:hbEnd]` decoded when the bin flag is set, otherwise the bins already held. Its partners are `LoadSucceeds`, `LoadRegions` and `LoadWritable`. |
| Winrego.LoadHive | registry.go:104-140 | Corrected Load: under 4096 bytes is too-short with nothing changed. Success implies the buffer holds header and bin area. Unselected parts keep their values. |
| Winrego.LoadStopsShort | registry.go:117-120 | A buffer ending inside the bin area fails with too-short after the header step. |
| Winrego.LoadSucceeds | registry.go:104-140 | Load succeeds exactly when the buffer holds the base block and the bin area, and the bins decode when they are asked for. |
| Winrego.LoadRegions | registry.go:104-140 | After a successful Load, each selected part holds its region: decoded header, decoded bins, data[4096..hbEnd], and data[hbEnd..]. |
| Winrego.LoadWritable | registry.go:104-170 | Load keeps every field in the form Bytes can encode. |
| Winrego.AllBytes | registry.go:142-170 | The raw mask writes header, raw area and remnant; the marshal mask writes header, encoded bins and remnant. |
| Winrego.HiveBytes | registry.go:142-170 | Registry.Bytes: the selected parts in the order header, bins, raw area, remnant. Its partners are `AllBytes`, `MarshalledParts` and the round trips `HeaderRoundTrip`, `RawRoundTrip`, `UnmarshalRoundTrip` and `MarshalRoundTrip`. |
| Winrego.WriteFlagsLengths | registry_test.go:225-354 | On a hive with one 40-byte bin, a 4-byte remnant and a 4-byte raw area, the marshalled write is 4140 bytes and the raw write 4104. |
| Winrego.HeaderRoundTrip | registry_test.go:46-67 | The decoded base block re-encodes to the first 4096 bytes. |
| Winrego.RawRoundTrip | registry.go:104-170 | Loading with ReadAllRaw and writing with WriteAllRaw gives back the buffer. |
| Winrego.UnmarshalRoundTrip | registry_test.go:395-431 | Loading with ReadAllUnmarshal and writing with WriteAllMarshal gives back the buffer, when the bins re-encode to exactly the bin area. |
| Winrego.MarshalRoundTrip | registry.go:104-170 | A hive built from a base block whose HBinSize matches its encoded bins loads back to those parts, and writes back to itself. |
| Winrego.MarshalledParts | registry.go:104-140 | Load finds in an encoded hive the base block, the size field, the bins and the remnant it was built from. |
| Winrego.LoadHiveAsWritten | registry.go:104-140 | Load as written, with hbEnd and the length check computed in uint32: under 4096 bytes is too-short with nothing changed, and an unselected header, bin list or raw area keeps its value. Only the uint32 wrap is as written; the bins are decoded by the corrected bin loop. |
| Winrego.AsWrittenAgrees | registry.go:117-120 | While 4096 + size and the buffer length stay below 2^32, the as-written and corrected Loads agree. |
| Winrego.WrappedEndPanics | registry.go:117-124 | With a size field of 2^32 - 4096 or more, the source panics where the corrected Load reports too-short. |
| Winrego.WrappedEndRemnant | registry.go:117-137 | Reading only header and remnant, the wrapped end makes the source succeed, with a remnant that starts inside the base block. |
| Winrego.WrappingHiveWitness | registry.go:117-124 | A concrete 4096-byte hive with size field 0xffffffff makes the source panic; the corrected Load fails cleanly. |
| Winrego.Registry.constructor | registry.go:50-64 | A fresh Registry holds the zero base block and no bins, remnant or raw data. |
| Winrego.Registry.Load | registry.go:104-140 | The imperative Load sets the fields and returns the outcome exactly as `LoadHive` defines, keeping the fields writable. |
| Winrego.Registry.Bytes | registry.go:142-170 | The imperative Bytes returns exactly `HiveBytes` of the current fields. |

## Left out

- OpenRegistry and Save (registry.go:64-102), the `File` field and the `ReadFP` flag: file I/O. `ReadFP` is kept only as a mask bit.
- Back-pointers `setParentHBin` and `HBinDataPtr`, and the aliasing of the reused `hb` in HBinData.unmarshal: a cell records only its offset in its bin, and every receiver is modelled as a value.
- `int32(len(data))` for buffers of 2 GiB or more: the bin loop takes the int32 of the length as its limit. Buffers that large are assumed not to occur in the cell loop.
- Slice capacity: the cell-level decoders take a slice's capacity to equal its length. The bin loops take `mem`, the bytes to the end of the buffer, as the capacity.
- Bins with a zero or negative declared size. In the source, a zero size makes the bin loop run forever: it decodes the same bin again and again. The as-written loop `HBinDatas.BinsFromAsWritten` reports this non-termination as a `NoProgress` error. In the source, a negative size panics on the next slice, whose high bound lies below its low bound; the as-written loop returns the panic (`HBinDatas.NegativeSizePanics`). The corrected loop `HBinDatas.UnmarshalBins` decodes from `data[start:]`, so there a negative size would send the cursor back over earlier bins. The model chooses to stop with `NoProgress` in that case, or to panic when the cursor would go below zero.
- Partial state on error: Go fills struct fields before a later step fails. Each decoder here returns only an error. The `Registry` keeps the fields already assigned, as the source does.
- Registry.Bytes marshal errors: every field that `Load` stores encodes (proved by `LoadWritable`), so the error return of block.Marshal is not modelled.
- Winrego.UnmarshalRoundTrip: requires that the decoded bins re-encode to exactly the bin area. The source's test promises this only for well-formed hive files.
- A cell whose size field spells "hbin" (0x6e696268) is dispatched by UnmarshalBlock to the bin decoder. `Blocks.UnmarshalMarshalCell` therefore excludes that size.
- The DataRecord test vectors in block/hcell_test.go:10-42 disagree with one another. The code keeps the bytes from 4 up to the size, as the regf format counts the size field in the cell size. The third vector follows that rule; the first two expect the 16 and 8 bytes after a size field of 16 and 8. The model follows the code (`HCells.DataRecordStopsAtSize`). Inside a hive the two readings agree: the bin loop hands each cell exactly its size in bytes, and then the payload is everything after the size field (`HCells.DataRecordWholeCell`).
- Reflection in `encoding/binary`: replaced by explicit field layouts, one per struct.
- `time.Unix`: ParseFiletime is modelled up to the whole-second count it passes in. The time zone and the `time.Time` value are not modelled.
- Key node flags (block/nk.go:9-20), value data types and the checksum: constants only. They are carried verbatim and never interpreted.
- Offsets such as DataOffset, the big data segment list and the subkey lists are stored but never followed, as in the source.
- Error messages: modelled as error kinds. The exact strings of the source are not modelled.
- The read and write flag masks are modelled as 64-bit bit vectors.
- HBinData.Offset and HBinData.Signature, HBinHeader.Offset and the Offset methods of the cells are constant getters, kept as constants.

## Findings

Each as-written member models one defect as written. Everything else it uses is the corrected definition: `Winrego.LoadHiveAsWritten` decodes its bins with the corrected `HBinDatas.UnmarshalBins`.

| source | as written | input that shows it | evidently intended | confidence | as-written member | corrected member |
|---|---|---|---|---|---|---|
| registry.go:117-120 | `hbEnd := 4096 + hbSize` and `uint32(len(data)) < hbEnd` are computed in uint32 | a 4096-byte hive whose HBinSize is 0xffffffff: hbEnd wraps to 4095, the check passes and `data[4096:4095]` panics (Winrego.WrappingHiveWitness; Winrego.WrappedEndPanics for every such size) | report that the buffer is too short | not executed | Winrego.LoadHiveAsWritten | Winrego.LoadHive |
| block/hbin.go:58-69 | each bin is sliced as `data[start:start+prev]`, where prev is the size of the bin before it | a 72-byte bin area holding a 40-byte bin then a 32-byte bin: the second slice is `data[40:80]`, past the end, and panics (HBinDatas.PrevSizeWitness; HBinDatas.PrevSizePanicsWith for every such pair) | decode each bin from `data[start:]` | not executed | HBinDatas.UnmarshalBinsAsWritten | HBinDatas.UnmarshalBins |
| block/block.go:138-141 | `(ft - 116444736000000000) / 10000000` in uint64 | any FILETIME before 1970, e.g. 116444735999999999 gives 1844674407370 seconds (Filetime.ParseFiletimeWrapsBeforeEpoch) | the Unix second of the timestamp, negative before 1970 | not executed | Filetime.ParseFiletime | Filetime.UnixSeconds |
