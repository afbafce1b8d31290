/**
 * Little-endian field codec shared by every record of the hive format.
 *
 * The source reads and writes fixed-width struct fields through reflection
 * (encoding/binary with binary.LittleEndian). Here a struct layout is an
 * explicit list of field kinds (a shape), a decoded struct is a list of
 * values, `Read` consumes a shape from the front of a buffer as
 * binaryReadAll does with one shared reader, and `Write` concatenates the
 * encodings of its values as binaryWriteAll does.
 */
module Binary {
  import opened Results

  type byte = x: int | 0 <= x < 256

  const Int32Min: int := -0x8000_0000
  const Int32Max: int := 0x7fff_ffff

  /** The fixed-width integer types of the record fields. */
  type uint16 = x: int | 0 <= x < 0x1_0000
  type uint32 = x: int | 0 <= x < 0x1_0000_0000
  type uint64 = x: int | 0 <= x < 0x1_0000_0000_0000_0000
  type int16 = x: int | -0x8000 <= x < 0x8000
  type int32 = x: int | Int32Min <= x <= Int32Max

  /** 256 to the power n: the number of distinct values of an n-byte field. */
  function Pow256(n: nat): (r: nat)
    ensures r > 0
  {
    if n == 0 then 1 else 256 * Pow256(n - 1)
  }

  lemma Pow256Values()
    ensures Pow256(1) == 0x100
    ensures Pow256(2) == 0x1_0000
    ensures Pow256(4) == 0x1_0000_0000
    ensures Pow256(8) == 0x1_0000_0000_0000_0000
  {
    assert Pow256(1) == 0x100;
    assert Pow256(2) == 0x1_0000;
    assert Pow256(3) == 0x100_0000;
    assert Pow256(4) == 0x1_0000_0000;
    assert Pow256(5) == 0x100_0000_0000;
    assert Pow256(6) == 0x1_0000_0000_0000;
    assert Pow256(7) == 0x100_0000_0000_0000;
  }

  /** The unsigned value of s read least-significant byte first. */
  function LeUint(s: seq<byte>): (v: nat)
    ensures v < Pow256(|s|)
  {
    if s == [] then 0
    else
      var rest := LeUint(s[1..]);
      assert rest <= Pow256(|s| - 1) - 1;
      assert 256 * rest <= 256 * Pow256(|s| - 1) - 256;
      s[0] + 256 * rest
  }

  /** The `width`-byte little-endian encoding of v. */
  function LeBytes(v: nat, width: nat): (s: seq<byte>)
    requires v < Pow256(width)
    ensures |s| == width
    ensures LeUint(s) == v
  {
    if width == 0 then []
    else
      var s := [v % 256] + LeBytes(v / 256, width - 1);
      assert s[1..] == LeBytes(v / 256, width - 1);
      s
  }

  /** Encoding the value of a byte string gives back the byte string. */
  lemma {:induction false} LeBytesOfLeUint(s: seq<byte>)
    ensures LeBytes(LeUint(s), |s|) == s
  {
    if s != [] {
      LeBytesOfLeUint(s[1..]);
      assert LeUint(s) % 256 == s[0];
      assert LeUint(s) / 256 == LeUint(s[1..]);
    }
  }

  /** The byte strings of one width and their values correspond one to one. */
  lemma LeUintInjective(a: seq<byte>, b: seq<byte>)
    requires |a| == |b| && LeUint(a) == LeUint(b)
    ensures a == b
  {
    LeBytesOfLeUint(a);
    LeBytesOfLeUint(b);
  }

  /** v is representable as a two's complement integer of `width` bytes. */
  predicate InSignedRange(v: int, width: nat) {
    -(Pow256(width) as int) <= 2 * v < Pow256(width)
  }

  /** The two's complement reading of the unsigned field value u. */
  function ToSigned(u: nat, width: nat): (v: int)
    requires u < Pow256(width)
    ensures InSignedRange(v, width)
    ensures v >= 0 <==> 2 * u < Pow256(width)
  {
    if 2 * u < Pow256(width) then u else u - Pow256(width)
  }

  /** The bit pattern stored for the integer n in a `width`-byte field:
      n itself when it fits unsigned, its two's complement when it is a
      negative signed value (other integers never reach a field). */
  function Pattern(n: int, width: nat): (u: nat)
    ensures u < Pow256(width)
    ensures 0 <= n < Pow256(width) ==> u == n
    ensures InSignedRange(n, width) ==> ToSigned(u, width) == n
  {
    if 0 <= n < Pow256(width) then n
    else if -(Pow256(width) as int) <= n < 0 then n + Pow256(width)
    else 0
  }

  lemma PatternOfToSigned(u: nat, width: nat)
    requires u < Pow256(width)
    ensures Pattern(ToSigned(u, width), width) == u
  {
  }

  /** x reduced into the int32 range with two's complement wrap-around. */
  function WrapInt32(x: int): (r: int)
    ensures Int32Min <= r <= Int32Max
    ensures (r - x) % 0x1_0000_0000 == 0
    ensures Int32Min <= x <= Int32Max ==> r == x
  {
    (x - Int32Min) % 0x1_0000_0000 + Int32Min
  }

  /** The kind of one fixed-width field: an unsigned or two's complement
      integer of `width` bytes, or a byte array of `width` bytes. */
  datatype Kind = Unsigned(width: nat) | Signed(width: nat) | Octets(width: nat)

  /** A decoded field. */
  datatype Value = UInt(width: nat, n: int) | SInt(width: nat, n: int) | Bytes(b: seq<byte>)

  function KindOf(v: Value): Kind {
    match v
    case UInt(w, _) => Unsigned(w)
    case SInt(w, _) => Signed(w)
    case Bytes(b) => Octets(|b|)
  }

  /** The integer a value holds fits its width. */
  predicate WellFormed(v: Value) {
    match v
    case UInt(w, n) => 0 <= n < Pow256(w)
    case SInt(w, n) => InSignedRange(n, w)
    case Bytes(_) => true
  }

  /** vs is a decoded struct of layout `shape`. */
  predicate Conforms(vs: seq<Value>, shape: seq<Kind>) {
    && |vs| == |shape|
    && forall i | 0 <= i < |vs| :: WellFormed(vs[i]) && KindOf(vs[i]) == shape[i]
  }

  /** Number of bytes a layout occupies. */
  function TotalWidth(shape: seq<Kind>): nat {
    if shape == [] then 0 else shape[0].width + TotalWidth(shape[1..])
  }

  lemma {:induction false} TotalWidthConcat(a: seq<Kind>, b: seq<Kind>)
    ensures TotalWidth(a + b) == TotalWidth(a) + TotalWidth(b)
  {
    if a != [] {
      assert (a + b)[1..] == a[1..] + b;
      TotalWidthConcat(a[1..], b);
    } else {
      assert a + b == b;
    }
  }

  /** The fields of a record as encoded values, and back. */
  function U16(n: uint16): (v: Value)
    ensures WellFormed(v) && KindOf(v) == Unsigned(2)
  {
    Pow256Values();
    UInt(2, n)
  }

  function U32(n: uint32): (v: Value)
    ensures WellFormed(v) && KindOf(v) == Unsigned(4)
  {
    Pow256Values();
    UInt(4, n)
  }

  function U64(n: uint64): (v: Value)
    ensures WellFormed(v) && KindOf(v) == Unsigned(8)
  {
    Pow256Values();
    UInt(8, n)
  }

  function I16(n: int16): (v: Value)
    ensures WellFormed(v) && KindOf(v) == Signed(2)
  {
    Pow256Values();
    SInt(2, n)
  }

  function I32(n: int32): (v: Value)
    ensures WellFormed(v) && KindOf(v) == Signed(4)
  {
    Pow256Values();
    SInt(4, n)
  }

  function AsU16(v: Value): (n: uint16)
    requires WellFormed(v) && KindOf(v) == Unsigned(2)
    ensures U16(n) == v
  {
    Pow256Values();
    v.n
  }

  function AsU32(v: Value): (n: uint32)
    requires WellFormed(v) && KindOf(v) == Unsigned(4)
    ensures U32(n) == v
  {
    Pow256Values();
    v.n
  }

  function AsU64(v: Value): (n: uint64)
    requires WellFormed(v) && KindOf(v) == Unsigned(8)
    ensures U64(n) == v
  {
    Pow256Values();
    v.n
  }

  function AsI16(v: Value): (n: int16)
    requires WellFormed(v) && KindOf(v) == Signed(2)
    ensures I16(n) == v
  {
    Pow256Values();
    v.n
  }

  function AsI32(v: Value): (n: int32)
    requires WellFormed(v) && KindOf(v) == Signed(4)
    ensures I32(n) == v
  {
    Pow256Values();
    v.n
  }

  /** n fields of one kind in a row: the layout of a Go array or slice of
      fixed-width elements. */
  function Repeat(k: Kind, n: nat): (shape: seq<Kind>)
    ensures |shape| == n
    ensures forall i | 0 <= i < n :: shape[i] == k
  {
    seq(n, _ => k)
  }

  lemma {:induction false} RepeatWidth(k: Kind, n: nat)
    ensures TotalWidth(Repeat(k, n)) == n * k.width
  {
    if n > 0 {
      assert Repeat(k, n)[1..] == Repeat(k, n - 1);
      RepeatWidth(k, n - 1);
    }
  }

  /** Decodes one field from exactly its bytes. */
  function DecodeValue(s: seq<byte>, k: Kind): (v: Value)
    requires |s| == k.width
    ensures WellFormed(v) && KindOf(v) == k
  {
    match k
    case Unsigned(w) => UInt(w, LeUint(s))
    case Signed(w) => SInt(w, ToSigned(LeUint(s), w))
    case Octets(_) => Bytes(s)
  }

  /** Encodes one field little-endian. */
  function EncodeValue(v: Value): (s: seq<byte>)
    ensures |s| == KindOf(v).width
  {
    match v
    case UInt(w, n) => LeBytes(Pattern(n, w), w)
    case SInt(w, n) => LeBytes(Pattern(n, w), w)
    case Bytes(b) => b
  }

  lemma DecodeEncodeValue(v: Value)
    requires WellFormed(v)
    ensures DecodeValue(EncodeValue(v), KindOf(v)) == v
  {
  }

  lemma EncodeDecodeValue(s: seq<byte>, k: Kind)
    requires |s| == k.width
    ensures EncodeValue(DecodeValue(s, k)) == s
  {
    LeBytesOfLeUint(s);
    if k.Signed? {
      PatternOfToSigned(LeUint(s), k.width);
    }
  }

  /** Reads the fields of `shape` one after another from the front of `data`,
      failing as soon as the bytes run out (binaryReadAll). */
  function Read(data: seq<byte>, shape: seq<Kind>): (r: Result<seq<Value>>)
    ensures r.Ok? <==> TotalWidth(shape) <= |data|
    ensures r.Err? ==> r.error == EndOfData
    ensures r.Ok? ==> Conforms(r.value, shape)
    decreases shape
  {
    if shape == [] then Ok([])
    else if |data| < shape[0].width then Err(EndOfData)
    else
      var w := shape[0].width;
      Prepend([DecodeValue(data[..w], shape[0])], Read(data[w..], shape[1..]))
  }

  /** Concatenates the little-endian encodings of the values (binaryWriteAll). */
  function Write(vs: seq<Value>): (out: seq<byte>)
  {
    if vs == [] then [] else EncodeValue(vs[0]) + Write(vs[1..])
  }

  lemma {:induction false} WriteLength(vs: seq<Value>, shape: seq<Kind>)
    requires Conforms(vs, shape)
    ensures |Write(vs)| == TotalWidth(shape)
  {
    if vs != [] {
      WriteLength(vs[1..], shape[1..]);
    }
  }

  lemma {:induction false} WriteConcat(a: seq<Value>, b: seq<Value>)
    ensures Write(a + b) == Write(a) + Write(b)
  {
    if a != [] {
      assert (a + b)[1..] == a[1..] + b;
      WriteConcat(a[1..], b);
    } else {
      assert a + b == b;
    }
  }

  /** Reading back what was written yields the written values, whatever follows. */
  lemma {:induction false} ReadWrite(vs: seq<Value>, shape: seq<Kind>, tail: seq<byte>)
    requires Conforms(vs, shape)
    ensures Read(Write(vs) + tail, shape) == Ok(vs)
  {
    if vs != [] {
      var w := shape[0].width;
      var head := EncodeValue(vs[0]);
      var more := Write(vs[1..]) + tail;
      assert Write(vs) == head + Write(vs[1..]);
      ConcatAssoc(head, Write(vs[1..]), tail);
      ConcatParts(head, more);
      DecodeEncodeValue(vs[0]);
      assert Conforms(vs[1..], shape[1..]);
      ReadWrite(vs[1..], shape[1..], tail);
      HeadTail(vs);
    }
  }

  /** Writing back what was read reproduces the bytes the layout covers. */
  lemma {:induction false} WriteRead(data: seq<byte>, shape: seq<Kind>)
    requires Read(data, shape).Ok?
    ensures TotalWidth(shape) <= |data|
    ensures Write(Read(data, shape).value) == data[..TotalWidth(shape)]
  {
    if shape != [] {
      var w := shape[0].width;
      var vs := Read(data, shape).value;
      var rest := Read(data[w..], shape[1..]).value;
      var first := DecodeValue(data[..w], shape[0]);
      assert vs == [first] + rest;
      assert vs[0] == first && vs[1..] == rest;
      WriteRead(data[w..], shape[1..]);
      EncodeDecodeValue(data[..w], shape[0]);
      assert Write(vs) == EncodeValue(first) + Write(rest);
      PrefixParts(data, w, TotalWidth(shape[1..]));
    }
  }

  /** The encoding of a record is the encodings of its first i fields, the
      encoding of field i and the encodings of the rest, in that order. */
  lemma WriteSplit(vs: seq<Value>, i: nat)
    requires i < |vs|
    ensures Write(vs) == Write(vs[..i]) + (EncodeValue(vs[i]) + Write(vs[i + 1..]))
  {
    var rest := [vs[i]] + vs[i + 1..];
    SplitAt(vs, i);
    WriteConcat(vs[..i], rest);
    assert Write(rest) == EncodeValue(vs[i]) + Write(vs[i + 1..]);
  }

  lemma ConformsPrefix(vs: seq<Value>, shape: seq<Kind>, i: nat)
    requires Conforms(vs, shape) && i <= |vs|
    ensures Conforms(vs[..i], shape[..i])
  {
  }

  /** The i-th value read is the decoding of the i-th field's own bytes. */
  lemma ReadAt(data: seq<byte>, shape: seq<Kind>, i: nat)
    requires Read(data, shape).Ok? && i < |shape|
    ensures TotalWidth(shape[..i]) + shape[i].width <= |data|
    ensures Read(data, shape).value[i]
         == DecodeValue(data[TotalWidth(shape[..i]) .. TotalWidth(shape[..i]) + shape[i].width], shape[i])
  {
    var vs := Read(data, shape).value;
    var a := TotalWidth(shape[..i]);
    var k := shape[i].width;
    WriteRead(data, shape);
    WriteSplit(vs, i);
    ConformsPrefix(vs, shape, i);
    WriteLength(vs[..i], shape[..i]);
    var enc := EncodeValue(vs[i]);
    SliceMiddle(Write(vs[..i]), enc, Write(vs[i + 1..]));
    SliceOfPrefix(data, TotalWidth(shape), a, a + k);
    DecodeEncodeValue(vs[i]);
  }

  /** One step of the read loop: field i is read from the front of the
      unread bytes, or the bytes run out. */
  lemma ReadStep(unread: seq<byte>, shape: seq<Kind>, i: nat)
    requires i < |shape|
    ensures |unread| < shape[i].width ==> Read(unread, shape[i..]) == Err(EndOfData)
    ensures |unread| >= shape[i].width ==>
      Read(unread, shape[i..])
      == Prepend([DecodeValue(unread[..shape[i].width], shape[i])], Read(unread[shape[i].width..], shape[i + 1..]))
  {
    assert shape[i..][0] == shape[i] && shape[i..][1..] == shape[i + 1..];
  }

  /** binaryReadAll: reads the targets of `shape` in order from one reader. */
  method ReadAll(data: seq<byte>, shape: seq<Kind>) returns (r: Result<seq<Value>>)
    ensures r == Read(data, shape)
  {
    var unread := data;
    var vs: seq<Value> := [];
    var i := 0;
    PrependNothing(Read(data, shape));
    while i < |shape|
      invariant 0 <= i <= |shape|
      invariant Read(data, shape) == Prepend(vs, Read(unread, shape[i..]))
    {
      var w := shape[i].width;
      ReadStep(unread, shape, i);
      if |unread| < w {
        return Err(EndOfData);
      }
      var v := DecodeValue(unread[..w], shape[i]);
      PrependOne(vs, v, Read(unread[w..], shape[i + 1..]));
      vs := vs + [v];
      unread := unread[w..];
      i := i + 1;
    }
    assert vs + [] == vs;
    return Ok(vs);
  }

  /** binaryWriteAll: appends the encoding of each value to one buffer. */
  method WriteAll(vs: seq<Value>) returns (out: seq<byte>)
    ensures out == Write(vs)
  {
    out := [];
    for i := 0 to |vs|
      invariant out == Write(vs[..i])
    {
      assert vs[..i + 1] == vs[..i] + [vs[i]];
      WriteConcat(vs[..i], [vs[i]]);
      out := out + EncodeValue(vs[i]);
    }
    assert vs[..|vs|] == vs;
  }

  /** The four bytes of u, most significant first (uint32toba). */
  function Uint32ToBytes(u: nat): (s: seq<byte>)
    requires u < 0x1_0000_0000
  {
    [u / 0x100_0000, (u / 0x1_0000) % 0x100, (u / 0x100) % 0x100, u % 0x100]
  }

  /** A field read little-endian and emitted by Uint32ToBytes comes out with
      its wire bytes in reverse order. */
  lemma Uint32ToBytesReversesWire(s: seq<byte>)
    requires |s| == 4
    ensures Uint32ToBytes(LeUint(s)) == [s[3], s[2], s[1], s[0]]
  {
    LeUintOfFour(s);
    BytesOfUint32(s[0], s[1], s[2], s[3]);
  }

  /** The value of a four-byte little-endian field, spelled out. */
  lemma LeUintOfFour(s: seq<byte>)
    requires |s| == 4
    ensures LeUint(s) == s[0] + 0x100 * s[1] as int + 0x1_0000 * s[2] as int + 0x100_0000 * s[3] as int
  {
    assert LeUint(s[3..]) == s[3] by {
      assert s[3..][1..] == [];
    }
    assert LeUint(s[2..]) == s[2] as int + 0x100 * s[3] as int by {
      assert s[2..][1..] == s[3..];
    }
    assert LeUint(s[1..]) == s[1] as int + 0x100 * s[2] as int + 0x1_0000 * s[3] as int by {
      assert s[1..][1..] == s[2..];
    }
  }

  lemma BytesOfUint32(b0: byte, b1: byte, b2: byte, b3: byte)
    ensures Uint32ToBytes(b0 + 0x100 * b1 as int + 0x1_0000 * b2 as int + 0x100_0000 * b3 as int) == [b3, b2, b1, b0]
  {
    var u := b0 + 0x100 * b1 as int + 0x1_0000 * b2 as int + 0x100_0000 * b3 as int;
    assert u / 0x100_0000 == b3;
    assert u / 0x1_0000 == b2 + 0x100 * b3 as int;
    assert u / 0x100 == b1 + 0x100 * b2 as int + 0x1_0000 * b3 as int;
  }

  /** The little-endian int32 stored at data[i..i+4]. */
  function Int32At(data: seq<byte>, i: nat): (v: int32)
    requires i + 4 <= |data|
    ensures v == AsI32(DecodeValue(data[i..i + 4], Signed(4)))
  {
    Pow256Values();
    ToSigned(LeUint(data[i..i + 4]), 4)
  }

  /** The int32 at the start of a slice is the int32 at the slice's start. */
  lemma Int32AtSlice(s: seq<byte>, i: nat, j: nat)
    requires i + 4 <= j <= |s|
    ensures Int32At(s[i..j], 0) == Int32At(s, i)
  {
    assert s[i..j][0..4] == s[i..i + 4];
  }

  /** Concatenation is associative. */
  lemma ConcatAssoc<T>(a: seq<T>, b: seq<T>, c: seq<T>)
    ensures (a + b) + c == a + (b + c)
  {
  }

  /** The two parts of a concatenation, cut where they join. */
  lemma ConcatParts<T>(a: seq<T>, b: seq<T>)
    ensures (a + b)[..|a|] == a && (a + b)[|a|..] == b
  {
  }

  /** A prefix followed by the next n elements is the longer prefix. */
  lemma PrefixParts<T>(s: seq<T>, w: nat, n: nat)
    requires w + n <= |s|
    ensures s[..w] + s[w..][..n] == s[..w + n]
  {
  }

  /** A sequence is its prefix, one element and its suffix. */
  lemma SplitAt<T>(s: seq<T>, i: nat)
    requires i < |s|
    ensures s == s[..i] + ([s[i]] + s[i + 1..])
    ensures ([s[i]] + s[i + 1..])[0] == s[i] && ([s[i]] + s[i + 1..])[1..] == s[i + 1..]
  {
  }

  /** The middle part of a three-part concatenation, sliced back out. */
  lemma SliceMiddle<T>(a: seq<T>, b: seq<T>, c: seq<T>)
    ensures (a + (b + c))[|a|..|a| + |b|] == b
  {
  }

  /** A slice of a prefix is a slice of the whole. */
  lemma SliceOfPrefix<T>(s: seq<T>, n: nat, b: nat, c: nat)
    requires b <= c <= n <= |s|
    ensures s[..n][b..c] == s[b..c]
  {
  }

  /** The prefix of a sequence as long as the sequence is the sequence. */
  lemma WholePrefix<T>(s: seq<T>)
    ensures s[..|s|] == s
  {
  }

  /** A prefix of a suffix is a slice of the whole. */
  lemma PrefixOfSuffix<T>(s: seq<T>, a: nat, b: nat)
    requires a <= b <= |s|
    ensures s[a..][..b - a] == s[a..b]
  {
  }

  /** A slice of a suffix is a slice of the whole. */
  lemma SliceOfSuffix<T>(s: seq<T>, a: nat, b: nat, c: nat)
    requires a <= |s| && b <= c <= |s| - a
    ensures s[a..][b..c] == s[a + b..a + c]
  {
  }

  /** Slices of one sequence at increasing cut points concatenate to the
      slice between the outer cut points. */
  lemma SliceJoin<T>(s: seq<T>, i: nat, j: nat, k: nat)
    requires i <= j <= k <= |s|
    ensures s[i..j] + s[j..k] == s[i..k]
  {
  }

  /** A suffix is a known slice of it followed by the rest. */
  lemma SuffixJoin<T>(s: seq<T>, i: nat, j: nat, a: seq<T>)
    requires i <= j <= |s| && s[i..j] == a
    ensures s[i..] == a + s[j..]
  {
    assert s[i..] == s[i..j] + s[j..];
  }

  /** A prefix taken by slicing is a prefix. */
  lemma SlicedPrefix<T>(s: seq<T>, n: nat)
    requires n <= |s|
    ensures s[..n] <= s
  {
  }

  /** A non-empty sequence is its first element followed by the rest. */
  lemma HeadTail<T>(s: seq<T>)
    requires s != []
    ensures [s[0]] + s[1..] == s
  {
  }

  /** Appending nothing changes nothing. */
  lemma AppendEmpty<T>(s: seq<T>)
    ensures s + [] == s
  {
  }

  /** The pieces of a three-part concatenation, cut where they join. */
  lemma ConcatPieces<T>(x: seq<T>, y: seq<T>, z: seq<T>)
    ensures (x + y + z)[..|x|] == x
    ensures (x + y + z)[|x|..] == y + z
    ensures (x + y + z)[|x| + |y|..] == z
  {
    assert (x + y + z)[..|x|] == x;
    assert (x + y + z)[|x|..] == y + z;
  }

  /** A slice named by equal bounds is the same slice. */
  lemma SameSlice<T>(s: seq<T>, k: nat, n: nat, p: seq<T>, k2: nat, n2: nat)
    requires k + n <= |s| && p == s[k..k + n] && k2 == k && n2 == n
    ensures p == s[k2..k2 + n2]
  {
  }

  /** A prefix and the slice after it make a longer prefix. */
  lemma PrefixJoin<T>(s: seq<T>, j: nat, k: nat)
    requires j <= k <= |s|
    ensures s[..j] + s[j..k] == s[..k]
  {
  }

  /** A slice whose contents are a + b splits at |a| into a and b. */
  lemma SliceSplit<T>(s: seq<T>, i: nat, j: nat, k: nat, a: seq<T>, b: seq<T>)
    requires i <= j <= k <= |s| && |a| == j - i
    requires s[i..k] == a + b
    ensures s[i..j] == a && s[j..k] == b
  {
    assert s[i..j] == s[i..k][..j - i];
    assert s[j..k] == s[i..k][j - i..];
  }
}
