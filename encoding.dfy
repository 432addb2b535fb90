/** The parameter codec: Klipper's variable-length integers (VLQ) and the
    typed `Readable`/`Writable` mappings built on them. */
module Encoding {
  import opened Types
  import opened OutputBuffers

  datatype ReadError = ReadError

  /** The outcome of a read through a `&mut &[u8]` cursor: the result, and where
      the cursor was left (on failure too, since the code advances past what it
      consumed before failing). */
  datatype Parsed<T> = Parsed(result: Result<T, ReadError>, rest: seq<u8>)

  // ---------------------------------------------------------------------------
  // Decoding

  /** `next_byte`: the first byte, advancing the cursor by one; fails on empty input. */
  function NextByte(data: seq<u8>): (r: Parsed<u8>)
    ensures data == [] ==> r == Parsed(Err(ReadError), data)
    ensures data != [] ==> r.result == Ok(data[0]) && data == [data[0]] + r.rest
  {
    if data == [] then Parsed(Err(ReadError), data) else Parsed(Ok(data[0]), data[1..])
  }

  /** The value after the first byte: its low seven bits, sign extended when
      bits 5 and 6 are both set (`v |= -0x20i32 as u32`). */
  function FirstGroup(c: u8): u32
  {
    var low := c % 128;
    if low >= 0x60 then low - 128 + U32_LIMIT else low
  }

  /** `v = (v << 7) | (c & 0x7F)` on a `u32`. */
  function Shift7(v: u32, c: u8): u32
  {
    (v * 128 + c % 128) % U32_LIMIT
  }

  /** The loop of `parse_vlq_int`: while the last byte had bit 7 set, read another. */
  function ContinueVlq(v: u32, c: u8, data: seq<u8>): Parsed<u32>
    decreases |data|
  {
    if c < 0x80 then Parsed(Ok(v), data)
    else
      var n := NextByte(data);
      match n.result
      case Err(e) => Parsed(Err(e), n.rest)
      case Ok(c') => ContinueVlq(Shift7(v, c'), c', n.rest)
  }

  /** `parse_vlq_int`. */
  function DecodeVlq(data: seq<u8>): Parsed<u32>
  {
    var n := NextByte(data);
    match n.result
    case Err(e) => Parsed(Err(e), n.rest)
    case Ok(c) => ContinueVlq(FirstGroup(c), c, n.rest)
  }

  /** `parse_vlq_int` as the loop the code runs, advancing the cursor byte by byte. */
  method ParseVlqInt(data: seq<u8>) returns (r: Parsed<u32>)
    ensures r == DecodeVlq(data)
  {
    var cur := data;
    if cur == [] {
      return Parsed(Err(ReadError), cur);
    }
    var c := cur[0];
    cur := cur[1..];
    var v := FirstGroup(c);
    while c >= 0x80
      invariant ContinueVlq(v, c, cur) == DecodeVlq(data)
      decreases |cur|
    {
      if cur == [] {
        return Parsed(Err(ReadError), cur);
      }
      c := cur[0];
      cur := cur[1..];
      v := Shift7(v, c);
    }
    r := Parsed(Ok(v), cur);
  }

  // ---------------------------------------------------------------------------
  // Encoding

  /** One of the leading bytes of `encode_vlq_int`: `((sv >> shift) & 0x7F) as u8 | 0x80`.
      `>>` on `i32` is an arithmetic shift, which is floor division by a power of two. */
  function ContinuationByte(sv: int, scale: nat): u8
    requires scale > 0
  {
    (sv / scale) % 128 + 0x80
  }

  /** `!(lo..hi).contains(&sv)`. */
  predicate Outside(sv: int, lo: int, hi: int)
  {
    !(lo <= sv < hi)
  }

  /** One guarded `output` of `encode_vlq_int`: the byte for `scale` when `sv`
      lies outside [lo, hi), nothing otherwise. */
  function Piece(sv: int, lo: int, hi: int, scale: nat): (r: seq<u8>)
    requires scale > 0
    ensures |r| == (if Outside(sv, lo, hi) then 1 else 0)
  {
    if Outside(sv, lo, hi) then [ContinuationByte(sv, scale)] else []
  }

  /** `encode_vlq_int(output, v)`: the bytes it appends for `sv = v as i32`. */
  function EncodeSigned(sv: i32): seq<u8>
  {
    Piece(sv, -0x400_0000, 0xC00_0000, 0x1000_0000)
    + Piece(sv, -0x8_0000, 0x18_0000, 0x20_0000)
    + Piece(sv, -0x1000, 0x3000, 0x4000)
    + Piece(sv, -0x20, 0x60, 0x80)
    + [sv % 128]
  }

  function EncodeVlq(v: u32): seq<u8>
  {
    EncodeSigned(AsI32(v))
  }

  /** `encode_vlq_int` on a `ScratchOutput`: five conditional `output` calls. The
      encoding goes in whole when it fits; otherwise the first call that finds the
      buffer full panics (`ok` false). */
  method WriteVlq(out: ScratchOutput, v: u32) returns (ok: bool)
    requires out.Valid()
    modifies out`idx, out.buffer
    ensures out.Valid()
    ensures ok <==> |old(out.Result())| + |EncodeVlq(v)| <= out.maxSize
    ensures ok ==> out.Result() == old(out.Result()) + EncodeVlq(v)
  {
    ghost var start := out.Result();
    var sv := AsI32(v);
    ghost var p1 := Piece(sv, -0x400_0000, 0xC00_0000, 0x1000_0000);
    ghost var p2 := Piece(sv, -0x8_0000, 0x18_0000, 0x20_0000);
    ghost var p3 := Piece(sv, -0x1000, 0x3000, 0x4000);
    ghost var p4 := Piece(sv, -0x20, 0x60, 0x80);
    assert EncodeSigned(sv) == p1 + p2 + p3 + p4 + [sv % 128];
    ok := OutputPiece(out, sv, -0x400_0000, 0xC00_0000, 0x1000_0000);
    if !ok {
      return;
    }
    ok := OutputPiece(out, sv, -0x8_0000, 0x18_0000, 0x20_0000);
    if !ok {
      return;
    }
    ok := OutputPiece(out, sv, -0x1000, 0x3000, 0x4000);
    if !ok {
      return;
    }
    ok := OutputPiece(out, sv, -0x20, 0x60, 0x80);
    if !ok {
      return;
    }
    ok := out.Output([sv % 128]);
    assert start + p1 + p2 + p3 + p4 + [sv % 128] == start + EncodeSigned(sv);
  }

  /** One guarded `output` of `encode_vlq_int`: the continuation byte for `scale`
      when `sv` lies outside [lo, hi), which panics on a full buffer. */
  method OutputPiece(out: ScratchOutput, sv: int, lo: int, hi: int, scale: nat) returns (ok: bool)
    requires scale > 0
    requires out.Valid()
    modifies out`idx, out.buffer
    ensures out.Valid()
    ensures ok <==> |old(out.Result())| + |Piece(sv, lo, hi, scale)| <= out.maxSize
    ensures ok ==> out.Result() == old(out.Result()) + Piece(sv, lo, hi, scale)
  {
    if Outside(sv, lo, hi) {
      ok := out.Output([ContinuationByte(sv, scale)]);
    } else {
      ok := true;
      assert old(out.Result()) + Piece(sv, lo, hi, scale) == old(out.Result());
    }
  }

  // ---------------------------------------------------------------------------
  // Shape of an encoding

  /** A well-formed VLQ: bit 7 set on every byte but the last, clear on the last. */
  predicate WellFormed(e: seq<u8>)
  {
    |e| >= 1 && (forall i :: 0 <= i < |e| - 1 ==> e[i] >= 0x80) && e[|e| - 1] < 0x80
  }

  /** Every encoding is 1 to 5 bytes and well formed. */
  lemma EncodeVlqShape(v: u32)
    ensures 1 <= |EncodeVlq(v)| <= 5
    ensures WellFormed(EncodeVlq(v))
  {
  }

  /** A value encodes as a single byte exactly when its `i32` reading lies in [-32, 96). */
  lemma EncodeVlqSingleByte(v: u32)
    ensures |EncodeVlq(v)| == 1 <==> -0x20 <= AsI32(v) < 0x60
  {
  }

  /** A value below 96 is its own one-byte encoding. */
  lemma EncodeVlqSmall(v: u8)
    requires v < 0x60
    ensures EncodeVlq(v) == [v]
  {
    var sv := AsI32(v);
    assert sv == v;
    assert Piece(sv, -0x400_0000, 0xC00_0000, 0x1000_0000) == [];
    assert Piece(sv, -0x8_0000, 0x18_0000, 0x20_0000) == [];
    assert Piece(sv, -0x1000, 0x3000, 0x4000) == [];
    assert Piece(sv, -0x20, 0x60, 0x80) == [];
  }

  /** A lone byte with bit 7 clear and bits 5 and 6 set decodes sign extended:
      as the `u32` whose `i32` reading is `c - 128`. */
  lemma {:induction false} DecodeSignExtended(c: u8, rest: seq<u8>)
    requires c < 0x80 && c >= 0x60
    ensures DecodeVlq([c] + rest) == Parsed(Ok(AsU32(c - 128)), rest)
    ensures AsI32(AsU32(c - 128)) == c - 128
  {
    assert ([c] + rest)[1..] == rest;
  }

  /** The loop only ever moves the cursor forward. */
  lemma {:induction false} ContinueVlqSuffix(v: u32, c: u8, data: seq<u8>)
    ensures var r := ContinueVlq(v, c, data); |r.rest| <= |data| && r.rest == data[|data| - |r.rest|..]
    decreases |data|
  {
    if c >= 0x80 && data != [] {
      ContinueVlqSuffix(Shift7(v, data[0]), data[0], data[1..]);
    }
  }

  /** A read leaves the cursor on a suffix of the input, and one that succeeds
      has consumed at least one byte. */
  lemma DecodeVlqSuffix(data: seq<u8>)
    ensures var r := DecodeVlq(data); |r.rest| <= |data| && r.rest == data[|data| - |r.rest|..]
    ensures DecodeVlq(data).result.Ok? ==> |DecodeVlq(data).rest| < |data|
  {
    if data != [] {
      ContinueVlqSuffix(FirstGroup(data[0]), data[0], data[1..]);
    }
  }

  /** Reading from an empty cursor fails and leaves the cursor where it was. */
  lemma DecodeVlqEmpty()
    ensures DecodeVlq([]) == Parsed(Err(ReadError), [])
  {
  }

  // ---------------------------------------------------------------------------
  // Round trip

  /** 128 to the j-th power, for the five byte positions. */
  function Scale(j: nat): (s: nat)
    requires j <= 4
    ensures s > 0
  {
    if j == 0 then 1 else if j == 1 then 0x80 else if j == 2 then 0x4000
    else if j == 3 then 0x20_0000 else 0x1000_0000
  }

  /** The `k` bytes after the leading one for the value `x`, most significant first. */
  function Tail(x: int, k: nat): seq<u8>
    requires k <= 4
  {
    if k == 0 then []
    else [(x / Scale(k - 1)) % 128 + (if k - 1 > 0 then 0x80 else 0)] + Tail(x, k - 1)
  }

  lemma ModShift(q: int, b: int)
    ensures ((q % U32_LIMIT) * 128 + b) % U32_LIMIT == (q * 128 + b) % U32_LIMIT
  {
    var t := q / U32_LIMIT;
    assert q % U32_LIMIT == q - U32_LIMIT * t;
    assert (q % U32_LIMIT) * 128 + b == (q * 128 + b) - U32_LIMIT * (128 * t);
  }

  lemma ScaleStep(x: int, k: nat)
    requires 1 <= k <= 4
    ensures (x / Scale(k)) * 128 + (x / Scale(k - 1)) % 128 == x / Scale(k - 1)
  {
    var y := x / Scale(k - 1);
    assert x / Scale(k) == y / 128 by {
      if k == 1 { } else if k == 2 { } else if k == 3 { } else { }
    }
  }

  /** Shifting in the next tail byte turns the group `x / 128^k` into `x / 128^(k-1)`. */
  lemma Shift7Tail(x: int, k: nat, c: u8)
    requires 1 <= k <= 4 && c % 128 == (x / Scale(k - 1)) % 128
    ensures Shift7(AsU32(x / Scale(k)), c) == AsU32(x / Scale(k - 1))
  {
    calc {
      Shift7(AsU32(x / Scale(k)), c);
      ((x / Scale(k)) % U32_LIMIT * 128 + (x / Scale(k - 1)) % 128) % U32_LIMIT;
      { ModShift(x / Scale(k), (x / Scale(k - 1)) % 128); }
      ((x / Scale(k)) * 128 + (x / Scale(k - 1)) % 128) % U32_LIMIT;
      { ScaleStep(x, k); }
      AsU32(x / Scale(k - 1));
    }
  }

  /** Decoding the tail bytes that follow a leading byte whose group was `x / 128^k`
      rebuilds `x` (modulo 2^32) and stops right after the last byte. */
  lemma {:induction false} ContinueTail(x: int, k: nat, c: u8, rest: seq<u8>)
    requires k <= 4
    requires c >= 0x80 <==> k > 0
    ensures ContinueVlq(AsU32(x / Scale(k)), c, Tail(x, k) + rest) == Parsed(Ok(AsU32(x)), rest)
    decreases k
  {
    if k == 0 {
      assert Tail(x, k) + rest == rest;
    } else {
      var c' := TailNext(x, k, rest);
      Shift7Tail(x, k, c');
      ContinueTail(x, k - 1, c', rest);
    }
  }

  /** The first of the tail bytes, as the loop reads it. */
  lemma TailNext(x: int, k: nat, rest: seq<u8>) returns (c: u8)
    requires 1 <= k <= 4
    ensures c == (x / Scale(k - 1)) % 128 + (if k - 1 > 0 then 0x80 else 0)
    ensures NextByte(Tail(x, k) + rest) == Parsed(Ok(c), Tail(x, k - 1) + rest)
  {
    c := (x / Scale(k - 1)) % 128 + (if k - 1 > 0 then 0x80 else 0);
    assert Tail(x, k) + rest == [c] + (Tail(x, k - 1) + rest);
  }

  /** The number of continuation bytes `encode_vlq_int` emits for `sv`. */
  function Continuations(sv: int): (k: nat)
    ensures k <= 4
  {
    if Outside(sv, -0x400_0000, 0xC00_0000) then 4
    else if Outside(sv, -0x8_0000, 0x18_0000) then 3
    else if Outside(sv, -0x1000, 0x3000) then 2
    else if Outside(sv, -0x20, 0x60) then 1
    else 0
  }

  /** The encoding is a leading byte carrying `sv / 128^k` followed by `Tail(sv, k)`,
      and that leading group lies in [-32, 96). */
  lemma EncodeVlqSplit(v: u32)
    ensures var sv := AsI32(v); var k := Continuations(sv); var q := sv / Scale(k);
      && -0x20 <= q < 0x60
      && EncodeVlq(v) == [q % 128 + (if k > 0 then 0x80 else 0)] + Tail(sv, k)
  {
    var sv := AsI32(v);
    var k := Continuations(sv);
    TailOne(sv);
    if k == 4 {
      SplitFour(sv);
    } else if k == 3 {
      SplitThree(sv);
    } else if k == 2 {
      SplitTwo(sv);
    }
  }

  lemma TailOne(x: int)
    ensures Tail(x, 1) == [x % 128]
  {
  }

  lemma SplitTwo(sv: i32)
    requires Continuations(sv) == 2
    ensures EncodeSigned(sv) == [(sv / 0x4000) % 128 + 0x80] + Tail(sv, 2)
  {
    TailOne(sv);
    assert Tail(sv, 2) == [ContinuationByte(sv, 0x80)] + Tail(sv, 1);
  }

  lemma SplitThree(sv: i32)
    requires Continuations(sv) == 3
    ensures EncodeSigned(sv) == [(sv / 0x20_0000) % 128 + 0x80] + Tail(sv, 3)
  {
    TailOne(sv);
    assert Tail(sv, 3) == [ContinuationByte(sv, 0x4000), ContinuationByte(sv, 0x80)] + Tail(sv, 1);
  }

  lemma SplitFour(sv: i32)
    requires Continuations(sv) == 4
    ensures -0x20 <= sv / 0x1000_0000 < 0x60
    ensures EncodeSigned(sv) == [(sv / 0x1000_0000) % 128 + 0x80] + Tail(sv, 4)
  {
    TailOne(sv);
    assert Tail(sv, 3) == [ContinuationByte(sv, 0x4000), ContinuationByte(sv, 0x80)] + Tail(sv, 1);
    assert Tail(sv, 4) == [ContinuationByte(sv, 0x20_0000)] + Tail(sv, 3);
  }

  /** The leading byte's group, sign extended, is its quotient modulo 2^32. */
  lemma FirstGroupOf(q: int, more: bool)
    requires -0x20 <= q < 0x60
    ensures FirstGroup(q % 128 + (if more then 0x80 else 0)) == AsU32(q)
  {
  }

  /** A leading byte carrying `x / 128^k` in [-32, 96), followed by `Tail(x, k)`,
      decodes to `x` modulo 2^32. */
  lemma {:induction false} DecodeSplit(x: int, k: nat, rest: seq<u8>)
    requires k <= 4 && -0x20 <= x / Scale(k) < 0x60
    ensures var c := (x / Scale(k)) % 128 + (if k > 0 then 0x80 else 0);
      DecodeVlq([c] + Tail(x, k) + rest) == Parsed(Ok(AsU32(x)), rest)
  {
    var q := x / Scale(k);
    var c := q % 128 + (if k > 0 then 0x80 else 0);
    var data := [c] + Tail(x, k) + rest;
    assert data == [c] + (Tail(x, k) + rest);
    assert NextByte(data) == Parsed(Ok(c), Tail(x, k) + rest);
    FirstGroupOf(q, k > 0);
    ContinueTail(x, k, c, rest);
  }

  /** Decoding an encoding returns the value and leaves exactly what followed it. */
  lemma {:induction false} VlqRoundTrip(v: u32, rest: seq<u8>)
    ensures DecodeVlq(EncodeVlq(v) + rest) == Parsed(Ok(v), rest)
  {
    var sv := AsI32(v);
    var k := Continuations(sv);
    EncodeVlqSplit(v);
    DecodeSplit(sv, k, rest);
    SignedCast(v);
  }

  /** `v as i32 as u32 == v`. */
  lemma SignedCast(v: u32)
    ensures AsU32(AsI32(v)) == v
  {
  }

  /** Widening the narrow integers to `u32` and casting back is the identity. */
  lemma WidenCasts(a: u8, b: u16, c: i16, d: i32)
    ensures AsU8(a) == a && AsU16(b) == b && AsI16(AsU32(c)) == c && AsI32(AsU32(d)) == d
  {
    if c < 0 {
      var w := c + U32_LIMIT;
      assert AsU32(c) == w;
      assert w == (c + U16_LIMIT) + U16_LIMIT * 0xFFFF;
      assert w % U16_LIMIT == c + U16_LIMIT;
    }
    if d < 0 {
      assert AsU32(d) == d + U32_LIMIT;
    }
  }

  // ---------------------------------------------------------------------------
  // Typed values

  /** The Rust types that implement `Readable` and/or `Writable`. */
  datatype WireType = U8 | U16 | I16 | U32 | I32 | Bool | ByteSlice | Str

  /** A value of one of those types; `VStr` holds the string's UTF-8 bytes. */
  datatype Value =
    | VU8(u8: u8) | VU16(u16: u16) | VI16(i16: i16) | VU32(u32: u32) | VI32(i32: i32)
    | VBool(b: bool) | VBytes(bytes: seq<u8>) | VStr(utf8: seq<u8>)

  function TypeOf(v: Value): WireType
  {
    match v
    case VU8(_) => U8
    case VU16(_) => U16
    case VI16(_) => I16
    case VU32(_) => U32
    case VI32(_) => I32
    case VBool(_) => Bool
    case VBytes(_) => ByteSlice
    case VStr(_) => Str
  }

  /** `&str` is only `Writable`; every other wire type is also `Readable`. */
  predicate Readable(t: WireType) { t != Str }

  /** The integer reads: `parse_vlq_int(data).map(|v| v as T)`; bool is `v != 0`. */
  function CastRead(t: WireType, v: u32): Value
    requires Readable(t) && t != ByteSlice
  {
    match t
    case U8 => VU8(AsU8(v))
    case U16 => VU16(AsU16(v))
    case I16 => VI16(AsI16(v))
    case U32 => VU32(v)
    case I32 => VI32(AsI32(v))
    case Bool => VBool(v != 0)
  }

  /** `<T as Readable>::read`. */
  function ReadValue(t: WireType, data: seq<u8>): Parsed<Value>
    requires Readable(t)
  {
    var n := DecodeVlq(data);
    match n.result
    case Err(e) => Parsed(Err(e), n.rest)
    case Ok(v) =>
      if t == ByteSlice then
        if |n.rest| < v then Parsed(Err(ReadError), n.rest)
        else Parsed(Ok(VBytes(n.rest[..v])), n.rest[v..])
      else Parsed(Ok(CastRead(t, v)), n.rest)
  }

  /** `*self as u32` for the integers; `u32::from(bool)`. */
  function Widen(v: Value): u32
    requires !v.VBytes? && !v.VStr?
  {
    match v
    case VU8(x) => x
    case VU16(x) => x
    case VI16(x) => AsU32(x)
    case VU32(x) => x
    case VI32(x) => AsU32(x)
    case VBool(b) => if b then 1 else 0
  }

  /** `<T as Writable>::write`: the bytes appended. Slices and strings are a
      VLQ length (`len() as u32`) followed by the bytes themselves. */
  function EncodeValue(v: Value): seq<u8>
  {
    match v
    case VBytes(b) => EncodeVlq(AsU32(|b|)) + b
    case VStr(b) => EncodeVlq(AsU32(|b|)) + b
    case _ => EncodeVlq(Widen(v))
  }

  /** The values a read can give back: slices and strings shorter than 2^32 bytes. */
  predicate Representable(v: Value)
  {
    match v
    case VBytes(b) => |b| < U32_LIMIT
    case VStr(b) => |b| < U32_LIMIT
    case _ => true
  }

  /** Writing a value and reading it back with the same type returns it and leaves
      exactly what followed: u8, u16, i16, u32, i32, bool and byte slices. */
  lemma {:induction false} ValueRoundTrip(v: Value, rest: seq<u8>)
    requires Readable(TypeOf(v)) && Representable(v)
    ensures ReadValue(TypeOf(v), EncodeValue(v) + rest) == Parsed(Ok(v), rest)
  {
    if v.VBytes? {
      SliceRoundTrip(v.bytes, rest);
    } else {
      ScalarRoundTrip(v, rest);
    }
  }

  /** A byte slice reads back whole, leaving exactly what followed it. */
  lemma SliceRoundTrip(b: seq<u8>, rest: seq<u8>)
    requires |b| < U32_LIMIT
    ensures ReadValue(ByteSlice, EncodeValue(VBytes(b)) + rest) == Parsed(Ok(VBytes(b)), rest)
  {
    var e := EncodeVlq(|b|);
    assert AsU32(|b|) == |b|;
    assert EncodeValue(VBytes(b)) == e + b;
    assert (e + b) + rest == e + (b + rest);
    VlqRoundTrip(|b|, b + rest);
    assert (b + rest)[..|b|] == b && (b + rest)[|b|..] == rest;
  }

  /** An integer or bool widens to `u32`, and narrows back on reading. */
  lemma ScalarRoundTrip(v: Value, rest: seq<u8>)
    requires !v.VBytes? && !v.VStr?
    ensures ReadValue(TypeOf(v), EncodeValue(v) + rest) == Parsed(Ok(v), rest)
  {
    VlqRoundTrip(Widen(v), rest);
    match v
    case VU8(x) => WidenCasts(x, 0, 0, 0);
    case VU16(x) => WidenCasts(0, x, 0, 0);
    case VI16(x) => WidenCasts(0, 0, x, 0);
    case VI32(x) => WidenCasts(0, 0, 0, x);
    case VU32(_) =>
    case VBool(_) =>
  }

  /** A slice read that finds fewer bytes than its length prefix announces fails,
      leaving the cursor just after the prefix. */
  lemma {:induction false} ShortSliceFails(len: u32, avail: seq<u8>)
    requires |avail| < len
    ensures ReadValue(ByteSlice, EncodeVlq(len) + avail) == Parsed(Err(ReadError), avail)
  {
    VlqRoundTrip(len, avail);
  }

  /** A bool is written as 0 or 1, and any non-zero value reads as true. */
  lemma BoolEncoding(b: bool, v: u32, rest: seq<u8>)
    ensures EncodeValue(VBool(b)) == [if b then 1 else 0]
    ensures ReadValue(Bool, EncodeVlq(v) + rest) == Parsed(Ok(VBool(v != 0)), rest)
  {
    VlqRoundTrip(v, rest);
  }

  /** A string is written exactly like the byte slice of its UTF-8 bytes. */
  lemma StrIsByteSlice(s: seq<u8>)
    ensures EncodeValue(VStr(s)) == EncodeValue(VBytes(s))
  {
  }

  /** `read` as the code runs it: `parse_vlq_int` and then the cast or slice split. */
  method Read(t: WireType, data: seq<u8>) returns (r: Parsed<Value>)
    requires Readable(t)
    ensures r == ReadValue(t, data)
  {
    var n := ParseVlqInt(data);
    if n.result.Err? {
      assert n.result.error == ReadError;
      return Parsed(Err(ReadError), n.rest);
    }
    var v := n.result.value;
    if t == ByteSlice {
      if |n.rest| < v {
        r := Parsed(Err(ReadError), n.rest);
      } else {
        r := Parsed(Ok(VBytes(n.rest[..v])), n.rest[v..]);
      }
    } else {
      r := Parsed(Ok(CastRead(t, v)), n.rest);
    }
  }

  /** `write` as the code runs it on a `ScratchOutput`: the encoding goes in whole
      when it fits, and one of its `output` calls panics (`ok` false) otherwise. */
  method Write(out: ScratchOutput, v: Value) returns (ok: bool)
    requires out.Valid()
    modifies out`idx, out.buffer
    ensures out.Valid()
    ensures ok <==> |old(out.Result())| + |EncodeValue(v)| <= out.maxSize
    ensures ok ==> out.Result() == old(out.Result()) + EncodeValue(v)
  {
    if v.VBytes? || v.VStr? {
      var b := if v.VBytes? then v.bytes else v.utf8;
      assert EncodeValue(v) == EncodeVlq(AsU32(|b|)) + b;
      ok := WriteSlice(out, b);
    } else {
      assert EncodeValue(v) == EncodeVlq(Widen(v));
      ok := WriteVlq(out, Widen(v));
    }
  }

  /** The `write` of a slice or string: the VLQ length, then the bytes. */
  method WriteSlice(out: ScratchOutput, b: seq<u8>) returns (ok: bool)
    requires out.Valid()
    modifies out`idx, out.buffer
    ensures out.Valid()
    ensures ok <==> |old(out.Result())| + |EncodeVlq(AsU32(|b|))| + |b| <= out.maxSize
    ensures ok ==> out.Result() == old(out.Result()) + (EncodeVlq(AsU32(|b|)) + b)
  {
    ghost var start := out.Result();
    ok := WriteVlq(out, AsU32(|b|));
    if ok {
      ok := out.Output(b);
      assert start + EncodeVlq(AsU32(|b|)) + b == start + (EncodeVlq(AsU32(|b|)) + b);
    }
  }
}
