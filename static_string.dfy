/** Static strings of the build step: the hex name mangling `HexName` used for
    generated identifiers, `StaticString::compile_name`, and the shapes of the
    `klipper_static_string!` and `klipper_shutdown!` macro bodies. */
module StaticStrings {
  import opened Types
  import opened Syn

  // ---------------------------------------------------------------------------
  // UTF-8, as `str::bytes` yields it

  /** The UTF-8 encoding of one Unicode scalar value. */
  function EncodeChar(c: char): (r: seq<u8>)
    ensures 1 <= |r| <= 4 && |r| == LeadLength(r[0])
  {
    var n := c as int;
    if n < 0x80 then [n as u8]
    else if n < 0x800 then [(0xC0 + n / 64) as u8, (0x80 + n % 64) as u8]
    else if n < 0x10000 then
      [(0xE0 + n / 4096) as u8, (0x80 + (n / 64) % 64) as u8, (0x80 + n % 64) as u8]
    else
      [(0xF0 + n / 262144) as u8, (0x80 + (n / 4096) % 64) as u8,
       (0x80 + (n / 64) % 64) as u8, (0x80 + n % 64) as u8]
  }

  /** The length of a UTF-8 sequence, read off its first byte. */
  function LeadLength(b: u8): nat
  {
    if b < 0x80 then 1 else if b < 0xE0 then 2 else if b < 0xF0 then 3 else 4
  }

  /** The scalar value a 1 to 4 byte UTF-8 sequence denotes. */
  function DecodeChar(e: seq<u8>): int
    requires 1 <= |e| <= 4
  {
    var b := seq(|e|, i requires 0 <= i < |e| => e[i] as int);
    if |e| == 1 then b[0]
    else if |e| == 2 then (b[0] - 0xC0) * 64 + (b[1] - 0x80)
    else if |e| == 3 then (b[0] - 0xE0) * 4096 + (b[1] - 0x80) * 64 + (b[2] - 0x80)
    else (b[0] - 0xF0) * 262144 + (b[1] - 0x80) * 4096 + (b[2] - 0x80) * 64 + (b[3] - 0x80)
  }

  lemma DecodeEncodeChar(c: char)
    ensures DecodeChar(EncodeChar(c)) == c as int
  {
    var n := c as int;
    if n >= 0x10000 {
      assert n / 4096 == (n / 262144) * 64 + (n / 4096) % 64;
      assert n / 64 == (n / 4096) * 64 + (n / 64) % 64;
    } else if n >= 0x800 {
      assert n / 64 == (n / 4096) * 64 + (n / 64) % 64;
    }
  }

  /** `s.bytes()`. */
  function Utf8(s: string): (r: seq<u8>)
    ensures |r| >= |s|
  {
    if s == [] then [] else EncodeChar(s[0]) + Utf8(s[1..])
  }

  /** Different strings have different encodings. */
  lemma {:induction false} Utf8Injective(a: string, b: string)
    requires Utf8(a) == Utf8(b)
    ensures a == b
    decreases |a|
  {
    if a != [] && b != [] {
      var ea, eb := EncodeChar(a[0]), EncodeChar(b[0]);
      assert ea[0] == Utf8(a)[0] && eb[0] == Utf8(b)[0];
      assert ea == Utf8(a)[..|ea|] && eb == Utf8(b)[..|eb|];
      DecodeEncodeChar(a[0]);
      DecodeEncodeChar(b[0]);
      assert Utf8(a[1..]) == Utf8(a)[|ea|..];
      assert Utf8(b[1..]) == Utf8(b)[|eb|..];
      Utf8Injective(a[1..], b[1..]);
      assert a == [a[0]] + a[1..] && b == [b[0]] + b[1..];
    }
  }

  // ---------------------------------------------------------------------------
  // HexName

  /** 'A' for the upper-case form, 'a' otherwise. */
  function Base(upper: bool): nat { if upper then 65 else 97 }

  function HexDigit(nibble: nat, upper: bool): (c: char)
    requires nibble < 16
    ensures c as int == Base(upper) + nibble
  {
    (Base(upper) + nibble) as char
  }

  /** The characters `HexName` writes for a byte sequence: for each byte, the
      high nibble `(b >> 4) & 0xF` and then the low nibble `b & 0xF`, each as
      base + nibble. */
  function HexBytes(bs: seq<u8>, upper: bool): (r: string)
    ensures |r| == 2 * |bs|
    ensures forall i :: 0 <= i < |r| ==> Base(upper) <= r[i] as int < Base(upper) + 16
  {
    if bs == [] then [] else [HexDigit(bs[0] / 16, upper), HexDigit(bs[0] % 16, upper)] + HexBytes(bs[1..], upper)
  }

  /** `HexName(s, upper)` displayed. */
  function HexName(s: string, upper: bool): string
  {
    HexBytes(Utf8(s), upper)
  }

  /** The `Display` loop of `HexName`: two characters appended per byte. */
  method FormatHexName(s: string, upper: bool) returns (out: string)
    ensures out == HexName(s, upper)
  {
    var bytes := Utf8(s);
    out := [];
    var i := 0;
    while i < |bytes|
      invariant 0 <= i <= |bytes|
      invariant out + HexBytes(bytes[i..], upper) == HexBytes(bytes, upper)
    {
      var b := bytes[i];
      var high := b / 16;
      var low := b % 16;
      var pair := [HexDigit(high, upper), HexDigit(low, upper)];
      HexBytesAt(bytes, i, upper);
      assert out + HexBytes(bytes[i..], upper) == (out + pair) + HexBytes(bytes[i + 1..], upper);
      out := out + pair;
      i := i + 1;
    }
    assert bytes[i..] == [];
  }

  lemma HexBytesAt(bs: seq<u8>, i: nat, upper: bool)
    requires i < |bs|
    ensures HexBytes(bs[i..], upper) == [HexDigit(bs[i] / 16, upper), HexDigit(bs[i] % 16, upper)] + HexBytes(bs[i + 1..], upper)
  {
    assert bs[i..][1..] == bs[i + 1..];
  }

  /** Reading a name back: each pair of characters gives one byte. */
  function UnHex(s: string, upper: bool): seq<int>
    requires |s| % 2 == 0
  {
    if s == [] then [] else [(s[0] as int - Base(upper)) * 16 + (s[1] as int - Base(upper))] + UnHex(s[2..], upper)
  }

  lemma {:induction false} UnHexRoundTrip(bs: seq<u8>, upper: bool)
    ensures UnHex(HexBytes(bs, upper), upper) == bs
  {
    if bs != [] {
      var r := HexBytes(bs, upper);
      assert r[2..] == HexBytes(bs[1..], upper);
      UnHexRoundTrip(bs[1..], upper);
      assert bs == [bs[0]] + bs[1..];
    }
  }

  /** Distinct strings get distinct hex names. */
  lemma HexNameInjective(s: string, t: string, upper: bool)
    requires HexName(s, upper) == HexName(t, upper)
    ensures s == t
  {
    UnHexRoundTrip(Utf8(s), upper);
    UnHexRoundTrip(Utf8(t), upper);
    Utf8Injective(s, t);
  }

  // ---------------------------------------------------------------------------
  // StaticString

  const STATIC_STRING_PREFIX: string := "STATIC_STRING_"

  /** `StaticString::compile_name`: the constant holding the string's ID. */
  function CompileName(s: string): (r: string)
    ensures |r| == |STATIC_STRING_PREFIX| + 2 * |Utf8(s)| && r[..|STATIC_STRING_PREFIX|] == STATIC_STRING_PREFIX
    ensures forall i :: |STATIC_STRING_PREFIX| <= i < |r| ==> 'A' <= r[i] <= 'P'
  {
    STATIC_STRING_PREFIX + HexName(s, true)
  }

  /** Two static strings never share a constant. */
  lemma CompileNameInjective(s: string, t: string)
    requires CompileName(s) == CompileName(t)
    ensures s == t
  {
    assert CompileName(s)[|STATIC_STRING_PREFIX|..] == HexName(s, true);
    assert CompileName(t)[|STATIC_STRING_PREFIX|..] == HexName(t, true);
    HexNameInjective(s, t, true);
  }

  /** `klipper_static_string!("...")`: exactly one string literal (`parse_body`
      rejects anything after it). */
  function ParseStaticString(ts: seq<Token>): (r: Result<string, ParseError>)
    ensures r.Ok? <==> |ts| == 1 && ts[0].LitStr?
    ensures r.Ok? ==> r.value == ts[0].text
  {
    var s :- ParseLitStr(ts);
    if s.rest != [] then Err(ParseError("unexpected token")) else Ok(s.value)
  }

  datatype Shutdown = Shutdown(msg: string, clock: Expr)

  /** `klipper_shutdown!("msg", clock)`: a string literal, a comma and one
      expression, and nothing after it. */
  function ParseShutdown(ts: seq<Token>): (r: Result<Shutdown, ParseError>)
    ensures r.Ok? <==> |ts| == 3 && ts[0].LitStr? && ts[1] == Punct(',') && IsExprToken(ts[2])
    ensures r.Ok? ==> r.value.msg == ts[0].text
  {
    var msg :- ParseLitStr(ts);
    var afterComma :- ParsePunct(msg.rest, ',');
    var clock :- ParseExpr(afterComma);
    if clock.rest != [] then Err(ParseError("unexpected token"))
    else Ok(Shutdown(msg.value, clock.value))
  }
}
