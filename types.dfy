/** Fixed-width integers of the Rust code, written as bounded subsets of `int`,
    with the casts the code uses spelled out, plus the usual Option/Result wrappers. */
module Types {

  const U8_LIMIT: int := 0x100
  const U16_LIMIT: int := 0x1_0000
  const U32_LIMIT: int := 0x1_0000_0000

  type u8 = x: int | 0 <= x < U8_LIMIT
  type u16 = x: int | 0 <= x < U16_LIMIT
  type u32 = x: int | 0 <= x < U32_LIMIT
  type u64 = x: int | 0 <= x < 0x1_0000_0000_0000_0000
  type i16 = x: int | -0x8000 <= x < 0x8000
  type i32 = x: int | -0x8000_0000 <= x < 0x8000_0000

  /** `x as u32` for any integer: keep the low 32 bits. */
  function AsU32(x: int): (r: u32)
    ensures (r - x) % U32_LIMIT == 0
  {
    x % U32_LIMIT
  }

  /** `x as u16`: keep the low 16 bits. */
  function AsU16(x: int): (r: u16)
    ensures (r - x) % U16_LIMIT == 0
  {
    x % U16_LIMIT
  }

  /** `x as u8`: keep the low 8 bits. */
  function AsU8(x: int): (r: u8)
    ensures (r - x) % U8_LIMIT == 0
  {
    x % U8_LIMIT
  }

  /** A value that already fits a `u8` is unchanged by the cast. */
  lemma AsU8Small(x: int)
    requires 0 <= x < U8_LIMIT
    ensures AsU8(x) == x
  {
  }

  /** `x as i32`: the two's complement reading of the low 32 bits. */
  function AsI32(x: int): (r: i32)
    ensures (r - x) % U32_LIMIT == 0
  {
    var w := x % U32_LIMIT;
    if w < 0x8000_0000 then w else w - U32_LIMIT
  }

  /** `x as i16`: the two's complement reading of the low 16 bits. */
  function AsI16(x: int): (r: i16)
    ensures (r - x) % U16_LIMIT == 0
  {
    var w := x % U16_LIMIT;
    if w < 0x8000 then w else w - U16_LIMIT
  }

  datatype Option<+T> = None | Some(value: T) {
    function GetOr(default: T): T {
      match this
      case Some(v) => v
      case None => default
    }
  }

  /** A failure carries the error; `Ok` the value. */
  datatype Result<+T, +E> = Ok(value: T) | Err(error: E) {
    predicate IsFailure() { Err? }
    function PropagateFailure<U>(): Result<U, E>
      requires Err?
    {
      Err(error)
    }
    function Extract(): T
      requires Ok?
    {
      value
    }
  }

  function Min(a: int, b: int): int { if a <= b then a else b }
  function Max(a: int, b: int): int { if a <= b then b else a }

  /** Powers of two, for the widths of bitwise operations. */
  function Pow2(n: nat): (r: nat)
    ensures r >= 1
  {
    if n == 0 then 1 else 2 * Pow2(n - 1)
  }
}
