/** The demo boards' clocks: `InstantShort`, a 32-bit timer reading compared
    across wrap-around, and the 64-bit uptime that `get_uptime` reports as two
    32-bit halves. The rp2040 and esp32c3 demos define `InstantShort`
    identically; they differ in how `full` reads the counter. */
module Clock {
  import opened Types

  const RP2040_CLOCK_FREQ: u32 := 1_000_000
  const ESP32C3_CLOCK_FREQ: u32 := 40_000_000

  const U64_LIMIT: int := 0x1_0000_0000_0000_0000
  const HIGH_BIT: u32 := 0x8000_0000

  // ---------------------------------------------------------------------------
  // Bitwise operations on non-negative integers

  /** `a & b`, bit by bit from the least significant. */
  function And(a: nat, b: nat): nat
    decreases a + b
  {
    if a == 0 || b == 0 then 0
    else 2 * And(a / 2, b / 2) + (if a % 2 == 1 && b % 2 == 1 then 1 else 0)
  }

  /** `a | b`, bit by bit from the least significant. */
  function Or(a: nat, b: nat): nat
    decreases a + b
  {
    if a == 0 then b
    else if b == 0 then a
    else 2 * Or(a / 2, b / 2) + (if a % 2 == 1 || b % 2 == 1 then 1 else 0)
  }

  lemma {:induction false} Pow2Add(a: nat, b: nat)
    ensures Pow2(a + b) == Pow2(a) * Pow2(b)
    decreases a
  {
    if a > 0 {
      Pow2Add(a - 1, b);
    }
  }

  lemma Pow2Widths()
    ensures Pow2(8) == 0x100 && Pow2(16) == 0x1_0000
    ensures Pow2(31) == HIGH_BIT as int && Pow2(32) == U32_LIMIT
    ensures Pow2(22) == 0x40_0000 && Pow2(54) == 0x40_0000_0000_0000
    ensures Pow2(64) == U64_LIMIT
  {
    assert Pow2(4) == 16;
    assert Pow2(8) == 0x100;
    Pow2Add(8, 8);
    Pow2Add(16, 16);
    Pow2Add(16, 6);
    Pow2Add(22, 32);
    Pow2Add(32, 32);
    assert Pow2(32) == 2 * Pow2(31);
  }

  lemma {:induction false} MulAtLeast(k: int, d: int)
    requires k >= 1 && d > 0
    ensures k * d >= d
    decreases k
  {
    if k > 1 {
      MulAtLeast(k - 1, d);
      assert k * d == (k - 1) * d + d;
    }
  }

  /** A quotient and remainder are determined by the division they satisfy. */
  lemma DivModUnique(x: int, d: int, q: int, r: int)
    requires d > 0 && x == q * d + r && 0 <= r < d
    ensures x / d == q && x % d == r
  {
    var q', r' := x / d, x % d;
    assert x == q' * d + r';
    assert (q - q') * d == r' - r;
    if q > q' {
      MulAtLeast(q - q', d);
    } else if q < q' {
      MulAtLeast(q' - q, d);
    }
  }

  /** `x & (2^k - 1)` keeps the low `k` bits. */
  lemma {:induction false} AndLowMask(x: nat, k: nat)
    ensures And(x, Pow2(k) - 1) == x % Pow2(k)
    decreases k
  {
    if k == 0 {
      assert And(x, 0) == 0 && x % 1 == 0;
    } else if x == 0 {
      assert And(0, Pow2(k) - 1) == 0 && 0 % Pow2(k) == 0;
    } else {
      var p := Pow2(k - 1);
      var m := Pow2(k) - 1;
      assert m % 2 == 1 && m / 2 == p - 1;
      var low := 2 * ((x / 2) % p) + x % 2;
      assert And(x, m) == low by {
        AndOdd(x, m);
        AndLowMask(x / 2, k - 1);
      }
      assert x % Pow2(k) == low by {
        ModHalves(x, p);
      }
    }
  }

  /** One step of `x & m` for an odd `m`: the last bit of `x`, then `x / 2 & m / 2`. */
  lemma AndOdd(x: nat, m: nat)
    requires x > 0 && m % 2 == 1
    ensures And(x, m) == 2 * And(x / 2, m / 2) + x % 2
  {
  }

  /** Taking `x` modulo `2p` by its last bit and the rest modulo `p`. */
  lemma ModHalves(x: nat, p: nat)
    requires p >= 1
    ensures 2 * ((x / 2) % p) + x % 2 == x % (2 * p)
  {
    var q := (x / 2) / p;
    var r := (x / 2) % p;
    assert x / 2 == q * p + r;
    assert x == 2 * (x / 2) + x % 2;
    assert 2 * (q * p) == q * (2 * p);
    assert x == q * (2 * p) + (2 * r + x % 2);
    DivModUnique(x, 2 * p, q, 2 * r + x % 2);
  }

  /** `x & 2^k` is nonzero exactly when bit `k` of `x` is set. */
  lemma {:induction false} AndBit(x: nat, k: nat)
    ensures And(x, Pow2(k)) != 0 <==> (x / Pow2(k)) % 2 == 1
    decreases k
  {
    if x > 0 {
      if k == 0 {
        assert And(x, 1) == And(x / 2, 0) * 2 + (if x % 2 == 1 then 1 else 0);
      } else {
        AndBit(x / 2, k - 1);
        assert Pow2(k) / 2 == Pow2(k - 1) && Pow2(k) % 2 == 0;
        assert x / Pow2(k) == (x / 2) / Pow2(k - 1) by {
          DivDiv(x, 2, Pow2(k - 1));
        }
      }
    }
  }

  lemma DivDiv(x: nat, a: nat, b: nat)
    requires a >= 1 && b >= 1
    ensures x / (a * b) == (x / a) / b
  {
    var q := (x / a) / b;
    var r := (x / a) % b;
    assert x / a == q * b + r;
    assert x == a * (x / a) + x % a;
    assert a * (q * b + r) == q * (a * b) + a * r;
    assert x == q * (a * b) + (a * r + x % a);
    assert a * r <= a * (b - 1) by {
      if r < b - 1 {
        MulAtLeast(b - 1 - r, a);
        assert a * (b - 1) - a * r == (b - 1 - r) * a;
      }
    }
    assert a * (b - 1) == a * b - a;
    DivModUnique(x, a * b, q, a * r + x % a);
  }

  /** `(h << k) | l` is `h * 2^k + l` when `l` fits in `k` bits. */
  lemma {:induction false} OrShifted(h: nat, l: nat, k: nat)
    requires l < Pow2(k)
    ensures Or(h * Pow2(k), l) == h * Pow2(k) + l
    decreases k
  {
    if k > 0 && h > 0 && l > 0 {
      var p := Pow2(k - 1);
      assert h * Pow2(k) == 2 * (h * p);
      assert (h * Pow2(k)) / 2 == h * p && (h * Pow2(k)) % 2 == 0;
      OrShifted(h, l / 2, k - 1);
    }
  }

  /** `x & 0x8000_0000` on a `u32` is nonzero exactly when `x >= 2^31`. */
  lemma AndTopBit(x: u32)
    ensures And(x, HIGH_BIT) != 0 <==> x >= HIGH_BIT
  {
    Pow2Widths();
    AndBit(x, 31);
    var q := x / HIGH_BIT;
    assert x == q * HIGH_BIT + x % HIGH_BIT;
    assert q == 0 || q == 1;
  }

  /** `x & 0xFFFF_FFFF` keeps the low 32 bits. */
  lemma AndLow32(x: nat)
    ensures And(x, 0xFFFF_FFFF) == x % U32_LIMIT
  {
    Pow2Widths();
    AndLowMask(x, 32);
  }

  /** `x & 0x003F_FFFF_FFFF_FFFF` keeps the low 54 bits. */
  lemma AndLow54(x: nat)
    ensures And(x, 0x003F_FFFF_FFFF_FFFF) == x % Pow2(54)
    ensures Pow2(54) == 0x40_0000_0000_0000
  {
    Pow2Widths();
    AndLowMask(x, 54);
  }

  /** `(high << 32) | low` on two `u32` halves is `high * 2^32 + low`. */
  lemma OrHalves(high: u32, low: u32)
    ensures Or(Shl64(high, 32), low) == high * U32_LIMIT + low
  {
    Pow2Widths();
    assert high * U32_LIMIT < U64_LIMIT;
    assert Shl64(high, 32) == high * U32_LIMIT;
    OrShifted(high, low, 32);
  }

  /** A 64-bit value splits into a high and a low 32-bit half. */
  lemma SplitHalves(c: u64)
    ensures c / U32_LIMIT < U32_LIMIT
    ensures c == (c / U32_LIMIT) * U32_LIMIT + c % U32_LIMIT
  {
    var h := c / U32_LIMIT;
    assert c == h * U32_LIMIT + c % U32_LIMIT;
  }

  // ---------------------------------------------------------------------------
  // `InstantShort`

  /** `x.wrapping_add(y)` on `u32`. */
  function WrappingAdd(x: u32, y: u32): u32
  {
    (x + y) % U32_LIMIT
  }

  /** `x.wrapping_sub(y)` on `u32`. */
  function WrappingSub(x: u32, y: u32): u32
  {
    (x - y) % U32_LIMIT
  }

  /** `InstantShort(u32)`. */
  datatype InstantShort = InstantShort(ticks: u32)
  {
    /** `self.after(other)`: the top bit of `other - self`, taken modulo 2^32. */
    function After(other: InstantShort): (r: bool)
      ensures r <==> WrappingSub(other.ticks, ticks) >= HIGH_BIT
    {
      var d := WrappingSub(other.ticks, ticks);
      AndTopBit(d);
      And(d, HIGH_BIT) != 0
    }

    /** `self + rhs`, wrapping: the instant `rhs` ticks on, so subtracting
        this instant from it gives `rhs` back. */
    function Add(rhs: u32): (r: InstantShort)
      ensures WrappingSub(r.ticks, ticks) == rhs
    {
      InstantShort(WrappingAdd(ticks, rhs))
    }
  }

  /** `InstantShort::new`; `From` gives the count back. */
  function New(t: u32): (r: InstantShort)
    ensures Ticks(r) == t
  {
    InstantShort(t)
  }

  /** `From<InstantShort> for u32`: the count an instant is made of. */
  function Ticks(t: InstantShort): (r: u32)
    ensures InstantShort(r) == t
  {
    t.ticks
  }

  /** No instant is after itself. */
  lemma AfterIrreflexive(t: InstantShort)
    ensures !t.After(t)
  {
  }

  /** Two instants are each after the other exactly when they lie half the
      32-bit range apart; at every other distance at most one of them is. */
  lemma AfterBothWays(a: InstantShort, b: InstantShort)
    ensures a.After(b) && b.After(a) <==> WrappingSub(b.ticks, a.ticks) == HIGH_BIT
  {
    if a.ticks != b.ticks {
      assert WrappingSub(a.ticks, b.ticks) == U32_LIMIT - WrappingSub(b.ticks, a.ticks);
    }
  }

  /** Going forward by `d` ticks gives an instant after the start exactly when
      `0 < d <= 2^31`, and leaves the start after the new instant exactly when
      `d >= 2^31`: for `0 < d < 2^31` the new instant is after the old one and
      not the other way round. */
  lemma AddAfter(t: InstantShort, d: u32)
    ensures t.Add(d).After(t) <==> 0 < d <= HIGH_BIT
    ensures t.After(t.Add(d)) <==> d >= HIGH_BIT
  {
    var u := t.Add(d);
    assert WrappingSub(u.ticks, t.ticks) == d;
    if d != 0 {
      assert WrappingSub(t.ticks, u.ticks) == U32_LIMIT - d;
    }
  }

  /** Adding twice is adding the wrapped sum. */
  lemma AddTwice(t: InstantShort, a: u32, b: u32)
    ensures t.Add(a).Add(b) == t.Add(WrappingAdd(a, b))
  {
    var x := t.ticks;
    var u := if x + a < U32_LIMIT then x + a else x + a - U32_LIMIT;
    var v := if a + b < U32_LIMIT then a + b else a + b - U32_LIMIT;
    assert WrappingAdd(x, a) == u && WrappingAdd(a, b) == v;
    ModShift(x + v, (u + b) - (x + v));
  }

  /** Adding a multiple of 2^32 from -2^32 to 2^32 leaves a value modulo 2^32 alone. */
  lemma ModShift(n: int, d: int)
    requires d == -U32_LIMIT || d == 0 || d == U32_LIMIT
    ensures (n + d) % U32_LIMIT == n % U32_LIMIT
  {
  }

  /** `+= rhs` on a variable holding an `InstantShort`. */
  class InstantShortVar {
    var value: InstantShort

    constructor(t: InstantShort)
      ensures value == t
    {
      value := t;
    }

    /** `AddAssign<u32>`: the same instant `+` computes, stored in place. */
    method AddAssign(rhs: u32)
      modifies this
      ensures value == old(value).Add(rhs)
      ensures value.ticks == (old(value).ticks + rhs) % U32_LIMIT
    {
      value := InstantShort(WrappingAdd(value.ticks, rhs));
    }
  }

  // ---------------------------------------------------------------------------
  // The full counter and `get_uptime`

  /** `(x as u64) << n` on a `u32`, truncated to 64 bits. */
  function Shl64(x: u32, n: nat): u64
  {
    (x * Pow2(n)) % U64_LIMIT
  }

  /** rp2040 `full`: `(high << 32) | low` from the two timer halves, which is
      the 64-bit count `high * 2^32 + low`. */
  function RpFull(high: u32, low: u32): (r: u64)
    ensures r == high * U32_LIMIT + low
  {
    OrHalves(high, low);
    Or(Shl64(high, 32), low)
  }

  /** esp32c3 `full`: the counter masked with `0x003F_FFFF_FFFF_FFFF`, which
      keeps its low 54 bits. */
  function EspFull(counter: u64): (r: u64)
    ensures r == counter % Pow2(54) && r < 0x40_0000_0000_0000
  {
    AndLow54(counter);
    And(counter, 0x003F_FFFF_FFFF_FFFF)
  }

  /** The arguments of the `uptime` reply: `high = (c >> 32) as u32` and
      `clock = (c & 0xFFFF_FFFF) as u32`. */
  datatype Uptime = Uptime(high: u32, clock: u32)

  /** `get_uptime` on the counter value `c`: the two halves recombine to `c`. */
  function UptimeOf(c: u64): (r: Uptime)
    ensures r.high * U32_LIMIT + r.clock == c
    ensures r.clock == c % U32_LIMIT
  {
    AndLow32(c);
    SplitHalves(c);
    Uptime(AsU32(c / U32_LIMIT), AsU32(And(c, 0xFFFF_FFFF)))
  }

  /** rp2040: splitting the composed count gives back the two timer halves. */
  lemma RpUptimeRoundTrip(high: u32, low: u32)
    ensures UptimeOf(RpFull(high, low)) == Uptime(high, low)
  {
    var c := RpFull(high, low);
    DivModUnique(c, U32_LIMIT, high, low);
    var r := UptimeOf(c);
    assert r.clock == low;
    assert r.high * U32_LIMIT == high * U32_LIMIT;
  }

  /** esp32c3: the reported `high` half is below 2^22, since `full` keeps 54 bits,
      and the halves recombine to the masked count. */
  lemma EspUptimeBound(counter: u64)
    ensures UptimeOf(EspFull(counter)).high < 0x40_0000
    ensures UptimeOf(EspFull(counter)).high * U32_LIMIT + UptimeOf(EspFull(counter)).clock == counter % Pow2(54)
  {
    var r := UptimeOf(EspFull(counter));
    assert r.high * U32_LIMIT < 0x40_0000 * U32_LIMIT;
  }
}
