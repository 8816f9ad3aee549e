/** lib/ia32/math.c: 64-bit arithmetic spelled out on 32-bit registers. */
module WideMath {
  import opened Basics

  function Pow2(n: nat): (p: int)
    ensures p > 0
  {
    if n == 0 then 1 else 2 * Pow2(n - 1)
  }

  lemma {:induction false} Pow2Sum(m: nat, n: nat)
    ensures Pow2(m + n) == Pow2(m) * Pow2(n)
    decreases m
  {
    if m > 0 {
      Pow2Sum(m - 1, n);
      assert Pow2(m + n) == 2 * (Pow2(m - 1) * Pow2(n));
    }
  }

  lemma Pow2Word()
    ensures Pow2(0) == 1 && Pow2(32) == WORD && Pow2(64) == WIDE == WORD * WORD
  {
    assert Pow2(8) == 0x100;
    Pow2Sum(8, 8);
    Pow2Sum(16, 16);
    Pow2Sum(32, 32);
  }

  lemma PowersFillWord(k: nat)
    requires k <= 32
    ensures Pow2(k) * Pow2(32 - k) == WORD
  {
    Pow2Word();
    Pow2Sum(k, 32 - k);
  }

  lemma TwoOut(p: int, q: int)
    ensures p * q * 2 == p * (2 * q)
  {
  }

  lemma PowersFillWide(b: nat)
    requires b < 64
    ensures Pow2(63 - b) * Pow2(b) * 2 == WIDE
    ensures Pow2(64 - b) == 2 * Pow2(63 - b) && Pow2(b + 1) == 2 * Pow2(b)
  {
    Pow2Word();
    Pow2Sum(63 - b, b + 1);
    TwoOut(Pow2(63 - b), Pow2(b));
  }

  lemma PowersPastWord(c: nat)
    requires c >= 32
    ensures Pow2(c) == WORD * Pow2(c - 32)
  {
    Pow2Word();
    Pow2Sum(32, c - 32);
  }

  lemma DivBounds(a: int, d: int)
    requires d > 0
    ensures a == a / d * d + a % d && 0 <= a % d < d
  {
  }

  lemma ProductBelow(a: int, b: int, p: int, q: int)
    requires 0 <= a < p && 0 <= b < q
    ensures 0 <= a * q + b < p * q
  {
    NotNegative(a, q);
    NotNegative(p - 1 - a, q);
    assert (p - 1 - a) * q == p * q - q - a * q;
  }

  lemma NotNegative(a: int, b: int)
    requires a >= 0 && b >= 0
    ensures a * b >= 0
  {
  }

  // ------------------------------------------------------------------------------------ shifts

  /** `shld dst, src, count`: `dst` moves up and the top of `src` fills the gap; the processor takes the
      count modulo 32. */
  function Shld(dst: UInt32, src: UInt32, count: nat): int {
    var k := count % 32;
    dst * Pow2(k) % WORD + src / Pow2(32 - k)
  }

  function Shrd(dst: UInt32, src: UInt32, count: nat): int {
    var k := count % 32;
    dst / Pow2(k) + src * Pow2(32 - k) % WORD
  }

  function Shl(dst: UInt32, count: nat): int {
    dst * Pow2(count % 32) % WORD
  }

  function Shr(dst: UInt32, count: nat): int {
    dst / Pow2(count % 32)
  }

  /** Multiplying by `p` pushes out of the word what dividing by `q` keeps. */
  lemma PushedOut(w: UInt32, p: int, q: int)
    requires p > 0 && q > 0 && p * q == WORD
    ensures w * p == w / q * WORD + w * p % WORD
    ensures w * p % WORD == w % q * p && w / q < p
  {
    var a, b := w / q, w % q;
    DivBounds(w, q);
    assert w * p == a * WORD + b * p by {
      assert (a * q + b) * p == a * q * p + b * p;
      assert a * q * p == a * (p * q);
    }
    ProductBelow(b, 0, q, p);
    DivMod(w * p, WORD, a, b * p);
    if a >= p {
      AtLeastTimes(a, p, q);
    }
  }

  lemma AtLeastTimes(a: int, p: int, q: int)
    requires a >= p && q > 0
    ensures a * q >= p * q
  {
    assert (a - p) * q >= 0;
  }

  /** The two halves of a shifted word do not overlap: what moves within a half leaves room for exactly
      what comes in from the other. */
  lemma HalvesFit(high: UInt32, low: UInt32, p: int, q: int)
    requires p > 0 && q > 0 && p * q == WORD
    ensures low * p == low / q * WORD + low * p % WORD
    ensures 0 <= high * p % WORD + low / q < WORD
  {
    PushedOut(low, p, q);
    PushedOut(high, p, q);
    ProductBelow(high % q, low / q, q, p);
  }

  lemma LeftShiftHalves(high: UInt32, low: UInt32, p: int, q: int)
    requires p > 0 && q > 0 && p * q == WORD
    ensures 0 <= high * p % WORD + low / q < WORD
    ensures (high * p % WORD + low / q) * WORD + low * p % WORD == (high * WORD + low) * p % WIDE
  {
    HalvesFit(high, low, p, q);
    var h, l := high * p % WORD + low / q, low * p % WORD;
    DivBounds(high * p, WORD);
    var c := high * p / WORD;
    assert (high * WORD + low) * p == high * p * WORD + low * p == c * WIDE + (h * WORD + l) by {
      assert WIDE == WORD * WORD;
    }
    ProductBelow(h, l, WORD, WORD);
    DivMod((high * WORD + low) * p, WIDE, c, h * WORD + l);
  }

  lemma RightShiftHalves(high: UInt32, low: UInt32, p: int, q: int)
    requires p > 0 && q > 0 && p * q == WORD
    ensures 0 <= low / p + high * q % WORD < WORD
    ensures high / p * WORD + (low / p + high * q % WORD) == (high * WORD + low) / p
  {
    HalvesFit(low, high, q, p);
    HalvesFit(high, low, q, p);
    DivBounds(low, p);
    assert (high * WORD + low) == (high * q + low / p) * p + low % p by {
      assert high * WORD == high * (p * q) == high * q * p;
    }
    DivMod(high * WORD + low, p, high * q + low / p, low % p);
  }

  lemma LowHalfShiftsOut(high: UInt32, low: UInt32, p: int)
    requires p > 0
    ensures low * p % WORD * WORD == (high * WORD + low) * (WORD * p) % WIDE
    ensures high / p == (high * WORD + low) / (WORD * p)
  {
    var a, r := low * p / WORD, low * p % WORD;
    DivBounds(low * p, WORD);
    assert (high * WORD + low) * (WORD * p) == (high * p + a) * WIDE + r * WORD by {
      assert WIDE == WORD * WORD;
      assert (high * WORD + low) * (WORD * p) == high * p * (WORD * WORD) + low * p * WORD;
    }
    ProductBelow(r, 0, WORD, WORD);
    DivMod((high * WORD + low) * (WORD * p), WIDE, high * p + a, r * WORD);
    DivBounds(high, p);
    ProductBelow(high % p, low, p, WORD);
    assert high * WORD + low == high / p * (WORD * p) + (high % p * WORD + low) by {
      assert high * WORD == (high / p * p + high % p) * WORD;
    }
    DivMod(high * WORD + low, WORD * p, high / p, high % p * WORD + low);
  }

  lemma CountBelowWord(high: UInt32, low: UInt32, k: nat, p: int, q: int)
    requires k < 32 && p == Pow2(k) && q == Pow2(32 - k)
    ensures Shld(high, low, k) == high * p % WORD + low / q && Shl(low, k) == low * p % WORD
    ensures Shrd(low, high, k) == low / p + high * q % WORD && Shr(high, k) == high / p
  {
    hide Pow2;
    assert k % 32 == k;
  }

  lemma ShiftLeftBelowWord(high: UInt32, low: UInt32, k: nat)
    requires k < 32
    ensures 0 <= Shld(high, low, k) < WORD && 0 <= Shl(low, k) < WORD
    ensures Shld(high, low, k) * WORD + Shl(low, k) == (high * WORD + low) * Pow2(k) % WIDE
  {
    hide Pow2, Shld, Shl;
    var p, q := Pow2(k), Pow2(32 - k);
    PowersFillWord(k);
    CountBelowWord(high, low, k, p, q);
    LeftShiftHalves(high, low, p, q);
  }

  lemma ShiftLeftByWord(high: UInt32, low: UInt32, c: nat)
    requires 32 <= c < 64
    ensures Shl(low, c) * WORD == (high * WORD + low) * Pow2(c) % WIDE
  {
    hide Pow2;
    PowersPastWord(c);
    assert c % 32 == c - 32;
    LowHalfShiftsOut(high, low, Pow2(c - 32));
  }

  lemma ShiftRightBelowWord(high: UInt32, low: UInt32, k: nat)
    requires k < 32
    ensures 0 <= Shrd(low, high, k) < WORD && 0 <= Shr(high, k) < WORD
    ensures Shr(high, k) * WORD + Shrd(low, high, k) == (high * WORD + low) / Pow2(k)
  {
    hide Pow2, Shrd, Shr;
    var p, q := Pow2(k), Pow2(32 - k);
    PowersFillWord(k);
    CountBelowWord(high, low, k, p, q);
    RightShiftHalves(high, low, p, q);
    QuotientAtMost(high, p);
  }

  lemma QuotientAtMost(a: nat, d: int)
    requires d > 0
    ensures 0 <= a / d <= a
  {
    DivBounds(a, d);
    if a / d > a {
      AtLeastTimes(a / d, a + 1, d);
      AtLeastTimes(d, 1, a + 1);
    }
  }

  lemma ShiftRightByWord(high: UInt32, low: UInt32, c: nat)
    requires 32 <= c < 64
    ensures Shr(high, c) == (high * WORD + low) / Pow2(c)
  {
    hide Pow2;
    PowersPastWord(c);
    assert c % 32 == c - 32;
    LowHalfShiftsOut(high, low, Pow2(c - 32));
  }

  /** The half-word left shift is the 64-bit shift by the count modulo 64. */
  method LShiftU64(Operand: UInt64, Count: UInt32) returns (Result: UInt64)
    ensures Result == Operand * Pow2(Count % 64) % WIDE
  {
    hide Pow2, Shld, Shl;
    var eax, edx := Operand % WORD, Operand / WORD;
    var ecx := Count % 64;
    assert edx * WORD + eax == Operand;
    LeftShiftsInWord(edx, eax, ecx);
    if ecx < 32 {
      ShiftLeftBelowWord(edx, eax, ecx);
    } else {
      ShiftLeftByWord(edx, eax, ecx);
    }
    edx := Shld(edx, eax, ecx);
    eax := Shl(eax, ecx);
    if !(ecx < 32) {
      edx := eax;
      eax := 0;
    }
    Result := edx * WORD + eax;
  }

  /** The half-word right shift is the 64-bit shift by the count modulo 64. */
  method RShiftU64(Operand: UInt64, Count: UInt32) returns (Result: UInt64)
    ensures Result == Operand / Pow2(Count % 64)
  {
    hide Pow2, Shrd, Shr;
    var eax, edx := Operand % WORD, Operand / WORD;
    var ecx := Count % 64;
    assert edx * WORD + eax == Operand;
    ShiftRightBelowWord(edx, eax, ecx % 32);
    CountModuloWord(edx, eax, ecx);
    if ecx >= 32 {
      ShiftRightByWord(edx, eax, ecx);
    }
    eax := Shrd(eax, edx, ecx);
    edx := Shr(edx, ecx);
    if !(ecx < 32) {
      eax := edx;
      edx := 0;
    }
    Result := edx * WORD + eax;
  }

  lemma LeftShiftsInWord(high: UInt32, low: UInt32, c: nat)
    ensures 0 <= Shld(high, low, c) < WORD && 0 <= Shl(low, c) < WORD
  {
    CountModuloWord(high, low, c);
    ShiftLeftBelowWord(high, low, c % 32);
  }

  lemma CountModuloWord(high: UInt32, low: UInt32, c: nat)
    ensures Shld(high, low, c) == Shld(high, low, c % 32) && Shl(low, c) == Shl(low, c % 32)
    ensures Shrd(low, high, c) == Shrd(low, high, c % 32) && Shr(high, c) == Shr(high, c % 32)
  {
    hide Pow2;
    TwiceModulo(c);
  }

  lemma TwiceModulo(c: nat)
    ensures c % 32 % 32 == c % 32
  {
  }

  // ---------------------------------------------------------------------------- multiplication

  /** Two 32-bit products and one addition give the product modulo 2^64. */
  method MultU64x32(Multiplicand: UInt64, Multiplier: UInt32) returns (Result: UInt64)
    ensures Result == Multiplicand * Multiplier % WIDE
  {
    var low, high := Multiplicand % WORD, Multiplicand / WORD;
    var first := low * Multiplier;
    var result0, result4 := first % WORD, first / WORD;
    var second := high * Multiplier;
    result4 := (result4 + second % WORD) % WORD;
    Result := result4 * WORD + result0;
    ProductOfHalves(high, low, Multiplier);
  }

  lemma ProductOfHalves(high: UInt32, low: UInt32, m: UInt32)
    ensures ((low * m / WORD + high * m % WORD) % WORD) * WORD + low * m % WORD == (high * WORD + low) * m % WIDE
  {
    var a, r := low * m / WORD, low * m % WORD;
    var b, s := high * m / WORD, high * m % WORD;
    var c, t := (a + s) / WORD, (a + s) % WORD;
    DivBounds(low * m, WORD);
    DivBounds(high * m, WORD);
    DivBounds(a + s, WORD);
    assert (high * WORD + low) * m == high * m * WORD + low * m;
    assert (high * WORD + low) * m == (b + c) * WIDE + (t * WORD + r) by {
      assert WIDE == WORD * WORD;
    }
    ProductBelow(t, r, WORD, WORD);
    DivMod((high * WORD + low) * m, WIDE, b + c, t * WORD + r);
  }

  // --------------------------------------------------------------------------------- division

  /** The dividend in two registers, and the remainder the loop builds up beside it. */
  datatype Registers = Registers(low: UInt32, high: UInt32, rem: UInt32) {
    function Dividend(): (w: UInt64) {
      ProductBelow(high, low, WORD, WORD);
      high * WORD + low
    }
  }

  /** One turn: shift rem:high:low left by one, then subtract the divisor from the remainder and set
      the low bit of the dividend if it fits.  The bit shifted out of `rem` is lost. */
  function Turn(r: Registers, divisor: UInt32): Registers {
    var low := r.low * 2 % WORD;
    var high := (r.high * 2 + r.low * 2 / WORD) % WORD;
    var rem := (r.rem * 2 + (r.high * 2 + r.low * 2 / WORD) / WORD) % WORD;
    if rem >= divisor then Registers((low + 1) % WORD, high, rem - divisor)
    else Registers(low, high, rem)
  }

  function Turns(r: Registers, divisor: UInt32, n: nat): Registers
    decreases n
  {
    if n == 0 then r else Turn(Turns(r, divisor, n - 1), divisor)
  }

  function Start(dividend: UInt64): Registers {
    Registers(dividend % WORD, dividend / WORD, 0)
  }

  /** The turn seen on the whole 64-bit dividend. */
  lemma TurnOnWide(r: Registers, divisor: UInt32)
    requires divisor > 0
    ensures var w, rem := r.Dividend() * 2, (r.rem * 2 + r.Dividend() * 2 / WIDE) % WORD;
      && Turn(r, divisor).Dividend() == w % WIDE + (if rem >= divisor then 1 else 0)
      && Turn(r, divisor).rem == rem - (if rem >= divisor then divisor else 0)
  {
    var w := r.Dividend() * 2;
    var c0, low := r.low * 2 / WORD, r.low * 2 % WORD;
    var c1, high := (r.high * 2 + c0) / WORD, (r.high * 2 + c0) % WORD;
    assert w == c1 * WIDE + (high * WORD + low);
    ProductBelow(high, low, WORD, WORD);
    DivMod(w, WIDE, c1, high * WORD + low);
    assert low % 2 == 0;
  }

  /** After `b` turns, with `p` and `q` the 64-b-th and b-th powers of two: the top `b` bits of the
      dividend are divided, the others wait above the quotient. */
  predicate DividedAt(n: UInt64, divisor: UInt32, p: int, q: int, r: Registers)
    requires divisor > 0 && p > 0
  {
    && r.Dividend() == n % p * q + n / p / divisor
    && r.rem == n / p % divisor
    && n / p / divisor < q
  }

  predicate Divided(n: UInt64, divisor: UInt32, b: nat, r: Registers)
    requires divisor > 0 && b <= 64
  {
    DividedAt(n, divisor, Pow2(64 - b), Pow2(b), r)
  }

  lemma NextBit(n: nat, p: int)
    requires p > 0
    ensures n / p == 2 * (n / (2 * p)) + n % (2 * p) / p
    ensures n % (2 * p) == n % (2 * p) / p * p + n % p
    ensures 0 <= n % (2 * p) / p <= 1
  {
    var x, y := n / (2 * p), n % (2 * p);
    DivBounds(n, 2 * p);
    DivBounds(y, p);
    var t := y / p;
    if t >= 2 {
      AtLeastTimes(t, 2, p);
    } else if t < 0 {
      AtLeastTimes(-1, t, p);
    }
    assert n == (2 * x + t) * p + y % p by {
      assert x * (2 * p) == 2 * x * p;
    }
    DivMod(n, p, 2 * x + t, y % p);
  }

  /** The next bit goes out of the dividend and the quotient bits move up into its place. */
  lemma CarryOut(y: int, p: int, q: int, quotient: int)
    requires p > 0 && q > 0 && p * q * 2 == WIDE && 0 <= y < 2 * p && 0 <= quotient < q
    ensures var w := (y * q + quotient) * 2;
      && w / WIDE == y / p
      && w % WIDE == y % p * (2 * q) + 2 * quotient
  {
    DivBounds(y, p);
    var t, rest := y / p, y % p;
    var w := (y * q + quotient) * 2;
    assert w == t * WIDE + (rest * (2 * q) + 2 * quotient) by {
      assert y * q == t * p * q + rest * q;
      assert t * p * q * 2 == t * (p * q * 2);
    }
    ProductBelow(rest, 2 * quotient, p, 2 * q);
    assert p * (2 * q) == WIDE;
    DivMod(w, WIDE, t, rest * (2 * q) + 2 * quotient);
  }

  lemma NextQuotientBit(x: nat, t: int, divisor: int)
    requires divisor > 0 && 0 <= t <= 1
    ensures var rem := 2 * (x % divisor) + t;
      && (2 * x + t) / divisor == 2 * (x / divisor) + (if rem >= divisor then 1 else 0)
      && (2 * x + t) % divisor == rem - (if rem >= divisor then divisor else 0)
  {
    DivBounds(x, divisor);
    var rem, bit := 2 * (x % divisor) + t, if 2 * (x % divisor) + t >= divisor then 1 else 0;
    assert 2 * x + t == (2 * (x / divisor) + bit) * divisor + (rem - bit * divisor);
    DivMod(2 * x + t, divisor, 2 * (x / divisor) + bit, rem - bit * divisor);
  }

  /** A turn divides one more bit, provided nothing is shifted out of the remainder. */
  lemma TurnDividesAt(n: UInt64, divisor: UInt32, p: int, q: int, r: Registers)
    requires divisor > 0 && p > 0 && q > 0 && p * q * 2 == WIDE
    requires DividedAt(n, divisor, 2 * p, q, r) && 2 * r.rem + 1 < WORD
    ensures DividedAt(n, divisor, p, 2 * q, Turn(r, divisor))
  {
    hide Turn, Registers.Dividend;
    var x, y := n / (2 * p), n % (2 * p);
    NextDigits(n, p);
    NotBelowZero(x, divisor);
    CarryOut(y, p, q, x / divisor);
    NextQuotientBit(x, y / p, divisor);
    assert r.Dividend() * 2 == (y * q + x / divisor) * 2;
    TurnWithin(r, divisor, y / p, y % p * (2 * q) + 2 * (x / divisor));
  }

  /** A turn that loses nothing: `t` comes out of the dividend, and `rest` stays. */
  lemma TurnWithin(r: Registers, divisor: UInt32, t: int, rest: int)
    requires divisor > 0 && 2 * r.rem + 1 < WORD && 0 <= t <= 1
    requires r.Dividend() * 2 / WIDE == t && r.Dividend() * 2 % WIDE == rest
    ensures Turn(r, divisor).Dividend() == rest + (if 2 * r.rem + t >= divisor then 1 else 0)
    ensures Turn(r, divisor).rem == 2 * r.rem + t - (if 2 * r.rem + t >= divisor then divisor else 0)
  {
    hide Turn, Registers.Dividend;
    TurnOnWide(r, divisor);
  }

  lemma NextDigits(n: nat, p: int)
    requires p > 0
    ensures var x, y := n / (2 * p), n % (2 * p);
      && x >= 0 && 0 <= y < 2 * p && 0 <= y / p <= 1
      && n / p == 2 * x + y / p && n % p == y % p
  {
    var y := n % (2 * p);
    NextBit(n, p);
    DivBounds(n, 2 * p);
    DivBounds(n, p);
    QuotientAtMost(n, 2 * p);
    DivMod(y, p, y / p, n % p);
  }

  lemma NotBelowZero(x: nat, d: int)
    requires d > 0
    ensures x / d >= 0
  {
    QuotientAtMost(x, d);
  }

  lemma TurnDivides(n: UInt64, divisor: UInt32, b: nat, r: Registers)
    requires divisor > 0 && b < 64 && Divided(n, divisor, b, r) && 2 * r.rem + 1 < WORD
    ensures Divided(n, divisor, b + 1, Turn(r, divisor))
  {
    hide Turn, DividedAt, Pow2;
    var p, q := Pow2(63 - b), Pow2(b);
    PowersFillWide(b);
    TurnDividesAt(n, divisor, p, q, r);
  }

  lemma StartDivided(n: UInt64, divisor: UInt32)
    requires divisor > 0
    ensures Divided(n, divisor, 0, Start(n))
  {
    hide Pow2;
    Pow2Word();
    DivMod(n, WIDE, 0, n);
    DivMod(0, divisor, 0, 0);
    DivBounds(n, WORD);
  }

  lemma EndDivided(n: UInt64, divisor: UInt32, r: Registers)
    requires divisor > 0 && Divided(n, divisor, 64, r)
    ensures r.Dividend() == n / divisor && r.rem == n % divisor
  {
    assert Pow2(0) == 1 && n % 1 == 0 && n / 1 == n;
  }

  function DivLoop(dividend: UInt64, divisor: UInt32): (UInt64, UInt32) {
    var r := Turns(Start(dividend), divisor, 64);
    (r.Dividend(), r.rem)
  }

  /** 64 turns of shift, compare and subtract give quotient and remainder; the remainder register is
      wide enough for divisors up to 2^31. */
  method DivU64x32(Dividend: UInt64, Divisor: UInt32) returns (Quotient: UInt64, Remainder: UInt32)
    requires Divisor != 0
    ensures (Quotient, Remainder) == DivLoop(Dividend, Divisor)
    ensures Divisor <= 0x8000_0000 ==> Quotient == Dividend / Divisor && Remainder == Dividend % Divisor
  {
    hide Turn, Divided, Start, Registers.Dividend;
    var r := Start(Dividend);
    StartDivided(Dividend, Divisor);
    for bit := 0 to 64
      invariant r == Turns(Start(Dividend), Divisor, bit)
      invariant Divisor <= 0x8000_0000 ==> Divided(Dividend, Divisor, bit, r)
    {
      if Divisor <= 0x8000_0000 {
        RemainderFits(Dividend, Divisor, bit, r);
        TurnDivides(Dividend, Divisor, bit, r);
      }
      r := Turn(r, Divisor);
    }
    if Divisor <= 0x8000_0000 {
      EndDivided(Dividend, Divisor, r);
    }
    Quotient, Remainder := r.Dividend(), r.rem;
  }

  lemma RemainderFits(n: UInt64, divisor: UInt32, b: nat, r: Registers)
    requires 0 < divisor <= 0x8000_0000 && b <= 64 && Divided(n, divisor, b, r)
    ensures 2 * r.rem + 1 < WORD
  {
  }

  /** The loop divides every dividend correctly exactly when the divisor is at most 2^31: above that,
      twice the divisor minus two is divided wrongly, because its remainder loses its top bit. */
  lemma DivisorLimit(divisor: UInt32)
    requires divisor > 0
    ensures divisor <= 0x8000_0000 <==>
      forall n: UInt64 :: DivLoop(n, divisor) == (n / divisor, n % divisor)
  {
    hide DivLoop;
    if divisor <= 0x8000_0000 {
      forall n: UInt64 ensures DivLoop(n, divisor) == (n / divisor, n % divisor) {
        TurnsDivide(n, divisor, 64);
      }
    } else {
      var n: UInt64 := 2 * (divisor - 1);
      TooWide(divisor);
      DivMod(n, divisor, 1, divisor - 2);
      assert DivLoop(n, divisor) != (n / divisor, n % divisor);
    }
  }

  lemma {:induction false} TurnsDivide(n: UInt64, divisor: UInt32, b: nat)
    requires 0 < divisor <= 0x8000_0000 && b <= 64
    ensures Divided(n, divisor, b, Turns(Start(n), divisor, b))
    ensures b == 64 ==> DivLoop(n, divisor) == (n / divisor, n % divisor)
    decreases b
  {
    hide Turn, Divided, Start, Registers.Dividend;
    if b == 0 {
      StartDivided(n, divisor);
    } else {
      TurnsDivide(n, divisor, b - 1);
      var r := Turns(Start(n), divisor, b - 1);
      RemainderFits(n, divisor, b - 1, r);
      TurnDivides(n, divisor, b - 1, r);
    }
    if b == 64 {
      EndDivided(n, divisor, Turns(Start(n), divisor, 64));
    }
  }

  /** For 2 * (divisor - 1) nothing is lost in the first 63 turns. */
  lemma {:induction false} NothingLostYet(divisor: UInt32, b: nat)
    requires 0x8000_0000 < divisor && b <= 63
    ensures Divided(2 * (divisor - 1), divisor, b, Turns(Start(2 * (divisor - 1)), divisor, b))
    decreases b
  {
    hide Turn, Divided, Start, Registers.Dividend;
    var n := 2 * (divisor - 1);
    if b == 0 {
      StartDivided(n, divisor);
    } else {
      NothingLostYet(divisor, b - 1);
      var r := Turns(Start(n), divisor, b - 1);
      SmallSoFar(divisor, b - 1, r);
      TurnDivides(n, divisor, b - 1, r);
    }
  }

  lemma SmallSoFar(divisor: UInt32, b: nat, r: Registers)
    requires 0x8000_0000 < divisor && b <= 62 && Divided(2 * (divisor - 1), divisor, b, r)
    ensures 2 * r.rem + 1 < WORD
  {
    hide Pow2, Registers.Dividend;
    var n, p := 2 * (divisor - 1), Pow2(64 - b);
    PowersFillWide(b);
    PowersFillWide(b + 1);
    QuarterIsSmall(n, p);
    RemainderAtMost(n / p, divisor);
  }

  lemma QuarterIsSmall(n: int, p: int)
    requires 0 <= n < 2 * WORD && p >= 4
    ensures 0 <= n / p < 0x8000_0000
  {
    DivBounds(n, p);
    QuotientAtMost(n, p);
    AtLeastTimes(p, 4, n / p + 1);
  }

  lemma RemainderAtMost(x: nat, d: int)
    requires d > 0
    ensures x % d <= x
  {
    DivBounds(x, d);
    QuotientAtMost(x, d);
    AtLeastTimes(x / d, 0, d);
  }

  lemma TooWide(divisor: UInt32)
    requires 0x8000_0000 < divisor
    ensures DivLoop(2 * (divisor - 1), divisor).0 == 0
  {
    hide Turn, Start, Registers.Dividend;
    var n := 2 * (divisor - 1);
    var r := Turns(Start(n), divisor, 63);
    NothingLostYet(divisor, 63);
    DivMod(n, 2, divisor - 1, 0);
    DivMod(divisor - 1, divisor, 0, divisor - 1);
    assert Pow2(1) == 2;
    assert r.Dividend() == 0 && r.rem == divisor - 1;
    TurnOnWide(r, divisor);
    assert Turns(Start(n), divisor, 64) == Turn(r, divisor);
  }
}
