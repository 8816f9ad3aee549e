/** Number text: ValueToHex and ValueToString of print.c, xtoi and Atoi of str.c. */
module Numbers {
  import opened Basics
  import opened CStrings

  const HALF_WIDE: int := 0x8000_0000_0000_0000

  const ZERO: Char16 := 0x30
  const COMMA: Char16 := 0x2C
  const MINUS: Char16 := 0x2D
  const BLANK: Char16 := 0x20

  type Int64 = x: int | -HALF_WIDE <= x < HALF_WIDE

  // ------------------------------------------------------------------------- positional digits

  /** The digits of a number, highest first; none for zero. */
  function Digits(v: nat, base: nat): (ds: seq<nat>)
    requires base >= 2
    ensures forall i :: 0 <= i < |ds| ==> ds[i] < base
    ensures ds != [] ==> ds[0] != 0
    ensures ds == [] <==> v == 0
    decreases v
  {
    if v == 0 then [] else Digits(v / base, base) + [v % base]
  }

  /** Positional reading. */
  function Value(ds: seq<nat>, base: nat): nat {
    if ds == [] then 0 else Value(ds[..|ds| - 1], base) * base + ds[|ds| - 1]
  }

  lemma {:induction false} ValueOfDigits(v: nat, base: nat)
    requires base >= 2
    ensures Value(Digits(v, base), base) == v
    decreases v
  {
    hide Value, Digits;
    DigitsSplit(v, base);
    QuotientRemainder(v, base);
    if v > 0 {
      var q, r := v / base, v % base;
      ValueOfDigits(q, base);
      ValueSnoc(Digits(q, base), r, base);
    } else {
      ValueOfNothing(base);
    }
  }

  lemma DigitsSplit(v: nat, base: nat)
    requires base >= 2
    ensures Digits(v, base) == if v == 0 then [] else Digits(v / base, base) + [v % base]
  {
  }

  lemma ValueOfNothing(base: nat)
    ensures Value([], base) == 0
  {
  }

  lemma ValueSnoc(ds: seq<nat>, d: nat, base: nat)
    ensures Value(ds + [d], base) == Value(ds, base) * base + d
  {
    assert (ds + [d])[..|ds|] == ds;
  }

  lemma QuotientRemainder(v: nat, base: nat)
    requires base > 0
    ensures v / base * base + v % base == v && (base >= 2 && v > 0 ==> v / base < v)
  {
  }

  function Power(base: nat, n: nat): nat {
    if n == 0 then 1 else base * Power(base, n - 1)
  }

  lemma {:induction false} DigitCount(v: nat, base: nat, n: nat)
    requires base >= 2 && v < Power(base, n)
    ensures |Digits(v, base)| <= n
    decreases n
  {
    if v > 0 {
      QuotientBelow(v, base, Power(base, n - 1));
      DigitCount(v / base, base, n - 1);
    }
  }

  lemma QuotientBelow(v: nat, base: nat, p: nat)
    requires base >= 2 && v < base * p
    ensures v / base < p
  {
    var q := v / base;
    assert v == q * base + v % base;
    if q >= p {
      ProductAtLeast(base, q, p);
    }
  }

  lemma ProductAtLeast(base: nat, q: nat, p: nat)
    requires q >= p
    ensures q * base >= base * p
  {
  }

  lemma SixteenHexDigits(v: UInt64)
    ensures |Digits(v, 16)| <= 16
  {
    assert Power(16, 4) == 0x1_0000;
    assert Power(16, 8) == 0x1_0000_0000;
    assert Power(16, 12) == 0x1_0000_0000_0000;
    assert Power(16, 16) == WIDE;
    DigitCount(v, 16, 16);
  }

  lemma NineteenDecimalDigits(v: nat)
    requires v <= HALF_WIDE
    ensures |Digits(v, 10)| <= 19
  {
    assert Power(10, 6) == 1_000_000;
    assert Power(10, 12) == 1_000_000_000_000;
    assert Power(10, 18) == 1_000_000_000_000_000_000;
    DigitCount(v, 10, 19);
  }

  // ------------------------------------------------------------------------------ number text

  /** The table `Hex`. */
  function HexDigit(d: nat): Char16
    requires d < 16
  {
    if d < 10 then (0x30 + d) as Char16 else (0x41 + d - 10) as Char16
  }

  function TextOf(ds: seq<nat>): (t: Text)
    requires forall i :: 0 <= i < |ds| ==> ds[i] < 16
    ensures |t| == |ds| && IsCString(t)
    ensures forall i :: 0 <= i < |ds| ==> t[i] == HexDigit(ds[i])
  {
    seq(|ds|, i requires 0 <= i < |ds| => HexDigit(ds[i]))
  }

  function HexText(v: UInt64): (t: Text)
    ensures t != [] && IsCString(t)
  {
    if v == 0 then [ZERO] else TextOf(Digits(v, 16))
  }

  lemma HexFits(v: UInt64)
    ensures 1 <= |HexText(v)| <= 16
  {
    SixteenHexDigits(v);
  }

  /** Digits in groups of three, counted from the right. */
  function Grouped(ds: Text): Text {
    if |ds| <= 3 then ds else Grouped(ds[..|ds| - 3]) + [COMMA] + ds[|ds| - 3..]
  }

  lemma {:induction false} GroupedIsCString(ds: Text)
    requires IsCString(ds)
    ensures IsCString(Grouped(ds))
    decreases |ds|
  {
    if |ds| > 3 {
      GroupedIsCString(ds[..|ds| - 3]);
    }
  }

  function DecimalText(comma: bool, v: Int64): (t: Text)
    ensures IsCString(t)
  {
    if v == 0 then [ZERO]
    else
      var ds := TextOf(Digits(Magnitude(v), 10));
      GroupedIsCString(ds);
      (if v < 0 then [MINUS] else []) + (if comma then Grouped(ds) else ds)
  }

  function WithoutCommas(t: Text): Text {
    if t == [] then []
    else if t[|t| - 1] == COMMA then WithoutCommas(t[..|t| - 1])
    else WithoutCommas(t[..|t| - 1]) + [t[|t| - 1]]
  }

  predicate NoComma(t: Text) {
    forall i :: 0 <= i < |t| ==> t[i] != COMMA
  }

  lemma {:induction false} WithoutCommasAppends(a: Text, b: Text)
    requires NoComma(b)
    ensures WithoutCommas(a + b) == WithoutCommas(a) + b
    decreases |b|
  {
    if b == [] {
      assert a + b == a;
    } else {
      var k := |b| - 1;
      assert (a + b)[..|a + b| - 1] == a + b[..k] && (a + b)[|a + b| - 1] == b[k];
      WithoutCommasAppends(a, b[..k]);
      assert b == b[..k] + [b[k]];
    }
  }

  /** Deleting the commas gives the plain digits back. */
  lemma {:induction false} GroupedPlain(ds: Text)
    requires NoComma(ds)
    ensures WithoutCommas(Grouped(ds)) == ds
    decreases |ds|
  {
    if |ds| <= 3 {
      assert [] + ds == ds;
      WithoutCommasAppends([], ds);
    } else {
      var k := |ds| - 3;
      GroupedPlain(ds[..k]);
      var head := Grouped(ds[..k]);
      WithoutCommasAppends(head + [COMMA], ds[k..]);
      assert (head + [COMMA])[..|head|] == head;
    }
  }

  /** Every comma has a multiple of three digits behind it, and the first character is none. */
  lemma {:induction false} GroupedCommas(ds: Text, i: nat)
    requires NoComma(ds) && i < |Grouped(ds)| && Grouped(ds)[i] == COMMA
    ensures i > 0 && |WithoutCommas(Grouped(ds)[i..])| % 3 == 0
    decreases |ds|
  {
    hide Grouped, WithoutCommas;
    GroupedStep(ds);
    if |ds| > 3 {
      var k := |ds| - 3;
      var head, last := Grouped(ds[..k]), ds[k..];
      if i < |head| {
        GroupedCommas(ds[..k], i);
        assert Grouped(ds)[i..] == head[i..] + [COMMA] + last;
        CommaDeleted(head[i..], last);
        ThreeMore(|WithoutCommas(head[i..])|);
      } else {
        assert i == |head|;
        assert Grouped(ds)[i..] == [] + [COMMA] + last;
        CommaDeleted([], last);
        ThreeMore(0);
        GroupedNonEmpty(ds[..k]);
      }
    }
  }

  lemma ThreeMore(n: nat)
    ensures (n + 3) % 3 == n % 3 && 0 % 3 == 0
  {
  }

  lemma GroupedStep(ds: Text)
    ensures |ds| <= 3 ==> Grouped(ds) == ds
    ensures |ds| > 3 ==> Grouped(ds) == Grouped(ds[..|ds| - 3]) + [COMMA] + ds[|ds| - 3..]
  {
  }

  lemma CommaDeleted(t: Text, last: Text)
    requires NoComma(last)
    ensures |WithoutCommas(t + [COMMA] + last)| == |WithoutCommas(t)| + |last| && WithoutCommas([]) == []
  {
    WithoutCommasAppends(t + [COMMA], last);
    assert (t + [COMMA])[..|t|] == t;
  }

  lemma GroupedNonEmpty(ds: Text)
    ensures Grouped(ds) == [] <==> ds == []
  {
  }

  lemma {:induction false} GroupedLength(ds: Text)
    ensures |ds| > 0 ==> |Grouped(ds)| == |ds| + (|ds| - 1) / 3
    decreases |ds|
  {
    if |ds| > 3 {
      GroupedLength(ds[..|ds| - 3]);
    }
  }

  /** Any number, with its sign, its commas and the terminator, fits 28 cells. */
  lemma DecimalFits(comma: bool, v: Int64)
    ensures |DecimalText(comma, v)| + 1 <= 28
  {
    if v != 0 {
      NineteenDecimalDigits(Magnitude(v));
      GroupedLength(TextOf(Digits(Magnitude(v), 10)));
    }
  }

  // --------------------------------------------------------------------------- reading numbers

  function SkipBlanks(t: Text): Text {
    if t != [] && t[0] == BLANK then SkipBlanks(t[1..]) else t
  }

  /** The value of a digit character in the given base, letters in either case; 16 when it is none. */
  function DigitOf(c: Char16, base: nat): (d: nat)
    requires base == 10 || base == 16
    ensures d <= 16
  {
    if 0x30 <= c <= 0x39 then c as int - 0x30
    else if base == 16 && 0x41 <= c <= 0x46 then c as int - 0x37
    else if base == 16 && 0x61 <= c <= 0x66 then c as int - 0x57
    else 16
  }

  /** The longest run of digits at the front. */
  function DigitPrefix(t: Text, base: nat): (ds: seq<nat>)
    requires base == 10 || base == 16
    ensures |ds| <= |t|
  {
    if t == [] || DigitOf(t[0], base) == 16 then [] else [DigitOf(t[0], base)] + DigitPrefix(t[1..], base)
  }

  lemma {:induction false} DigitPrefixExtends(t: Text, base: nat, k: nat)
    requires base == 10 || base == 16
    requires k <= |t| && forall i :: 0 <= i < k ==> DigitOf(t[i], base) != 16
    ensures |DigitPrefix(t, base)| >= k
    ensures forall i :: 0 <= i < k ==> DigitPrefix(t, base)[i] == DigitOf(t[i], base)
    ensures k == |t| || DigitOf(t[k], base) == 16 ==> |DigitPrefix(t, base)| == k
    decreases k
  {
    if k > 0 {
      DigitPrefixExtends(t[1..], base, k - 1);
    }
  }

  /** One digit more, in arithmetic modulo 2^64. */
  lemma WrapDigit(x: nat, base: nat, d: nat)
    requires base == 10 || base == 16
    requires d <= 16
    ensures (x % WIDE * base + d) % WIDE == (x * base + d) % WIDE
  {
    var q := x / WIDE;
    assert x * base + d == (x % WIDE * base + d) + q * base * WIDE;
    WholeTurns(x % WIDE * base + d, q * base);
  }

  lemma WholeTurns(a: nat, k: nat)
    ensures (a + k * WIDE) % WIDE == a % WIDE
    decreases k
  {
    if k > 0 {
      WholeTurns(a, k - 1);
    }
  }

  lemma ReadDigit(t: Text, base: nat, k: nat)
    requires base == 10 || base == 16
    requires k < |t| && forall i :: 0 <= i <= k ==> DigitOf(t[i], base) != 16
    ensures var ds := DigitPrefix(t, base);
      && |ds| >= k + 1
      && Value(ds[..k + 1], base) % WIDE == (Value(ds[..k], base) % WIDE * base + DigitOf(t[k], base)) % WIDE
  {
    var ds := DigitPrefix(t, base);
    DigitPrefixExtends(t, base, k + 1);
    assert ds[..k + 1][..k] == ds[..k];
    WrapDigit(Value(ds[..k], base), base, DigitOf(t[k], base));
  }

  method SkipLeading(str: Text) returns (p: nat)
    requires IsCString(str)
    ensures p <= |str| && str[p..] == SkipBlanks(str)
  {
    p := 0;
    while At(str, p) != 0 && At(str, p) == BLANK
      invariant p <= |str| && SkipBlanks(str[p..]) == SkipBlanks(str)
      decreases |str| - p
    {
      assert str[p..][1..] == str[p + 1..];
      p := p + 1;
    }
  }

  /** Hexadecimal text read modulo 2^64. */
  method Xtoi(str: Text) returns (u: UInt64)
    requires IsCString(str)
    ensures u == Value(DigitPrefix(SkipBlanks(str), 16), 16) % WIDE
  {
    hide Value, DigitPrefix;
    var p := SkipLeading(str);
    ghost var t, k := str[p..], 0;
    assert DigitPrefix(t, 16)[..0] == [] == DigitPrefix(t, 10)[..0];
    ValueOfNothing(16);
    ValueOfNothing(10);
    u := 0;
    var c := At(str, p);
    p := p + 1;
    while c != 0
      invariant p == |str| - |t| + k + 1 && k <= |t|
      invariant c == if k < |t| then t[k] else 0
      invariant forall i :: 0 <= i < k ==> DigitOf(t[i], 16) != 16
      invariant |DigitPrefix(t, 16)| >= k && u == Value(DigitPrefix(t, 16)[..k], 16) % WIDE
      decreases |t| - k
    {
      var upper := if 0x61 <= c <= 0x66 then c - 0x20 else c;
      if !(0x30 <= upper <= 0x39 || 0x41 <= upper <= 0x46) {
        break;
      }
      ReadDigit(t, 16, k);
      // u << 4 leaves room for the digit that is or-ed in
      u := (u * 16 + (upper as int - if upper >= 0x41 then 0x37 else 0x30)) % WIDE;
      c := At(str, p);
      p := p + 1;
      k := k + 1;
    }
    DigitPrefixExtends(t, 16, k);
    assert DigitPrefix(t, 16)[..k] == DigitPrefix(t, 16);
  }

  /** Decimal text read modulo 2^64. */
  method Atoi(str: Text) returns (u: UInt64)
    requires IsCString(str)
    ensures u == Value(DigitPrefix(SkipBlanks(str), 10), 10) % WIDE
  {
    hide Value, DigitPrefix;
    var p := SkipLeading(str);
    ghost var t, k := str[p..], 0;
    assert DigitPrefix(t, 16)[..0] == [] == DigitPrefix(t, 10)[..0];
    ValueOfNothing(16);
    ValueOfNothing(10);
    u := 0;
    var c := At(str, p);
    p := p + 1;
    while c != 0
      invariant p == |str| - |t| + k + 1 && k <= |t|
      invariant c == if k < |t| then t[k] else 0
      invariant forall i :: 0 <= i < k ==> DigitOf(t[i], 10) != 16
      invariant |DigitPrefix(t, 10)| >= k && u == Value(DigitPrefix(t, 10)[..k], 10) % WIDE
      decreases |t| - k
    {
      if !(0x30 <= c <= 0x39) {
        break;
      }
      ReadDigit(t, 10, k);
      u := (u * 10 + c as int - 0x30) % WIDE;
      c := At(str, p);
      p := p + 1;
      k := k + 1;
    }
    DigitPrefixExtends(t, 10, k);
    assert DigitPrefix(t, 10)[..k] == DigitPrefix(t, 10);
  }

  lemma DigitsReadBack(ds: seq<nat>, base: nat)
    requires base == 10 || base == 16
    requires forall i :: 0 <= i < |ds| ==> ds[i] < base
    ensures DigitPrefix(SkipBlanks(TextOf(ds)), base) == ds
  {
    var t := TextOf(ds);
    assert t != [] ==> t[0] == HexDigit(ds[0]);
    DigitPrefixExtends(t, base, |t|);
  }

  lemma ZeroReadsBack(base: nat)
    requires base == 10 || base == 16
    ensures Value(DigitPrefix(SkipBlanks([ZERO]), base), base) == 0
  {
    assert [ZERO] == TextOf([0]);
    DigitsReadBack([0], base);
    assert Value([0], base) == 0;
  }

  lemma NumberReadsBack(v: nat, base: nat)
    requires base == 10 || base == 16
    ensures Value(DigitPrefix(SkipBlanks(TextOf(Digits(v, base))), base), base) == v
  {
    hide Digits, Value, TextOf, DigitPrefix, SkipBlanks;
    DigitsReadBack(Digits(v, base), base);
    ValueOfDigits(v, base);
  }

  /** What ValueToHex writes, xtoi reads back: every 64-bit value. */
  lemma HexRoundTrip(v: UInt64)
    ensures Value(DigitPrefix(SkipBlanks(HexText(v)), 16), 16) % WIDE == v
  {
    hide Digits, Value, TextOf, DigitPrefix, SkipBlanks;
    ZeroReadsBack(16);
    NumberReadsBack(v, 16);
  }

  lemma PlainText(v: Int64)
    requires v > 0
    ensures DecimalText(false, v) == TextOf(Digits(v, 10))
  {
    hide Digits, TextOf;
  }

  /** What ValueToString writes without commas, Atoi reads back: every nonnegative value. */
  lemma DecimalRoundTrip(v: Int64)
    requires v >= 0
    ensures Value(DigitPrefix(SkipBlanks(DecimalText(false, v)), 10), 10) % WIDE == v
  {
    hide Digits, Value, TextOf, DigitPrefix, SkipBlanks;
    ZeroReadsBack(10);
    if v > 0 {
      PlainText(v);
      NumberReadsBack(v, 10);
    }
  }

  /** A text and its terminator at the start of a buffer. */
  predicate Holds(buffer: seq<Char16>, t: Text) {
    |t| < |buffer| && buffer[..|t|] == t && buffer[|t|] == 0
  }

  /** The lowest digit, and what is left when it is taken away. */
  lemma LowestDigit(v: nat, base: nat)
    requires base >= 2 && v > 0
    ensures Digits(v, base) == Digits(Shifted(v, base), base) + [LowDigit(v, base)]
  {
  }

  /** The first `k` cells hold the `k` lowest digits of a number, lowest first; `v` is what is left. */
  predicate Collected(str: seq<Char16>, k: nat, v: nat, ds: seq<nat>, base: nat)
    requires base >= 2 && (forall i :: 0 <= i < |ds| ==> ds[i] < 16)
  {
    && k <= |ds| && k <= |str|
    && Digits(v, base) == ds[..|ds| - k]
    && forall i :: 0 <= i < k ==> str[i] == HexDigit(ds[|ds| - 1 - i])
  }

  function LowDigit(v: nat, base: nat): (d: nat)
    requires base >= 2
    ensures d < base
  {
    v % base
  }

  function Shifted(v: nat, base: nat): nat
    requires base >= 2
  {
    v / base
  }

  lemma CollectOne(str: seq<Char16>, k: nat, v: nat, ds: seq<nat>, base: nat)
    requires 2 <= base <= 16 && (forall i :: 0 <= i < |ds| ==> ds[i] < 16)
    requires Collected(str, k, v, ds, base) && v > 0 && k < |str|
    ensures Collected(str[k := HexDigit(LowDigit(v, base))], k + 1, Shifted(v, base), ds, base)
  {
    hide Digits, LowDigit, Shifted;
    LowestDigit(v, base);
    var rest := Digits(Shifted(v, base), base);
    assert ds[..|ds| - k] == rest + [LowDigit(v, base)];
    assert ds[|ds| - k - 1] == ds[..|ds| - k][|ds| - k - 1];
    assert ds[..|ds| - k - 1] == ds[..|ds| - k][..|ds| - k - 1] == rest;
  }

  /** Collects digits lowest first, then copies them out in reverse. */
  method ValueToHex(Buffer: array<Char16>, value: UInt64)
    requires Buffer.Length > |HexText(value)|
    modifies Buffer
    ensures Holds(Buffer[..], HexText(value))
  {
    if value == 0 {
      Buffer[0] := ZERO;
      Buffer[1] := 0;
      return;
    }
    hide Digits, TextOf;
    var str := new Char16[30];
    var p1 := CollectHexDigits(str, value);
    CopyReversed(Buffer, str, p1, TextOf(Digits(value, 16)));
  }

  method CollectHexDigits(str: array<Char16>, value: UInt64) returns (p1: nat)
    requires str.Length == 30
    modifies str
    ensures p1 == |Digits(value, 16)| <= 16
    ensures forall i :: 0 <= i < p1 ==> str[i] == TextOf(Digits(value, 16))[p1 - 1 - i]
  {
    hide Digits, Collected;
    ghost var ds := Digits(value, 16);
    SixteenHexDigits(value);
    CollectNothing(str[..], value, ds, 16);
    var v: nat := value;
    p1 := 0;
    while v != 0
      invariant Collected(str[..], p1, v, ds, 16)
      decreases v
    {
      CollectMore(str[..], p1, v, ds, 16);
      CollectOne(str[..], p1, v, ds, 16);
      str[p1] := HexDigit(v % 16);
      v := v / 16;
      p1 := p1 + 1;
    }
    CollectedAll(str[..], p1, ds, 16);
  }

  /** Copies the collected characters out from the last to the first, and terminates them. */
  method CopyReversed(Buffer: array<Char16>, str: array<Char16>, count: nat, ghost t: Text)
    requires Buffer != str && count == |t| <= str.Length && count < Buffer.Length
    requires forall i :: 0 <= i < count ==> str[i] == t[count - 1 - i]
    modifies Buffer
    ensures Holds(Buffer[..], t)
  {
    var p1, p2 := count, 0;
    while p1 != 0
      invariant 0 <= p1 && p1 + p2 == count
      invariant forall i :: 0 <= i < count ==> str[i] == t[count - 1 - i]
      invariant forall i :: 0 <= i < p2 ==> Buffer[i] == t[i]
    {
      p1 := p1 - 1;
      Buffer[p2] := str[p1];
      p2 := p2 + 1;
    }
    Buffer[p2] := 0;
    assert Buffer[..p2] == t;
  }

  lemma CollectNothing(str: seq<Char16>, v: nat, ds: seq<nat>, base: nat)
    requires 2 <= base <= 16 && ds == Digits(v, base)
    ensures Collected(str, 0, v, ds, base)
  {
    assert ds[..|ds|] == ds;
  }

  lemma CollectMore(str: seq<Char16>, k: nat, v: nat, ds: seq<nat>, base: nat)
    requires 2 <= base <= 16 && (forall i :: 0 <= i < |ds| ==> ds[i] < 16)
    requires Collected(str, k, v, ds, base) && v > 0
    ensures k < |ds|
  {
  }

  lemma CollectedAll(str: seq<Char16>, k: nat, ds: seq<nat>, base: nat)
    requires 2 <= base <= 16 && (forall i :: 0 <= i < |ds| ==> ds[i] < 16)
    requires Collected(str, k, 0, ds, base)
    ensures k == |ds| <= |str| && forall i :: 0 <= i < k ==> str[i] == HexDigit(ds[|ds| - 1 - i])
  {
  }

  // ------------------------------------------------------------------------- ValueToString

  /** Conversion to INT64 and to UINT64. */
  function ToInt64(x: int): Int64 {
    (x + HALF_WIDE) % WIDE - HALF_WIDE
  }

  function ToUInt64(x: int): UInt64 {
    x % WIDE
  }

  /** The first `i` digits written from the left, a comma before each that has a multiple of three
      digits still to come. */
  function Emitted(ds: Text, n: nat, i: nat): Text
    requires i <= |ds| && |ds| <= n
  {
    if i == 0 then []
    else
      Emitted(ds, n, i - 1) + (if i > 1 && (n - i + 1) % 3 == 0 then [COMMA] else []) + [ds[i - 1]]
  }

  lemma EmittedStep(ds: Text, n: nat, i: nat)
    requires i < |ds| <= n
    ensures Emitted(ds, n, 0) == []
    ensures Emitted(ds, n, i + 1) ==
      Emitted(ds, n, i) + (if i > 0 && (n - i) % 3 == 0 then [COMMA] else []) + [ds[i]]
  {
  }

  lemma {:induction false} EmittedOfPrefix(ds: Text, n: nat, k: nat, i: nat)
    requires i <= k <= |ds| && n == |ds| && (n - k) % 3 == 0
    ensures Emitted(ds[..k], k, i) == Emitted(ds, n, i)
    decreases i
  {
    if i > 0 {
      hide Emitted;
      EmittedOfPrefix(ds, n, k, i - 1);
      EmittedStep(ds, n, i - 1);
      EmittedStep(ds[..k], k, i - 1);
      SameGroups(n, k, i - 1);
    } else {
      NothingEmitted(ds, n);
      NothingEmitted(ds[..k], k);
    }
  }

  lemma NothingEmitted(ds: Text, n: nat)
    requires |ds| <= n
    ensures Emitted(ds, n, 0) == []
  {
  }

  lemma SameGroups(n: nat, k: nat, i: nat)
    requires i <= k <= n && (n - k) % 3 == 0
    ensures (n - i) % 3 == 0 <==> (k - i) % 3 == 0
  {
  }

  /** Counting down to commas from the left comes to the same as grouping from the right. */
  lemma {:induction false} EmittedIsGrouped(ds: Text)
    ensures Emitted(ds, |ds|, |ds|) == Grouped(ds)
    decreases |ds|
  {
    hide Emitted, Grouped;
    var n := |ds|;
    GroupedStep(ds);
    NothingEmitted(ds, n);
    if n == 0 {
    } else if n <= 3 {
      LastGroup(ds, 0, []);
    } else {
      var k := n - 3;
      EmittedIsGrouped(ds[..k]);
      EmittedOfPrefix(ds, n, k, k);
      LastGroup(ds, k, Emitted(ds, n, k));
    }
  }

  /** The last one to three digits are written with no comma among them. */
  lemma LastGroup(ds: Text, k: nat, head: Text)
    requires k < |ds| <= k + 3 && head == Emitted(ds, |ds|, k) && (k > 0 ==> |ds| == k + 3)
    ensures Emitted(ds, |ds|, |ds|) == if k == 0 then head + ds else head + [COMMA] + ds[k..]
  {
    hide Emitted;
    var n := |ds|;
    EmittedStep(ds, n, k);
    if n >= k + 2 {
      EmittedStep(ds, n, k + 1);
    }
    if n == k + 3 {
      EmittedStep(ds, n, k + 2);
    }
    assert ds[k..] == if n == k + 1 then [ds[k]] else if n == k + 2 then [ds[k], ds[k + 1]]
                      else [ds[k], ds[k + 1], ds[k + 2]];
    assert k == 0 ==> ds[k..] == ds;
  }

  lemma {:induction false} EmittedGrows(ds: Text, n: nat, i: nat, j: nat)
    requires i <= j <= |ds| && |ds| <= n
    ensures |Emitted(ds, n, i)| <= |Emitted(ds, n, j)|
    decreases j
  {
    if i < j {
      EmittedGrows(ds, n, i, j - 1);
    }
  }

  /** What stands in the buffer once `i` of the digits are written. */
  function WrittenDigits(comma: bool, ds: Text, i: nat): Text
    requires i <= |ds|
  {
    if comma then Emitted(ds, |ds|, i) else ds[..i]
  }

  /** The countdown when `k` of `n` digits are still to be written. */
  function Countdown(comma: bool, n: nat, k: nat): int
    requires 0 < k <= n
  {
    if !comma then 1000 - (n - k)
    else if k == n then (k - 1) % 3 + 2
    else if k % 3 == 0 then 1 else k % 3 + 1
  }

  lemma WrittenAll(comma: bool, v: Int64)
    requires v != 0
    ensures var ds := TextOf(Digits(Magnitude(v), 10));
      DecimalText(comma, v) == (if v < 0 then [MINUS] else []) + WrittenDigits(comma, ds, |ds|)
  {
    hide Digits, Grouped, Emitted, TextOf;
    var ds := TextOf(Digits(Magnitude(v), 10));
    EmittedIsGrouped(ds);
    assert ds[..|ds|] == ds;
  }

  lemma WrittenGrows(comma: bool, ds: Text, i: nat)
    requires i < |ds|
    ensures |WrittenDigits(comma, ds, i + 1)| <= |WrittenDigits(comma, ds, |ds|)|
  {
    EmittedGrows(ds, |ds|, i + 1, |ds|);
  }

  /** The sign, then the digits lowest first into `str`, then out in reverse with a comma whenever the
      countdown runs out.  The most negative value negates to itself and still prints right. */
  method ValueToString(Buffer: array<Char16>, Comma: bool, value: Int64)
    requires Buffer.Length > |DecimalText(Comma, value)|
    modifies Buffer
    ensures Holds(Buffer[..], DecimalText(Comma, value))
  {
    if value == 0 {
      Buffer[0] := ZERO;
      Buffer[1] := 0;
      assert Buffer[..1] == [ZERO];
      return;
    }
    WriteSigned(Buffer, Comma, value);
  }

  lemma MagnitudeOf(v: int)
    requires -HALF_WIDE <= v < HALF_WIDE
    ensures Magnitude(v) <= HALF_WIDE && ToUInt64(if v < 0 then ToInt64(-v) else v) == Magnitude(v)
  {
  }

  method WriteSigned(Buffer: array<Char16>, Comma: bool, value: int)
    requires -HALF_WIDE <= value < HALF_WIDE && value != 0
    requires Buffer.Length > |DecimalText(Comma, value)|
    modifies Buffer
    ensures Holds(Buffer[..], DecimalText(Comma, value))
  {
    hide Digits, DecimalText, WrittenDigits, TextOf, ToInt64, ToUInt64, Magnitude;
    ghost var t := TextOf(Digits(Magnitude(value), 10));
    WrittenAll(Comma, value);
    MagnitudeOf(value);
    var str := new Char16[40];
    var v := if value < 0 then ToInt64(-value) else value;
    var p1 := CollectDigits(str, v, Magnitude(value));
    var p2 := 0;
    if value < 0 {
      Buffer[0] := MINUS;
      p2 := 1;
    }
    ghost var sign := Buffer[..p2];
    assert sign == if value < 0 then [MINUS] else [];
    p2 := WriteDigits(Buffer, p2, str, p1, Comma, t);
    Buffer[p2] := 0;
    assert Buffer[..p2] == sign + WrittenDigits(Comma, t, |t|);
  }

  method WriteDigits(Buffer: array<Char16>, at: nat, str: array<Char16>, count: nat, Comma: bool, ghost t: Text)
    returns (p2: nat)
    requires Buffer != str && count == |t| <= 19 && count <= str.Length
    requires forall i :: 0 <= i < count ==> str[i] == t[count - 1 - i]
    requires at + |WrittenDigits(Comma, t, count)| < Buffer.Length
    modifies Buffer
    ensures p2 == at + |WrittenDigits(Comma, t, count)|
    ensures Buffer[..p2] == old(Buffer[..at]) + WrittenDigits(Comma, t, count)
  {
    hide WrittenDigits, Countdown;
    ghost var head := Buffer[..at];
    p2 := at;
    var p1 := count;
    var c := (if Comma then [3, 1, 2][p1 % 3] else 999) + 1;
    CountdownStarts(Comma, p1);
    WrittenNothing(Comma, t);
    while p1 != 0
      invariant 0 <= p1 <= count
      invariant forall i :: 0 <= i < count ==> str[i] == t[count - 1 - i]
      invariant p1 > 0 ==> c == Countdown(Comma, count, p1)
      invariant p2 == at + |WrittenDigits(Comma, t, count - p1)| < Buffer.Length
      invariant Buffer[..p2] == head + WrittenDigits(Comma, t, count - p1)
    {
      WriteStep(Comma, t, count - p1, head);
      WrittenGrows(Comma, t, count - p1);
      c := c - 1;
      p1 := p1 - 1;
      p2 := WriteDigit(Buffer, p2, c == 0, str[p1]);
      if c == 0 {
        c := 3;
      }
    }
  }

  /** A digit, behind a comma when the countdown has run out. */
  method WriteDigit(Buffer: array<Char16>, at: nat, comma: bool, digit: Char16) returns (p2: nat)
    requires at + (if comma then 2 else 1) <= Buffer.Length
    modifies Buffer
    ensures p2 == at + if comma then 2 else 1
    ensures Buffer[..p2] == old(Buffer[..at]) + (if comma then [COMMA] else []) + [digit]
  {
    p2 := at;
    if comma {
      Buffer[p2] := COMMA;
      p2 := p2 + 1;
    }
    Buffer[p2] := digit;
    p2 := p2 + 1;
  }

  lemma WrittenNothing(comma: bool, ds: Text)
    ensures WrittenDigits(comma, ds, 0) == []
  {
  }

  lemma CountdownStarts(comma: bool, n: nat)
    ensures n > 0 ==> (if comma then [3, 1, 2][n % 3] else 999) + 1 == Countdown(comma, n, n)
  {
  }

  /** One more digit: the countdown runs out exactly where the grouping wants a comma. */
  lemma WriteStep(comma: bool, ds: Text, i: nat, head: Text)
    requires i < |ds| <= 19
    ensures var c := Countdown(comma, |ds|, |ds| - i) - 1;
      var more := (if c == 0 then [COMMA] else []) + [ds[i]];
      && |WrittenDigits(comma, ds, i + 1)| == |WrittenDigits(comma, ds, i)| + |more|
      && head + WrittenDigits(comma, ds, i + 1) ==
           head + WrittenDigits(comma, ds, i) + (if c == 0 then [COMMA] else []) + [ds[i]]
      && (i + 1 < |ds| ==> Countdown(comma, |ds|, |ds| - i - 1) == if c == 0 then 3 else c)
  {
    hide Emitted;
    EmittedStep(ds, |ds|, i);
  }

  /** Divides by ten until nothing is left; the dividend is taken as unsigned. */
  method CollectDigits(str: array<Char16>, value: Int64, ghost magnitude: nat) returns (p1: nat)
    requires str.Length == 40 && magnitude <= HALF_WIDE && ToUInt64(value) == magnitude
    modifies str
    ensures p1 == |Digits(magnitude, 10)| <= 19
    ensures forall i :: 0 <= i < p1 ==> str[i] == TextOf(Digits(magnitude, 10))[p1 - 1 - i]
  {
    hide Digits, Collected, ToUInt64, ToInt64, TextOf, LowDigit, Shifted;
    ghost var ds := Digits(magnitude, 10);
    NineteenDecimalDigits(magnitude);
    CollectNothing(str[..], magnitude, ds, 10);
    var v := value;
    p1 := 0;
    while v != 0
      invariant Collected(str[..], p1, ToUInt64(v), ds, 10)
      decreases ToUInt64(v)
    {
      Tenth(v);
      CollectMore(str[..], p1, ToUInt64(v), ds, 10);
      CollectOne(str[..], p1, ToUInt64(v), ds, 10);
      var r := ToUInt64(v) % 10;
      v := ToInt64(ToUInt64(v) / 10);
      str[p1] := HexDigit(r);
      p1 := p1 + 1;
    }
    ZeroUnsigned();
    CollectedAll(str[..], p1, ds, 10);
  }

  lemma Tenth(v: Int64)
    requires v != 0
    ensures var w := ToUInt64(v);
      && w > 0 && w % 10 == LowDigit(w, 10) && w / 10 == Shifted(w, 10) < w
      && -HALF_WIDE <= ToInt64(w / 10) < HALF_WIDE && ToUInt64(ToInt64(w / 10)) == w / 10
  {
  }

  lemma ZeroUnsigned()
    ensures ToUInt64(0) == 0
  {
  }
}
