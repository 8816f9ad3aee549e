/** src/arch/x86_64/vgatext.c: itoa, with C's truncating division and its table of both signs. */
module Itoa {
  import opened Basics
  import Numbers

  type Int32 = x: int | -0x8000_0000 <= x < 0x8000_0000

  const NEGATIVE_DIGITS := "zyxwvutsrqponmlkjihgfedcba987654321"
  const POSITIVE_DIGITS := "0123456789abcdefghijklmnopqrstuvwxyz"
  const DIGIT_TABLE := NEGATIVE_DIGITS + POSITIVE_DIGITS

  // ---------------------------------------------------------------------- reading a number back

  /** '0' to '9' and 'a' to 'z', or 36. */
  function DigitOf(c: char): (d: nat)
    ensures d <= 36
  {
    if '0' <= c <= '9' then c as int - '0' as int
    else if 'a' <= c <= 'z' then c as int - 'a' as int + 10
    else 36
  }

  /** Positional reading of digits only. */
  function Positional(t: string, base: nat): nat {
    if t == [] then 0 else Positional(t[..|t| - 1], base) * base + DigitOf(t[|t| - 1])
  }

  /** Positional reading with an optional sign. */
  function Reading(t: string, base: nat): int {
    if t != [] && t[0] == '-' then 0 - Positional(t[1..], base) else Positional(t, base)
  }

  /** Digits of the base, at least one, and the first is not zero unless it is the only one. */
  predicate WellWritten(t: string, base: nat) {
    && t != []
    && (forall i :: 0 <= i < |t| ==> DigitOf(t[i]) < base)
    && (t[0] == '0' ==> t == "0")
  }

  // ------------------------------------------------------------------------------ the text

  function DigitChar(d: nat): char
    requires d < 36
  {
    if d < 10 then '0' + d as char else 'a' + (d - 10) as char
  }

  function DigitsText(v: nat, base: nat): (t: string)
    requires 2 <= base <= 36
    ensures t != []
    decreases v
  {
    Quotient(v, base);
    (if v < base then [] else DigitsText(v / base, base)) + [DigitChar(v % base)]
  }

  predicate Supported(base: int) { 2 <= base <= 36 }

  function SignText(value: int, base: int): string {
    if value < 0 && base == 10 then "-" else ""
  }

  function ItoaText(value: Int32, base: int): string {
    if Supported(base) then SignText(value, base) + DigitsText(Magnitude(value), base) else ""
  }

  lemma DigitCharReads(d: nat)
    requires d < 36
    ensures DigitOf(DigitChar(d)) == d && DigitChar(d) != '-' && (DigitChar(d) == '0' <==> d == 0)
    ensures DigitChar(d) != '\0'
  {
  }

  lemma {:induction false} DigitsReadBack(v: nat, base: nat)
    requires 2 <= base <= 36
    ensures Positional(DigitsText(v, base), base) == v
    ensures forall i :: 0 <= i < |DigitsText(v, base)| ==> DigitOf(DigitsText(v, base)[i]) < base
    ensures DigitsText(v, base)[0] != '-'
    ensures DigitsText(v, base)[0] == '0' ==> v == 0
    decreases v
  {
    hide *;
    var front := if v < base then [] else DigitsText(v / base, base);
    DigitsTextEnds(v, base);
    Quotient(v, base);
    DigitCharReads(v % base);
    PositionalSnoc(front, DigitChar(v % base), base);
    if v >= base {
      DigitsReadBack(v / base, base);
    }
  }

  lemma DigitsTextEnds(v: nat, base: nat)
    requires 2 <= base <= 36
    ensures v % base < 36
    ensures DigitsText(v, base) == (if v < base then [] else DigitsText(v / base, base)) + [DigitChar(v % base)]
  {
  }

  lemma PositionalSnoc(t: string, c: char, base: nat)
    ensures Positional(t + [c], base) == Positional(t, base) * base + DigitOf(c)
    ensures Positional([], base) == 0
  {
    assert (t + [c])[..|t|] == t;
  }

  lemma Quotient(v: nat, base: nat)
    requires base >= 2
    ensures v == v / base * base + v % base && (v > 0 ==> v / base < v) && (v >= base <==> v / base > 0)
  {
  }

  /** The text reads back as the value in base 10, the most negative one included, and as its magnitude
      in every other base. */
  lemma ReadsBack(value: Int32, base: int)
    requires Supported(base)
    ensures Reading(ItoaText(value, base), base) == if base == 10 then value else Magnitude(value)
    ensures WellWritten(ItoaText(value, base)[|SignText(value, base)|..], base)
  {
    var digits := DigitsText(Magnitude(value), base);
    DigitsReadBack(Magnitude(value), base);
    assert ItoaText(value, base)[|SignText(value, base)|..] == digits;
    if digits[0] == '0' {
      assert DigitsText(0, base) == "0";
    }
  }

  predicate Among(t: string, chars: string) {
    forall i :: 0 <= i < |t| ==> t[i] in chars
  }

  /** The characters: digits and small letters by value, a sign only in base 10, and no text at all outside the
      bases 2 to 36. */
  lemma TextCharacters(value: Int32, base: int)
    ensures base < 2 || base > 36 ==> ItoaText(value, base) == ""
    ensures 2 <= base <= 36 ==>
      var t, sign := ItoaText(value, base), if value < 0 && base == 10 then "-" else "";
      && sign < t && (t[|sign|] == '0' ==> value == 0 && t == "0")
      && Among(t[|sign|..], "0123456789abcdefghijklmnopqrstuvwxyz"[..base])
  {
    if 2 <= base <= 36 {
      hide DigitsText, Among;
      var digits, sign := DigitsText(Magnitude(value), base), if value < 0 && base == 10 then "-" else "";
      DigitsReadBack(Magnitude(value), base);
      DigitsAmong(digits, base);
      TextSplit(value, base, digits, sign);
      OnlyZero(base);
    }
  }

  lemma TextSplit(value: Int32, base: int, digits: string, sign: string)
    requires 2 <= base <= 36 && digits == DigitsText(Magnitude(value), base)
    requires sign == if value < 0 && base == 10 then "-" else ""
    ensures ItoaText(value, base) == sign + digits && (sign + digits)[|sign|..] == digits && digits != []
  {
    hide DigitsText;
  }

  lemma OnlyZero(base: nat)
    requires 2 <= base <= 36
    ensures DigitsText(0, base) == "0"
  {
  }

  lemma DigitsAmong(t: string, base: nat)
    requires base <= 36 && forall i :: 0 <= i < |t| ==> DigitOf(t[i]) < base
    ensures Among(t, "0123456789abcdefghijklmnopqrstuvwxyz"[..base])
  {
    hide DigitOf;
    forall i | 0 <= i < |t|
      ensures t[i] in "0123456789abcdefghijklmnopqrstuvwxyz"[..base]
    {
      DigitInTable(t[i], base);
    }
  }

  lemma DigitInTable(c: char, base: nat)
    requires DigitOf(c) < base <= 36
    ensures c in "0123456789abcdefghijklmnopqrstuvwxyz"[..base]
    ensures "0123456789abcdefghijklmnopqrstuvwxyz"[DigitOf(c)] == c
  {
    var all := "0123456789abcdefghijklmnopqrstuvwxyz";
    assert all[DigitOf(c)] == c;
    assert all[..base][DigitOf(c)] == c;
  }

  /** "ff" is 255 and -255 in base 16, "-255" the latter in base 10, "z" 35 in base 36 and "101" 5 in base 2. */
  lemma Samples()
    ensures ItoaText(255, 16) == ItoaText(-255, 16) == "ff" && ItoaText(-255, 10) == "-255"
    ensures ItoaText(35, 36) == "z" && ItoaText(5, 2) == "101" && ItoaText(0, 2) == "0"
  {
    hide DigitsText;
    SampleTexts();
    assert "" + "ff" == "ff" && "" + "z" == "z" && "" + "101" == "101" && "" + "0" == "0" && "-" + "255" == "-255";
  }

  lemma SampleTexts()
    ensures DigitsText(255, 16) == "ff" && DigitsText(255, 10) == "255"
    ensures DigitsText(35, 36) == "z" && DigitsText(5, 2) == "101" && DigitsText(0, 2) == "0"
  {
    hide DigitsText, DigitChar;
    DigitsTextEnds(15, 16);
    DigitsTextEnds(255, 16);
    DigitsTextEnds(2, 10);
    DigitsTextEnds(25, 10);
    DigitsTextEnds(255, 10);
    DigitsTextEnds(35, 36);
    DigitsTextEnds(1, 2);
    DigitsTextEnds(2, 2);
    DigitsTextEnds(5, 2);
    OnlyZero(2);
    SampleDigits();
  }

  lemma SampleDigits()
    ensures DigitChar(0) == '0' && DigitChar(1) == '1' && DigitChar(2) == '2' && DigitChar(5) == '5'
    ensures DigitChar(15) == 'f' && DigitChar(35) == 'z'
  {
  }

  /** In base 10 no two values have the same text; in the other bases exactly opposite ones share it. */
  lemma TextsDiffer(v: Int32, w: Int32, base: int)
    requires Supported(base)
    ensures ItoaText(v, base) == ItoaText(w, base) <==> v == w || (base != 10 && Magnitude(v) == Magnitude(w))
  {
    hide Reading, DigitsText;
    ReadsBack(v, base);
    ReadsBack(w, base);
  }

  lemma {:induction false} TextLength(v: nat, base: nat, n: nat)
    requires 2 <= base <= 36 && n > 0 && v < Numbers.Power(base, n)
    ensures |DigitsText(v, base)| <= n
    decreases n
  {
    if v >= base {
      Numbers.QuotientBelow(v, base, Numbers.Power(base, n - 1));
      Quotient(v, base);
      TextLength(v / base, base, n - 1);
    }
  }

  /** 33 cells are enough in every base, 12 in base 10. */
  lemma TextFits(value: Int32, base: int)
    requires Supported(base)
    ensures |ItoaText(value, base)| + 1 <= if base == 10 then 12 else 33
  {
    if base == 10 {
      assert Numbers.Power(10, 5) == 100_000;
      assert Numbers.Power(10, 10) == 10_000_000_000;
      TextLength(Magnitude(value), 10, 10);
    } else {
      assert Numbers.Power(2, 8) == 0x100;
      assert Numbers.Power(2, 16) == 0x1_0000;
      assert Numbers.Power(2, 24) == 0x100_0000;
      assert Numbers.Power(2, 32) == 0x1_0000_0000;
      PowerGrows(2, base, 32);
      TextLength(Magnitude(value), base, 32);
    }
  }

  lemma {:induction false} PowerGrows(a: nat, b: nat, n: nat)
    requires a <= b
    ensures Numbers.Power(a, n) <= Numbers.Power(b, n)
  {
    if n > 0 {
      PowerGrows(a, b, n - 1);
      ProductGrows(a, b, Numbers.Power(a, n - 1), Numbers.Power(b, n - 1));
    }
  }

  lemma ProductGrows(a: nat, b: nat, p: nat, q: nat)
    requires a <= b && p <= q
    ensures a * p <= b * q
  {
    assert a * p <= a * q <= b * q;
  }

  // ------------------------------------------------------------------------------ the routine

  /** C's `/` and `%` truncate toward zero. */
  function Quot(a: int, b: nat): int
    requires b > 0
  {
    if a < 0 then -((-a) / b) else a / b
  }

  function Rem(a: int, b: nat): int
    requires b > 0
  {
    if a < 0 then -((-a) % b) else a % b
  }

  lemma Truncates(a: int, b: nat)
    requires b >= 2
    ensures 0 - b < Rem(a, b) < b
    ensures Magnitude(Rem(a, b)) == Magnitude(a) % b && Magnitude(Quot(a, b)) == Magnitude(a) / b
    ensures Quot(a, b) == 0 <==> Magnitude(a) < b
    ensures a != 0 ==> Magnitude(Quot(a, b)) < Magnitude(a)
  {
    Quotient(Magnitude(a), b);
  }

  lemma TableEntry(r: int)
    requires -36 < r < 36
    ensures |DIGIT_TABLE| == 71 && DIGIT_TABLE[35 + r] == DigitChar(Magnitude(r))
  {
    if r < 0 {
      NegativeDigit(-r);
    } else {
      PositiveDigit(r);
    }
  }

  lemma PositiveDigit(d: nat)
    requires d < 36
    ensures |POSITIVE_DIGITS| == 36 && POSITIVE_DIGITS[d] == DigitChar(d)
  {
  }

  lemma NegativeDigit(d: nat)
    requires 0 < d < 36
    ensures |NEGATIVE_DIGITS| == 35 && NEGATIVE_DIGITS[35 - d] == DigitChar(d)
  {
  }

  method Itoa(value: Int32, str: array<char>, base: int)
    requires |ItoaText(value, base)| < str.Length
    modifies str
    ensures var t := ItoaText(value, base);
      && str[..|t|] == t && str[|t|] == '\0'
      && forall i :: |t| < i < str.Length ==> str[i] == old(str[i])
  {
    hide *;
    TextParts(value, base);
    if base < 2 || base > 36 {
      str[0] := '\0';
      return;
    }
    var ptr := 0;
    if value < 0 && base == 10 {
      str[ptr] := '-';
      ptr := ptr + 1;
    }
    var low := ptr;
    ptr := Convert(value, str, low, base);
    assert str[..ptr] == str[..low] + str[low..ptr];
  }

  lemma TextParts(value: Int32, base: int)
    ensures Supported(base) <==> 2 <= base <= 36
    ensures !Supported(base) ==> ItoaText(value, base) == []
    ensures Supported(base) ==>
      ItoaText(value, base) == (if value < 0 && base == 10 then ['-'] else []) + DigitsText(Magnitude(value), base)
  {
    hide DigitsText, Magnitude;
  }

  /** The digits of the magnitude from `low` on, and the terminator. */
  method Convert(value: Int32, str: array<char>, low: nat, base: nat) returns (ptr: nat)
    requires Supported(base) && low + |DigitsText(Magnitude(value), base)| < str.Length
    modifies str
    ensures ptr == low + |DigitsText(Magnitude(value), base)|
    ensures str[low..ptr] == DigitsText(Magnitude(value), base) && str[ptr] == '\0'
    ensures forall i :: 0 <= i < low || ptr < i < str.Length ==> str[i] == old(str[i])
  {
    hide DigitsText, Magnitude, Mirrored;
    ptr := WriteDigits(value, str, low, base);
    ghost var written := str[..];
    str[ptr] := '\0';
    MirroredStill(written, str[..], low, ptr, DigitsText(Magnitude(value), base));
    ghost var mirrored := str[..];
    Invert(str, low, ptr);
    TurnedAround(mirrored, str[..], low, ptr, DigitsText(Magnitude(value), base));
  }

  lemma MirroredStill(a: string, b: string, low: nat, ptr: nat, all: string)
    requires |a| == |b| && low <= ptr <= low + |all| && ptr <= |a| && Mirrored(a, low, ptr, all)
    requires forall i :: 0 <= i < ptr ==> a[i] == b[i]
    ensures Mirrored(b, low, ptr, all)
  {
  }

  /** The conversion, lowest digit first. */
  method WriteDigits(value: Int32, str: array<char>, low: nat, base: nat) returns (ptr: nat)
    requires Supported(base) && low + |DigitsText(Magnitude(value), base)| < str.Length
    modifies str
    ensures ptr == low + |DigitsText(Magnitude(value), base)|
    ensures Mirrored(str[..], low, ptr, DigitsText(Magnitude(value), base))
    ensures forall i :: 0 <= i < low || ptr <= i < str.Length ==> str[i] == old(str[i])
  {
    hide DigitsText, Quot, Rem, ToWrite, Mirrored, Magnitude, DIGIT_TABLE;
    ghost var all := DigitsText(Magnitude(value), base);
    var v := value as int;
    ptr := low;
    NothingWritten(str[..], low, Magnitude(value), base);
    while true
      invariant low <= ptr < low + |all| && low + |all| < str.Length && Supported(base)
      invariant ToWrite(str[..], low, ptr, Magnitude(v), all, base)
      invariant forall i :: 0 <= i < low || ptr <= i < str.Length ==> str[i] == old(str[i])
      decreases Magnitude(v)
    {
      WriteOne(str[..], low, ptr, v, all, base);
      ghost var was := str[..];
      str[ptr] := DIGIT_TABLE[35 + Rem(v, base)];
      assert str[..] == was[ptr := DIGIT_TABLE[35 + Rem(v, base)]];
      ptr := ptr + 1;
      v := Quot(v, base);
      if v == 0 {
        break;
      }
    }
  }

  predicate Mirrored(cells: string, low: nat, ptr: nat, all: string)
    requires low <= ptr <= low + |all| && ptr <= |cells|
  {
    forall i :: low <= i < ptr ==> cells[i] == all[|all| - 1 - (i - low)]
  }

  /** The lowest digits are written and those of `v` are still to come. */
  predicate ToWrite(cells: string, low: nat, ptr: nat, v: nat, all: string, base: nat)
    requires low <= ptr < low + |all| && low + |all| < |cells| && Supported(base)
  {
    && all[..|all| - (ptr - low)] == DigitsText(v, base)
    && Mirrored(cells, low, ptr, all)
  }

  lemma NothingWritten(cells: string, low: nat, v: nat, base: nat)
    requires Supported(base) && low + |DigitsText(v, base)| < |cells|
    ensures DigitsText(v, base) != [] && ToWrite(cells, low, low, v, DigitsText(v, base), base)
  {
    hide DigitsText;
    assert DigitsText(v, base)[..|DigitsText(v, base)| - (low - low)] == DigitsText(v, base);
  }

  lemma WriteOne(cells: string, low: nat, ptr: nat, v: int, all: string, base: nat)
    requires low <= ptr < low + |all| && low + |all| < |cells| && Supported(base)
    requires ToWrite(cells, low, ptr, Magnitude(v), all, base)
    ensures |DIGIT_TABLE| == 71 && -36 < Rem(v, base) < 36
    ensures Quot(v, base) != 0 ==> Magnitude(Quot(v, base)) < Magnitude(v)
    ensures var cells' := cells[ptr := DIGIT_TABLE[35 + Rem(v, base)]];
      if Quot(v, base) == 0 then
        ptr + 1 == low + |all| && Mirrored(cells', low, ptr + 1, all)
      else
        ptr + 1 < low + |all| && ToWrite(cells', low, ptr + 1, Magnitude(Quot(v, base)), all, base)
  {
    hide DigitsText, DigitChar, Quot, Rem, DIGIT_TABLE;
    Truncates(v, base);
    TableEntry(Rem(v, base));
    var left := |all| - (ptr - low);
    LowestDigit(all[..left], Magnitude(v), base);
    assert all[..left][..left - 1] == all[..left - 1];
  }

  lemma TurnedAround(mirrored: string, cells: string, low: nat, ptr: nat, all: string)
    requires |cells| == |mirrored| && ptr == low + |all| <= |cells| && Mirrored(mirrored, low, ptr, all)
    requires forall i :: low <= i < ptr ==> cells[i] == mirrored[low + ptr - 1 - i]
    ensures cells[low..ptr] == all
  {
  }

  lemma LowestDigit(t: string, v: nat, base: nat)
    requires Supported(base) && t == DigitsText(v, base)
    ensures v % base < 36 && t[|t| - 1] == DigitChar(v % base)
    ensures t[..|t| - 1] == if v < base then [] else DigitsText(v / base, base)
  {
    DigitsTextEnds(v, base);
  }

  /** Turns the cells from `low` up to `end` around. */
  method Invert(str: array<char>, low: nat, end: nat)
    requires low < end <= str.Length
    modifies str
    ensures forall i :: low <= i < end ==> str[i] == old(str[low + end - 1 - i])
    ensures forall i :: 0 <= i < low || end <= i < str.Length ==> str[i] == old(str[i])
  {
    var l, p := low, end - 1;
    while l < p
      invariant low <= l <= p + 1 && l + p == low + end - 1
      invariant forall i :: low <= i < l || p < i < end ==> str[i] == old(str[low + end - 1 - i])
      invariant forall i :: 0 <= i < low || l <= i <= p || end <= i < str.Length ==> str[i] == old(str[i])
    {
      str[l], str[p] := str[p], str[l];
      l, p := l + 1, p - 1;
    }
  }
}
