/** Numerals by their characters, `0` 0x30 to `9` 0x39, `A` 0x41 to `F` 0x46, `a` 0x61 to `f` 0x66: what the
    number texts of print.c look like, and what xtoi and Atoi make of any text. */
module Numerals {
  import opened Basics
  import opened CStrings
  import opened Numbers

  /** Digits only: in base 16 letters of either case. */
  predicate Numeric(t: Text, base: nat) {
    forall i :: 0 <= i < |t| ==>
      0x30 <= t[i] <= 0x39 || (base == 16 && (0x41 <= t[i] <= 0x46 || 0x61 <= t[i] <= 0x66))
  }

  /** What a text of digits says, read from the left. */
  function Reading(t: Text, base: nat): int {
    if t == [] then 0
    else
      var c := t[|t| - 1] as int;
      Reading(t[..|t| - 1], base) * base + (if c < 0x41 then c - 0x30 else if c < 0x61 then c - 0x37 else c - 0x57)
  }

  /** The numeral of `v`: digits, letters in upper case, no zero in front. */
  predicate Spells(t: Text, base: nat, v: int) {
    && t != [] && Numeric(t, base) && (forall i :: 0 <= i < |t| ==> t[i] < 0x61)
    && (t[0] == 0x30 ==> |t| == 1)
    && Reading(t, base) == v
  }

  /** The same with a `-` in front of a negative number. */
  predicate SpellsSigned(t: Text, v: int) {
    if v < 0 then t != [] && t[0] == 0x2D && Spells(t[1..], 10, -v) else Spells(t, 10, v)
  }

  lemma DigitRead(d: nat)
    requires d < 16
    ensures var c := HexDigit(d) as int;
      && (0x30 <= c <= 0x39 || (d >= 10 && 0x41 <= c <= 0x46)) && (c == 0x30 <==> d == 0)
      && (if c < 0x41 then c - 0x30 else c - 0x37) == d
  {
  }

  lemma {:induction false} TextRead(ds: seq<nat>, base: nat)
    requires (base == 10 || base == 16) && forall i :: 0 <= i < |ds| ==> ds[i] < base
    ensures Reading(TextOf(ds), base) == Value(ds, base)
    decreases |ds|
  {
    hide HexDigit;
    if ds != [] {
      var n := |ds| - 1;
      TextRead(ds[..n], base);
      assert TextOf(ds)[..n] == TextOf(ds[..n]);
      DigitRead(ds[n]);
    }
  }

  lemma TextNumeric(ds: seq<nat>, base: nat)
    requires (base == 10 || base == 16) && forall i :: 0 <= i < |ds| ==> ds[i] < base
    ensures Numeric(TextOf(ds), base)
    ensures forall i :: 0 <= i < |ds| ==> TextOf(ds)[i] < 0x61 && (TextOf(ds)[i] == 0x30 <==> ds[i] == 0)
  {
    hide HexDigit, TextOf;
    forall i | 0 <= i < |ds|
      ensures var c := TextOf(ds)[i];
        (0x30 <= c <= 0x39 || (base == 16 && 0x41 <= c <= 0x46)) && (c == 0x30 <==> ds[i] == 0)
    {
      DigitRead(ds[i]);
    }
  }

  lemma DigitsSpell(v: nat, base: nat)
    requires (base == 10 || base == 16) && v > 0
    ensures Spells(TextOf(Digits(v, base)), base, v)
  {
    hide Digits, Value, Numeric, Reading;
    TextRead(Digits(v, base), base);
    TextNumeric(Digits(v, base), base);
    ValueOfDigits(v, base);
  }

  lemma ZeroSpelled(base: nat)
    ensures Spells([0x30], base, 0)
  {
    assert [0x30][..0] == [] && Reading([], base) == 0;
  }

  /** ValueToHex writes the numeral of its number, letters in upper case. */
  lemma HexSpelled(v: UInt64)
    ensures Spells(HexText(v), 16, v)
  {
    hide Digits, Spells;
    ZeroSpelled(16);
    if v > 0 {
      DigitsSpell(v, 16);
    }
  }

  /** ValueToString without commas writes the numeral of its number, with its sign: every INT64. */
  lemma DecimalSpelled(v: Int64)
    ensures SpellsSigned(DecimalText(false, v), v)
  {
    hide Digits, Spells;
    ZeroSpelled(10);
    if v != 0 {
      DigitsSpell(Magnitude(v), 10);
      var ds := TextOf(Digits(Magnitude(v), 10));
      assert [] + ds == ds && ([0x2D] + ds)[1..] == ds;
      assert DecimalText(false, v) == (if v < 0 then [0x2D] else []) + ds;
    }
  }

  /** A number has one numeral. */
  lemma {:induction false} OneNumeral(t: Text, u: Text, base: nat, v: int)
    requires (base == 10 || base == 16) && Spells(t, base, v) && Spells(u, base, v)
    ensures t == u
    decreases |t| + |u|
  {
    hide Reading, Spells, Numeric;
    LastDigit(t, base, v);
    LastDigit(u, base, v);
    var m, n := |t| - 1, |u| - 1;
    if m > 0 {
      OneNumeral(t[..m], u[..n], base, v / base);
      assert t == t[..m] + [t[m]] && u == u[..n] + [u[n]];
    } else {
      assert t == [t[m]] && u == [u[n]];
    }
  }

  /** The last character says the remainder, and the others are the numeral of the quotient, if there is one. */
  lemma LastDigit(t: Text, base: nat, v: int)
    requires (base == 10 || base == 16) && Spells(t, base, v)
    ensures var n := |t| - 1; var c := t[n];
      && n >= 0 && v >= 0 && c as int == (if v % base < 10 then 0x30 + v % base else 0x37 + v % base)
      && (n == 0 <==> v < base) && (n > 0 ==> Spells(t[..n], base, v / base))
  {
    var n := |t| - 1;
    var front, c := t[..n], t[n] as int;
    var d := if c < 0x41 then c - 0x30 else c - 0x37;
    var q := Reading(front, base);
    assert 0 <= d < base && v == q * base + d;
    ReadingPositive(front, base);
    DivMod(v, base, q, d);
    if n > 0 {
      AtLeast(q, base);
    } else {
      assert front == [];
    }
  }

  lemma {:induction false} ReadingPositive(t: Text, base: nat)
    requires (base == 10 || base == 16) && Numeric(t, base)
    ensures Reading(t, base) >= 0 && (t != [] && t[0] != 0x30 ==> Reading(t, base) >= 1)
    decreases |t|
  {
    if t != [] {
      ReadingPositive(t[..|t| - 1], base);
    }
  }

  // -------------------------------------------------------------------------------------- commas

  /** Counted from the right every fourth character is a comma, and no other. */
  lemma {:induction false} EveryFourth(ds: Text, j: nat)
    requires 0x2C !in ds && j < |Grouped(ds)|
    ensures Grouped(ds)[|Grouped(ds)| - 1 - j] == 0x2C <==> j % 4 == 3
    decreases |ds|
  {
    hide Grouped;
    GroupedStep(ds);
    if |ds| > 3 {
      var head, last := Grouped(ds[..|ds| - 3]), ds[|ds| - 3..];
      var all := head + [0x2C] + last;
      if j >= 4 {
        EveryFourth(ds[..|ds| - 3], j - 4);
        assert all[|all| - 1 - j] == head[|head| - 1 - (j - 4)];
        assert j == (j - 4) + 4;
      } else if j < 3 {
        assert all[|all| - 1 - j] == last[2 - j];
      }
    }
  }

  /** Nothing but the digits and the commas. */
  predicate AreCommas(t: Text, plain: Text) {
    && WithoutCommas(t) == plain
    && forall j :: 0 <= j < |t| ==> (t[|t| - 1 - j] == 0x2C <==> j % 4 == 3)
  }

  /** With commas the digits are the same, and the commas stand before every third of them. */
  lemma CommasSpelled(v: Int64)
    ensures var sign := if v < 0 then [0x2D] else [];
      && sign <= DecimalText(true, v) && sign <= DecimalText(false, v)
      && AreCommas(DecimalText(true, v)[|sign|..], DecimalText(false, v)[|sign|..])
  {
    hide Digits, Grouped, AreCommas, WithoutCommas;
    var sign := if v < 0 then [0x2D] else [];
    if v == 0 {
      OneDigit();
    } else {
      var ds := TextOf(Digits(Magnitude(v), 10));
      DigitsSpell(Magnitude(v), 10);
      DigitsGrouped(ds);
      assert DecimalText(false, v) == sign + ds && DecimalText(true, v) == sign + Grouped(ds);
    }
  }

  lemma OneDigit()
    ensures AreCommas([0x30], [0x30])
  {
    assert [0x30][..0] == [] && WithoutCommas([]) == [];
  }

  lemma DigitsGrouped(ds: Text)
    requires Numeric(ds, 10)
    ensures AreCommas(Grouped(ds), ds)
  {
    hide Grouped, WithoutCommas;
    assert 0x2C !in ds;
    GroupedPlain(ds);
    forall j | 0 <= j < |Grouped(ds)|
      ensures Grouped(ds)[|Grouped(ds)| - 1 - j] == 0x2C <==> j % 4 == 3
    {
      EveryFourth(ds, j);
    }
  }

  // ------------------------------------------------------------------------------- reading numbers

  lemma {:induction false} PrefixRead(t: Text, base: nat)
    requires (base == 10 || base == 16) && Numeric(t, base)
    ensures DigitValuesOf(t, base) == DigitPrefix(t, base) && Value(DigitValuesOf(t, base), base) == Reading(t, base)
    decreases |t|
  {
    hide DigitOf, DigitPrefix;
    forall i | 0 <= i < |t| ensures DigitOf(t[i], base) < base {
      NumericDigit(t, base, i);
    }
    DigitPrefixExtends(t, base, |t|);
    if t != [] {
      var n := |t| - 1;
      PrefixRead(t[..n], base);
      assert DigitValuesOf(t, base)[..n] == DigitValuesOf(t[..n], base);
      NumericDigit(t, base, n);
    }
  }

  function DigitValuesOf(t: Text, base: nat): (ds: seq<nat>)
    requires base == 10 || base == 16
  {
    seq(|t|, i requires 0 <= i < |t| => DigitOf(t[i], base))
  }

  lemma NumericDigit(t: Text, base: nat, i: nat)
    requires (base == 10 || base == 16) && Numeric(t, base) && i < |t|
    ensures var c := t[i] as int;
      DigitOf(t[i], base) == (if c < 0x41 then c - 0x30 else if c < 0x61 then c - 0x37 else c - 0x57) < base
  {
  }

  lemma {:induction false} BlanksSkipped(n: nat, t: Text)
    requires t == [] || t[0] != 0x20
    ensures SkipBlanks(seq(n, _ => 0x20) + t) == t
    decreases n
  {
    var all := seq(n, _ => 0x20) + t;
    if n == 0 {
      assert all == t;
    } else {
      assert all[0] == 0x20 && all[1..] == seq(n - 1, _ => 0x20) + t;
      BlanksSkipped(n - 1, t);
    }
  }

  /** Blanks, a numeral, and anything that does not go on with a digit: the reading stops there. */
  lemma NumeralRead(n: nat, t: Text, rest: Text, base: nat)
    requires (base == 10 || base == 16) && Numeric(t, base)
    requires rest == [] || (!Numeric([rest[0]], base) && (t == [] ==> rest[0] != 0x20))
    ensures Value(DigitPrefix(SkipBlanks(seq(n, _ => 0x20) + t + rest), base), base) == Reading(t, base)
  {
    hide Value, Reading, DigitPrefix, SkipBlanks;
    var all := t + rest;
    assert seq(n, _ => 0x20) + t + rest == seq(n, _ => 0x20) + all;
    assert t != [] ==> all[0] == t[0];
    BlanksSkipped(n, all);
    PrefixRead(t, base);
    forall i | 0 <= i < |t| ensures DigitOf(all[i], base) == DigitOf(t[i], base) != 16 {
      NumericDigit(t, base, i);
    }
    DigitPrefixExtends(all, base, |t|);
    DigitPrefixExtends(t, base, |t|);
    if rest != [] {
      assert all[|t|] == rest[0];
      NoDigit(rest[0], base);
    }
    assert DigitPrefix(all, base) == DigitPrefix(t, base);
  }

  lemma NoDigit(c: Char16, base: nat)
    requires (base == 10 || base == 16) && !Numeric([c], base)
    ensures DigitOf(c, base) == 16
  {
  }

  /** " 1aG" reads as 26 in base 16 and as 1 in base 10, and 48879 is "BEEF". */
  method Samples() returns (hex: UInt64, decimal: UInt64, text: array<Char16>)
    ensures hex == 26 && decimal == 1
    ensures fresh(text) && text[..] == [0x42, 0x45, 0x45, 0x46, 0]
  {
    hide Value, DigitPrefix, SkipBlanks, Digits;
    var str := [0x20, 0x31, 0x61, 0x47];
    assert str == seq(1, _ => 0x20) + [0x31, 0x61] + [0x47] == seq(1, _ => 0x20) + [0x31] + [0x61, 0x47];
    NumeralRead(1, [0x31, 0x61], [0x47], 16);
    NumeralRead(1, [0x31], [0x61, 0x47], 10);
    assert [0x31, 0x61][..1] == [0x31] && [0x31][..0] == [];
    hex := Xtoi(str);
    decimal := Atoi(str);
    text := new Char16[5];
    BeefText();
    ValueToHex(text, 48879);
  }

  lemma BeefText()
    ensures HexText(48879) == [0x42, 0x45, 0x45, 0x46]
  {
    assert Digits(48879, 16) == [11, 14, 14, 15];
  }
}
