/** What the directives of print.c print, each said of a format and its characters. */
module Directives {
  import opened Basics
  import opened CStrings
  import opened Numbers
  import opened Numerals
  import opened Formats
  import Printing

  // ------------------------------------------------------------- from one character to the next

  /** Behind its `%`, `g` is one whole directive that takes all of the arguments and stands for `t`. */
  predicate Gives(g: Text, args: seq<Arg>, item: Item, t: Text) {
    Directive(g, 0, args, item) == Some((t, |g|, |args|))
  }

  lemma GivesRender(g: Text, args: seq<Arg>, t: Text)
    requires Gives(g, args, NEW_ITEM, t)
    ensures Render([0x25] + g, 0, args) == Some(t)
  {
    hide Directive;
    var fmt := [0x25] + g;
    DirectiveShifts([0x25], g, 0, args, NEW_ITEM);
    assert args[|args|..] == [] && t + [] == t;
    assert Render(fmt, |fmt|, args[|args|..]) == Some([]);
  }

  function Shown(there: bool, c: Char16): Text { if there then [c] else [] }

  lemma SomeFlag(there: bool, c: Char16, g: Text, args: seq<Arg>, item: Item)
    requires IsFlag(c)
    ensures var f := Shown(there, c);
      Directive(f + g, 0, args, item) == MovedBy(Directive(g, 0, args, if there then Flagged(item, c) else item), |f|)
  {
    hide Directive, Flagged, IsFlag;
    if there {
      FlagStep([c] + g, 0, args, item);
      DirectiveShifts([c], g, 0, args, Flagged(item, c));
    } else {
      assert [] + g == g;
    }
  }

  lemma FlagGives(there: bool, c: Char16, g: Text, args: seq<Arg>, item: Item, t: Text)
    requires IsFlag(c) && Gives(g, args, if there then Flagged(item, c) else item, t)
    ensures Gives(Shown(there, c) + g, args, item, t)
  {
    hide Directive, Flagged, IsFlag, Shown;
    SomeFlag(there, c, g, args, item);
  }

  /** A number in a directive: none, a numeral, or `*` with its argument. */
  datatype Count = Absent | Numeral(text: Text) | Star(n: UInt64) {
    function Text(): Text {
      match this
      case Absent => []
      case Numeral(t) => t
      case Star(_) => [0x2A]
    }

    function Args(): seq<Arg> { if Star? then [Number(n)] else [] }

    predicate Says(k: nat) {
      match this
      case Absent => true
      case Numeral(t) => Spells(t, 10, k) && 0 < k < 0x1_0000_0000_0000_0000
      case Star(n) => n == k
    }
  }

  lemma CountGives(count: Count, k: nat, g: Text, args: seq<Arg>, item: Item, t: Text)
    requires count.Says(k) && k < WIDE && (g == [] || !(0x30 <= g[0] <= 0x39))
    requires Gives(g, args, if count.Absent? then item else item.Parsed(k), t)
    ensures Gives(count.Text() + g, count.Args() + args, item, t)
  {
    hide Gives, Item.Parsed, Spells;
    match count
    case Absent =>
      assert [] + g == g && [] + args == args;
    case Numeral(ds) =>
      assert [] + args == args;
      NumeralGives(ds, k, g, args, item, t);
    case Star(n) =>
      StarGives(n, g, args, item, t);
  }

  lemma NumeralGives(ds: Text, k: nat, g: Text, args: seq<Arg>, item: Item, t: Text)
    requires Spells(ds, 10, k) && 0 < k < WIDE && (g == [] || !(0x30 <= g[0] <= 0x39))
    requires Gives(g, args, item.Parsed(k), t)
    ensures Gives(ds + g, args, item, t)
  {
    hide Directive, Item.Parsed, Spells, Modify, EndsDirective;
    NumeralModifies(ds, k, g, args, item);
    NumeralStep(ds + g, |ds|, args, item, item.Parsed(k));
    DirectiveShifts(ds, g, 0, args, item.Parsed(k));
  }

  lemma StarGives(n: UInt64, g: Text, args: seq<Arg>, item: Item, t: Text)
    requires Gives(g, args, item.Parsed(n), t)
    ensures Gives([0x2A] + g, [Number(n)] + args, item, t)
  {
    hide Item.Parsed, Convert, InField;
    var all := [Number(n)] + args;
    StarModifies(n, g, args, item);
    DirectiveShifts([0x2A], g, 0, args, item.Parsed(n));
    assert all[1..] == args;
    hide Modify;
    assert Directive([0x2A] + g, 1, all[1..], item.Parsed(n)) == Some((t, 1 + |g|, |args|));
  }

  lemma StarModifies(n: UInt64, g: Text, args: seq<Arg>, item: Item)
    ensures !EndsDirective(0x2A)
    ensures var m := Modify([0x2A] + g, 0, [Number(n)] + args, item); m.Some? && m.value == (item.Parsed(n), 1, 1)
  {
    hide Item.Parsed;
  }

  lemma NumeralModifies(ds: Text, k: nat, g: Text, args: seq<Arg>, item: Item)
    requires Spells(ds, 10, k) && 0 < k < WIDE && (g == [] || !(0x30 <= g[0] <= 0x39))
    ensures ds != [] && !EndsDirective((ds + g)[0])
    ensures var m := Modify(ds + g, 0, args, item); m.Some? && m.value == (item.Parsed(k), |ds|, 0)
  {
    hide Item.Parsed, Value, Reading;
    var fmt := ds + g;
    NumeralFirst(ds, k);
    assert forall i :: 0 <= i < |ds| ==> fmt[i] == ds[i] && IsDigit(fmt[i]);
    assert g != [] ==> fmt[|ds|] == g[0];
    DigitsEndAt(fmt, 0, |ds|);
    DigitsEndAt(fmt, 1, |ds|);
    assert fmt[0..|ds|] == ds;
    NumeralValue(ds);
  }

  lemma NumeralFirst(ds: Text, k: nat)
    requires Spells(ds, 10, k) && k > 0
    ensures 0x31 <= ds[0] <= 0x39
  {
    if ds[0] == 0x30 {
      assert ds == [0x30] && ds[..0] == [] && Reading([], 10) == 0;
    }
  }

  lemma {:induction false} DigitsEndAt(fmt: Text, i: nat, e: nat)
    requires i <= e <= |fmt| && (forall j :: i <= j < e ==> IsDigit(fmt[j])) && (e < |fmt| ==> !IsDigit(fmt[e]))
    ensures DigitsEnd(fmt, i) == e
    decreases e - i
  {
    if i < e {
      DigitsEndAt(fmt, i + 1, e);
    }
  }

  lemma {:induction false} NumeralValue(ds: Text)
    requires Numeric(ds, 10)
    ensures Value(DigitValues(ds), 10) == Reading(ds, 10)
    decreases |ds|
  {
    if ds != [] {
      var n := |ds| - 1;
      NumeralValue(ds[..n]);
      assert DigitValues(ds)[..n] == DigitValues(ds[..n]);
    }
  }

  lemma NumeralStep(fmt: Text, n: nat, args: seq<Arg>, item: Item, item': Item)
    requires fmt != [] && !EndsDirective(fmt[0]) && 0 < n <= |fmt|
    requires var m := Modify(fmt, 0, args, item); m.Some? && m.value == (item', n, 0)
    ensures Directive(fmt, 0, args, item) == Directive(fmt, n, args, item')
  {
    hide Modify, Convert, InField;
    assert args[0..] == args;
  }

  // -------------------------------------------------------------------------------- w, .l, 0 and -

  /** The letters whose text a width may be set for: a c d f g r s t u x. */
  const LETTERS: set<Char16> := {0x61, 0x63, 0x64, 0x66, 0x67, 0x72, 0x73, 0x74, 0x75, 0x78}

  /** `w` stands for the width and `l` for the field, each a numeral or a `*`.  The text is cut to the field
      and padded to the width in front of it, with zeros for `0`; blanks make up the field, in front or, with
      `-`, behind. */
  lemma WidthAndField(zero: bool, left: bool, comma: bool, long: bool, width: Count, w: nat, field: Count, l: nat,
                      c: Char16, arg: Arg, t: Text)
    requires width.Says(w) && w < 0x1_0000_0000_0000_0000 && field.Says(l) && l < 0xFFFF_FFFF_FFFF_FFFF
    requires c in {0x61, 0x63, 0x64, 0x66, 0x67, 0x72, 0x73, 0x74, 0x75, 0x78} && |t| < 0xFFFF_FFFF_FFFF_FFFF
    requires Render([0x25] + (Shown(comma, 0x2C) + (Shown(long, 0x6C) + [c])), 0, [arg]) == Some(t)
    ensures
      var len := if field.Absent? || |t| < l then |t| else l;
      var wide := if width.Absent? || w < len then len else w;
      var pad := seq(wide - len, _ => if zero then 0x30 else 0x20);
      var blanks := if field.Absent? || l <= wide then [] else seq(l - wide, _ => 0x20);
      var fmt := [0x25] + (Shown(zero, 0x30) + (Shown(left, 0x2D) + (Shown(comma, 0x2C) + (width.Text() +
                   (Shown(!field.Absent?, 0x2E) + (field.Text() + (Shown(long, 0x6C) + [c])))))));
      Render(fmt, 0, width.Args() + (field.Args() + [arg])) ==
        Some(if left then pad + t[..len] + blanks else blanks + pad + t[..len])
  {
    hide *;
    Constants();
    var i0 := NEW_ITEM;
    var i1 := if zero then Flagged(i0, 0x30) else i0;
    var i2 := if left then Flagged(i1, 0x2D) else i1;
    var i3 := if comma then Flagged(i2, 0x2C) else i2;
    var i4 := if width.Absent? then i3 else i3.Parsed(w);
    var i5 := if !field.Absent? then Flagged(i4, 0x2E) else i4;
    var i6 := if field.Absent? then i5 else i5.Parsed(l);
    var i7 := if long then Flagged(i6, 0x6C) else i6;
    Flags();
    PlainLetter(comma, long, c, arg, t);
    Fields(zero, left, comma, long, width, w, field, l);
    LetterGives(c, arg, NEW_ITEM.(comma := comma, long := long), i7, t);
    var shown, a0 := InField(t, i7), [arg];
    FlagGives(long, 0x6C, [c], a0, i6, shown);
    var g6 := Shown(long, 0x6C) + [c];
    LetterStarts(long, c);
    CountGives(field, l, g6, a0, i5, shown);
    var g5, a1 := field.Text() + g6, field.Args() + a0;
    FlagGives(!field.Absent?, 0x2E, g5, a1, i4, shown);
    var g4 := Shown(!field.Absent?, 0x2E) + g5;
    FieldStarts(field, l, g6);
    CountGives(width, w, g4, a1, i3, shown);
    var g3, a2 := width.Text() + g4, width.Args() + a1;
    FlagGives(comma, 0x2C, g3, a2, i2, shown);
    var g2 := Shown(comma, 0x2C) + g3;
    FlagGives(left, 0x2D, g2, a2, i1, shown);
    var g1 := Shown(left, 0x2D) + g2;
    FlagGives(zero, 0x30, g1, a2, i0, shown);
    GivesRender(Shown(zero, 0x30) + g1, a2, shown);
    Placed(zero, left, width, w, field, l, i7, t);
  }

  lemma Constants()
    ensures WIDE == 0x1_0000_0000_0000_0000 && UNSET == WIDE - 1
    ensures LETTERS == {0x61, 0x63, 0x64, 0x66, 0x67, 0x72, 0x73, 0x74, 0x75, 0x78}
  {
  }

  lemma LetterStarts(long: bool, c: Char16)
    requires c in LETTERS
    ensures var g := Shown(long, 0x6C) + [c]; g != [] && !(0x30 <= g[0] <= 0x39)
  {
  }

  lemma Flags()
    ensures forall c :: c in {0x30, 0x2D, 0x2C, 0x2E, 0x6C} ==> IsFlag(c)
  {
  }

  lemma FieldStarts(field: Count, l: nat, g6: Text)
    requires g6 != [] && !(0x30 <= g6[0] <= 0x39)
    ensures var g := Shown(!field.Absent?, 0x2E) + (field.Text() + g6);
      g != [] && !(0x30 <= g[0] <= 0x39)
  {
  }

  /** The item when the letter comes. */
  lemma Fields(zero: bool, left: bool, comma: bool, long: bool, width: Count, w: nat, field: Count, l: nat)
    requires w < WIDE && l < UNSET
    ensures
      var i1 := if zero then Flagged(NEW_ITEM, 0x30) else NEW_ITEM;
      var i2 := if left then Flagged(i1, 0x2D) else i1;
      var i3 := if comma then Flagged(i2, 0x2C) else i2;
      var i4 := if width.Absent? then i3 else i3.Parsed(w);
      var i5 := if !field.Absent? then Flagged(i4, 0x2E) else i4;
      var i6 := if field.Absent? then i5 else i5.Parsed(l);
      var i7 := if long then Flagged(i6, 0x6C) else i6;
      i7 == Item(if field.Absent? then UNSET else l, if width.Absent? then 0 else w, !field.Absent?,
                 if zero then 0x30 else 0x20, !left, comma, long)
  {
  }

  lemma Placed(zero: bool, left: bool, width: Count, w: nat, field: Count, l: nat, item: Item, t: Text)
    requires w < WIDE && l < UNSET && |t| < UNSET
    requires item.fieldWidth == (if field.Absent? then UNSET else l) && item.width == (if width.Absent? then 0 else w)
    requires item.pad == (if zero then 0x30 else 0x20) && item.padBefore == !left
    ensures
      var len := if field.Absent? || |t| < l then |t| else l;
      var wide := if width.Absent? || w < len then len else w;
      var pad := seq(wide - len, _ => if zero then 0x30 else 0x20);
      var blanks := if field.Absent? || l <= wide then [] else seq(l - wide, _ => 0x20);
      InField(t, item) == if left then pad + t[..len] + blanks else blanks + pad + t[..len]
  {
    InFieldIs(t, item);
  }

  /** What a letter stands for by itself, and so with `,` and `l`. */
  lemma PlainLetter(comma: bool, long: bool, c: Char16, arg: Arg, t: Text)
    requires c in LETTERS && |t| < UNSET
    requires Render([0x25] + (Shown(comma, 0x2C) + (Shown(long, 0x6C) + [c])), 0, [arg]) == Some(t)
    ensures Convert(c, [arg], NEW_ITEM.(comma := comma, long := long)) == Some((t, 1))
  {
    hide Convert, InField, Directive, Shown;
    var g1 := Shown(long, 0x6C) + [c];
    var g := Shown(comma, 0x2C) + g1;
    Flags();
    var item := if comma then Flagged(NEW_ITEM, 0x2C) else NEW_ITEM;
    SomeFlag(comma, 0x2C, g1, [arg], NEW_ITEM);
    SomeFlag(long, 0x6C, [c], [arg], item);
    DirectiveShifts([0x25], g, 0, [arg], NEW_ITEM);
    var all := NEW_ITEM.(comma := comma, long := long);
    assert all == if long then Flagged(item, 0x6C) else item;
    LetterOnly(c, arg, all);
    LetterText(c, arg, all);
    var d := Directive([0x25] + g, 1, [arg], NEW_ITEM);
    assert d.Some? ==> d.value.1 == |[0x25] + g| && d.value.0 + [] == d.value.0;
  }

  lemma LetterOnly(c: Char16, arg: Arg, item: Item)
    requires c in LETTERS
    ensures var r, t := Directive([c], 0, [arg], item), Convert(c, [arg], item);
      if t.None? then r.None? else r.Some? && r.value == (InField(t.value.0, item), 1, t.value.1)
  {
    hide Convert, InField;
    assert EndsDirective(c) && [c][0] == c;
  }

  lemma LetterText(c: Char16, arg: Arg, item: Item)
    requires c in LETTERS && item.fieldWidth == UNSET && item.width == 0
    ensures var t := Convert(c, [arg], item);
      t.Some? ==> t.value.1 == 1 && (|InField(t.value.0, item)| < UNSET ==> InField(t.value.0, item) == t.value.0)
  {
    hide Fill;
    var t := Convert(c, [arg], item);
    if t.Some? {
      FillLengths(item.pad, 0);
      assert t.value.0[..|t.value.0|] == t.value.0;
    }
  }

  lemma FillLengths(c: Char16, n: int)
    ensures n <= 0 ==> Fill(c, n) == [] && Fill(BLANK, n) == []
  {
  }

  lemma LetterGives(c: Char16, arg: Arg, plain: Item, item: Item, t: Text)
    requires c in LETTERS && Convert(c, [arg], plain) == Some((t, 1))
    requires plain.comma == item.comma && plain.long == item.long
    ensures Gives([c], [arg], item, InField(t, item))
  {
    hide InField;
    assert EndsDirective(c) && [c][0] == c;
    ConvertKeeps(c, [arg], plain, item);
  }

  lemma ConvertKeeps(c: Char16, args: seq<Arg>, a: Item, b: Item)
    requires a.comma == b.comma && a.long == b.long
    ensures Convert(c, args, a) == Convert(c, args, b)
  {
  }

  // ---------------------------------------------------------------------------- what a letter prints

  /** `%` and a letter, with `l` or without. */
  function Plain(long: bool, c: Char16): Text { [0x25] + (Shown(long, 0x6C) + [c]) }

  lemma PlainIs(long: bool, c: Char16, arg: Arg, t: Text)
    requires c in LETTERS && |t| < UNSET
    requires Convert(c, [arg], NEW_ITEM.(long := long)) == Some((t, 1))
    ensures Render(Plain(long, c), 0, [arg]) == Some(t)
  {
    hide Convert, InField, Directive, Shown, Gives, Render;
    Flags();
    var item := NEW_ITEM.(long := long);
    LetterGives(c, arg, item, item, t);
    Unpadded(t, item);
    assert item == if long then Flagged(NEW_ITEM, 0x6C) else NEW_ITEM;
    FlagGives(long, 0x6C, [c], [arg], NEW_ITEM, t);
    GivesRender(Shown(long, 0x6C) + [c], [arg], t);
  }

  lemma Unpadded(t: Text, item: Item)
    requires |t| < UNSET && item.fieldWidth == UNSET && item.width == 0 && item.padBefore
    ensures InField(t, item) == t
  {
    hide Fill;
    InFieldIs(t, item);
    FillLengths(item.pad, 0);
    assert t[..|t|] == t;
  }

  /** `%d` prints its argument as an INT32: the number there is congruent to it. */
  lemma PrintedInt32(n: UInt64, v: int)
    requires -0x8000_0000 <= v < 0x8000_0000 && (n - v) % 0x1_0000_0000 == 0
    ensures var t := Render([0x25, 0x64], 0, [Number(n)]);
      t.Some? && SpellsSigned(t.value, v)
  {
    hide Render, DecimalText, SpellsSigned;
    assert SignedArg(n, false) == v;
    DecimalFits(false, v);
    DecimalSpelled(v);
    assert [0x25, 0x64] == Plain(false, 0x64);
    PlainIs(false, 0x64, Number(n), DecimalText(false, v));
  }

  /** `%ld` prints all 64 bits as an INT64. */
  lemma PrintedInt64(n: UInt64, v: int)
    requires -0x8000_0000_0000_0000 <= v < 0x8000_0000_0000_0000 && (n - v) % 0x1_0000_0000_0000_0000 == 0
    ensures var t := Render([0x25, 0x6C, 0x64], 0, [Number(n)]);
      t.Some? && SpellsSigned(t.value, v)
  {
    hide Render, DecimalText, SpellsSigned;
    assert SignedArg(n, true) == v;
    DecimalFits(false, v);
    DecimalSpelled(v);
    assert [0x25, 0x6C, 0x64] == Plain(true, 0x64);
    PlainIs(true, 0x64, Number(n), DecimalText(false, v));
  }

  /** `%u` prints the low 32 bits of its argument. */
  lemma PrintedUInt32(n: UInt64)
    ensures var t := Render([0x25, 0x75], 0, [Number(n)]);
      t.Some? && Spells(t.value, 10, n % 0x1_0000_0000)
  {
    hide Render, DecimalText, Spells;
    var v := n % 0x1_0000_0000;
    assert ToInt64(v) == v && UnsignedArg(n, false) == v;
    DecimalFits(false, v);
    DecimalSpelled(v);
    assert [0x25, 0x75] == Plain(false, 0x75);
    PlainIs(false, 0x75, Number(n), DecimalText(false, v));
  }

  /** `%lu` prints its argument exactly below 2^63: from there on it goes through a signed number, and what
      is printed is negative. */
  lemma PrintedUInt64(n: UInt64)
    ensures var t := Render([0x25, 0x6C, 0x75], 0, [Number(n)]);
      && t.Some? && (Spells(t.value, 10, n) <==> n < 0x8000_0000_0000_0000)
      && (n >= 0x8000_0000_0000_0000 ==> SpellsSigned(t.value, n - 0x1_0000_0000_0000_0000))
  {
    hide Render, DecimalText, Spells;
    var v := ToInt64(n);
    assert UnsignedArg(n, true) == n && v == if n < 0x8000_0000_0000_0000 then n else n - 0x1_0000_0000_0000_0000;
    DecimalFits(false, v);
    DecimalSpelled(v);
    MinusSpellsNothing(DecimalText(false, v), n);
    assert [0x25, 0x6C, 0x75] == Plain(true, 0x75);
    PlainIs(true, 0x75, Number(n), DecimalText(false, v));
  }

  lemma MinusSpellsNothing(t: Text, n: nat)
    ensures t != [] && t[0] == 0x2D ==> !Spells(t, 10, n)
  {
  }

  /** `%x` prints the low 32 bits, `%lx` all 64, in base 16 with upper-case letters. */
  lemma PrintedHex(n: UInt64)
    ensures var t := Render([0x25, 0x78], 0, [Number(n)]);
      t.Some? && Spells(t.value, 16, n % 0x1_0000_0000)
    ensures var t := Render([0x25, 0x6C, 0x78], 0, [Number(n)]);
      t.Some? && Spells(t.value, 16, n)
  {
    hide Render, HexText, Spells;
    var v := n % 0x1_0000_0000;
    HexFits(v);
    HexSpelled(v);
    HexFits(n);
    HexSpelled(n);
    assert [0x25, 0x78] == Plain(false, 0x78) && [0x25, 0x6C, 0x78] == Plain(true, 0x78);
    PlainIs(false, 0x78, Number(n), HexText(v));
    PlainIs(true, 0x78, Number(n), HexText(n));
  }

  /** `%X` prints the same with zeros in front, eight characters in all, `%lX` sixteen, whatever width is
      given. */
  lemma PrintedFixedHex(zero: bool, left: bool, width: Count, w: nat, long: bool, n: UInt64)
    requires width.Says(w) && w < 0x1_0000_0000_0000_0000
    ensures var k, v := if long then 16 else 8, if long then n else n % 0x1_0000_0000;
      var fmt := [0x25] + (Shown(zero, 0x30) + (Shown(left, 0x2D) + (width.Text() + (Shown(long, 0x6C) + [0x58]))));
      var t := Render(fmt, 0, width.Args() + [Number(n)]);
      && t.Some? && |t.value| == k && Numeric(t.value, 16) && Reading(t.value, 16) == v
      && exists z: nat :: z < k && (forall i :: 0 <= i < z ==> t.value[i] == 0x30) && Spells(t.value[z..], 16, v)
  {
    hide *;
    Constants();
    var k, v := if long then 16 else 8, if long then n else n % 0x1_0000_0000;
    var i0 := NEW_ITEM;
    var i1 := if zero then Flagged(i0, 0x30) else i0;
    var i2 := if left then Flagged(i1, 0x2D) else i1;
    var i4 := if width.Absent? then i2 else i2.Parsed(w);
    var i7 := if long then Flagged(i4, 0x6C) else i4;
    Flags();
    var arg := [Number(n)];
    FixedHexGives(zero, left, width, w, long, n);
    HexSpelled(v);
    HexWithin(v, k);
    var h := HexText(v);
    var shown := seq(k - |h|, _ => 0x30) + h;
    var g1 := Shown(long, 0x6C) + [0x58];
    FlagGives(long, 0x6C, [0x58], arg, i4, shown);
    FixedHexStarts(long);
    CountGives(width, w, g1, arg, i2, shown);
    var g2, a1 := width.Text() + g1, width.Args() + arg;
    FlagGives(left, 0x2D, g2, a1, i1, shown);
    var g3 := Shown(left, 0x2D) + g2;
    FlagGives(zero, 0x30, g3, a1, i0, shown);
    GivesRender(Shown(zero, 0x30) + g3, a1, shown);
    ZerosInFront(k - |h|, h, v);
  }

  lemma FixedHexStarts(long: bool)
    ensures var g := Shown(long, 0x6C) + [0x58]; g != [] && !(0x30 <= g[0] <= 0x39)
  {
  }

  lemma HexWithin(v: UInt64, k: nat)
    requires k == 16 || (k == 8 && v < 0x1_0000_0000)
    ensures |HexText(v)| <= k
  {
    hide Digits;
    HexFits(v);
    if k == 8 {
      assert Power(16, 4) == 0x1_0000;
      assert Power(16, 8) == 0x1_0000_0000;
      DigitCount(v, 16, 8);
    }
  }

  lemma FixedHexGives(zero: bool, left: bool, width: Count, w: nat, long: bool, n: UInt64)
    requires w < WIDE
    ensures var k, v := if long then 16 else 8, if long then n else n % 0x1_0000_0000;
      var i1 := if zero then Flagged(NEW_ITEM, 0x30) else NEW_ITEM;
      var i2 := if left then Flagged(i1, 0x2D) else i1;
      var i4 := if width.Absent? then i2 else i2.Parsed(w);
      var i7 := if long then Flagged(i4, 0x6C) else i4;
      |HexText(v)| <= k && Gives([0x58], [Number(n)], i7, seq(k - |HexText(v)|, _ => 0x30) + HexText(v))
  {
    var k, v := if long then 16 else 8, if long then n else n % 0x1_0000_0000;
    var i1 := if zero then Flagged(NEW_ITEM, 0x30) else NEW_ITEM;
    var i2 := if left then Flagged(i1, 0x2D) else i1;
    var i4 := if width.Absent? then i2 else i2.Parsed(w);
    var i7 := if long then Flagged(i4, 0x6C) else i4;
    HexWithin(v, k);
    assert UnsignedArg(n, i7.long) == v;
    FixedHex(n, i7, HexText(v), k);
  }

  lemma FixedHex(n: UInt64, item: Item, h: Text, k: nat)
    requires item.fieldWidth == UNSET && h == HexText(UnsignedArg(n, item.long))
    requires k == (if item.long then 16 else 8) && |h| <= k
    ensures Gives([0x58], [Number(n)], item, seq(k - |h|, _ => 0x30) + h)
  {
    hide HexText, UnsignedArg, InField;
    assert [0x58][0] == 0x58 && EndsDirective(0x58);
    ZeroPadded(h, Finished(0x58, item), k);
  }

  lemma ZeroPadded(h: Text, item: Item, k: nat)
    requires item.fieldWidth == UNSET && item.width == k && item.pad == 0x30 && |h| <= k < UNSET
    ensures InField(h, item) == seq(k - |h|, _ => 0x30) + h
  {
    InFieldIs(h, item);
    FillLengths(BLANK, |h| - k);
    assert h[..|h|] == h && Fill(item.pad, k - |h|) == seq(k - |h|, _ => 0x30);
  }

  lemma {:induction false} ZerosInFront(z: nat, h: Text, v: int)
    requires Spells(h, 16, v)
    ensures var t := seq(z, _ => 0x30) + h;
      && Numeric(t, 16) && Reading(t, 16) == v
      && (forall i :: 0 <= i < z ==> t[i] == 0x30) && Spells(t[z..], 16, v) && z < |t|
  {
    var t: Text := seq(z, _ => 0x30) + h;
    assert t[z..] == h;
    ZerosRead(z, h);
  }

  lemma {:induction false} ZerosRead(z: nat, h: Text)
    ensures Reading(seq(z, _ => 0x30) + h, 16) == Reading(h, 16)
    decreases |h|, z
  {
    var t: Text := seq(z, _ => 0x30) + h;
    if h != [] {
      assert t[..|t| - 1] == seq(z, _ => 0x30) + h[..|h| - 1];
      ZerosRead(z, h[..|h| - 1]);
    } else if z > 0 {
      assert t[..|t| - 1] == seq(z - 1, _ => 0x30) + [];
      ZerosRead(z - 1, []);
    } else {
      assert t == h;
    }
  }

  /** `,` sets commas, in `%d` and in `%u`, with `l` or without. */
  lemma PrintedCommas(long: bool, c: Char16, n: UInt64)
    requires c == 0x64 || c == 0x75
    ensures var t, plain := Render([0x25, 0x2C] + (Shown(long, 0x6C) + [c]), 0, [Number(n)]),
                            Render([0x25] + (Shown(long, 0x6C) + [c]), 0, [Number(n)]);
      && t.Some? && plain.Some?
      && var k := if plain.value != [] && plain.value[0] == 0x2D then 1 else 0;
         k <= |t.value| && t.value[..k] == plain.value[..k] && AreCommas(t.value[k..], plain.value[k..])
  {
    hide Render, DecimalText, AreCommas, Spells, Convert, Gives, Shown, Flagged, InField;
    var v := if c == 0x64 then SignedArg(n, long) else ToInt64(UnsignedArg(n, long));
    DecimalFits(true, v);
    DecimalFits(false, v);
    CommasSpelled(v);
    DecimalSpelled(v);
    SignOnly(DecimalText(false, v), v);
    Decimals(c, n, NEW_ITEM.(long := long));
    Decimals(c, n, NEW_ITEM.(comma := true, long := long));
    PlainIs(long, c, Number(n), DecimalText(false, v));
    LetterGives(c, Number(n), NEW_ITEM.(comma := true, long := long), NEW_ITEM.(comma := true, long := long),
                DecimalText(true, v));
    Unpadded(DecimalText(true, v), NEW_ITEM.(comma := true, long := long));
    CommaLong(long);
    FlagGives(long, 0x6C, [c], [Number(n)], NEW_ITEM.(comma := true), DecimalText(true, v));
    var g := Shown(long, 0x6C) + [c];
    FlagGives(true, 0x2C, g, [Number(n)], NEW_ITEM, DecimalText(true, v));
    GivesRender(Shown(true, 0x2C) + g, [Number(n)], DecimalText(true, v));
    assert [0x25] + (Shown(true, 0x2C) + g) == [0x25, 0x2C] + g by {
      ShownComma();
    }
  }

  lemma ShownComma()
    ensures Shown(true, 0x2C) == [0x2C]
  {
  }

  lemma CommaLong(long: bool)
    ensures IsFlag(0x2C) && IsFlag(0x6C) && Flagged(NEW_ITEM, 0x2C) == NEW_ITEM.(comma := true)
    ensures NEW_ITEM.(comma := true, long := long) ==
      if long then Flagged(NEW_ITEM.(comma := true), 0x6C) else NEW_ITEM.(comma := true)
  {
  }

  lemma Decimals(c: Char16, n: UInt64, item: Item)
    requires c == 0x64 || c == 0x75
    ensures var v := if c == 0x64 then SignedArg(n, item.long) else ToInt64(UnsignedArg(n, item.long));
      Convert(c, [Number(n)], item) == Some((DecimalText(item.comma, v), 1))
  {
    hide DecimalText;
  }

  lemma SignOnly(t: Text, v: int)
    requires SpellsSigned(t, v)
    ensures v < 0 <==> t != [] && t[0] == 0x2D
  {
  }

  // ------------------------------------------------------------------------------------ characters

  /** `%s` and `%a` print their string, and "(null)" for NULL. */
  lemma PrintedStrings(s: Text)
    requires |s| < 0xFFFF_FFFF_FFFF_FFFF
    ensures Render([0x25, 0x73], 0, [String(s)]) == Render([0x25, 0x61], 0, [String(s)]) == Some(s)
    ensures Render([0x25, 0x73], 0, [NullString]) == Render([0x25, 0x61], 0, [NullString]) ==
      Some([0x28, 0x6E, 0x75, 0x6C, 0x6C, 0x29])
  {
    hide Render;
    assert [0x25, 0x73] == Plain(false, 0x73) && [0x25, 0x61] == Plain(false, 0x61);
    PlainIs(false, 0x73, String(s), s);
    PlainIs(false, 0x61, String(s), s);
    PlainIs(false, 0x73, NullString, NULL_TEXT);
    PlainIs(false, 0x61, NullString, NULL_TEXT);
  }

  /** `%c` prints the low 16 bits of its argument as a character, and nothing when they are zero. */
  lemma PrintedCharacter(n: UInt64)
    ensures var c := n % 0x1_0000;
      Render([0x25, 0x63], 0, [Number(n)]) == Some(if c == 0 then [] else [c as Char16])
  {
    hide Render;
    assert [0x25, 0x63] == Plain(false, 0x63);
    PlainIs(false, 0x63, Number(n), CharText(n));
  }

  /** The letters that take an argument, and those that set something: a c d f g r s t u x X, 0 to 9 , - . * l
      and n h e N H E. */
  const KNOWN: set<Char16> := {0x61, 0x63, 0x64, 0x66, 0x67, 0x72, 0x73, 0x74, 0x75, 0x78, 0x58,
    0x30, 0x31, 0x32, 0x33, 0x34, 0x35, 0x36, 0x37, 0x38, 0x39, 0x2C, 0x2D, 0x2E, 0x2A, 0x6C,
    0x6E, 0x68, 0x65, 0x4E, 0x48, 0x45}

  /** `%%` prints `%`; any letter that is none of these prints `?`; neither takes an argument. */
  lemma PrintedSigns(c: Char16, args: seq<Arg>)
    requires c !in KNOWN
    ensures Render([0x25, c], 0, args) == Some(if c == 0x25 then [0x25] else [0x3F])
  {
    hide InField, Convert;
    var fmt, t := [0x25, c], if c == 0x25 then [0x25] else [0x3F];
    Unpadded(t, NEW_ITEM);
    Signs(c, args);
    assert args[0..] == args && t + [] == t && fmt[1] == c;
    assert Directive(fmt, 1, args, NEW_ITEM) == Some((t, 2, 0));
    assert Render(fmt, 2, args) == Some([]);
  }

  lemma Signs(c: Char16, args: seq<Arg>)
    requires c !in KNOWN
    ensures EndsDirective(c) && Finished(c, NEW_ITEM) == NEW_ITEM
    ensures Convert(c, args, NEW_ITEM) == Some((if c == 0x25 then [0x25] else [0x3F], 0))
  {
  }

  /** The attributes n h e N H E print nothing and end nothing: the directive goes on behind them. */
  lemma AttributesPassedOver(c: Char16, g: Text, args: seq<Arg>)
    requires c in {0x6E, 0x68, 0x65, 0x4E, 0x48, 0x45}
    ensures Render([0x25, c] + g, 0, args) == Render([0x25] + g, 0, args)
  {
    hide Directive, IsFlag;
    Silent(c);
    var x, y := [0x25, c] + g, [0x25] + g;
    FlagStep(x, 1, args, NEW_ITEM);
    DirectiveShifts([0x25, c], g, 0, args, NEW_ITEM);
    DirectiveShifts([0x25], g, 0, args, NEW_ITEM);
    var d := Directive(g, 0, args, NEW_ITEM);
    if d.Some? {
      RenderShifts([0x25, c], g, d.value.1, args[d.value.2..]);
      RenderShifts([0x25], g, d.value.1, args[d.value.2..]);
    }
  }

  lemma Silent(c: Char16)
    requires c in {0x6E, 0x68, 0x65, 0x4E, 0x48, 0x45}
    ensures IsFlag(c) && Flagged(NEW_ITEM, c) == NEW_ITEM
  {
  }

  // -------------------------------------------------------------------------------------- newlines

  function Newlines(t: Text): nat {
    if t == [] then 0 else (if t[0] == 0x0A then 1 else 0) + Newlines(t[1..])
  }

  function WithoutReturns(t: Text): Text {
    if t == [] then [] else (if t[0] == 0x0D then [] else [t[0]]) + WithoutReturns(t[1..])
  }

  /** What goes out is the text with one carriage return more in front of every newline, and no other. */
  lemma {:induction false} ReturnsBeforeNewlines(t: Text)
    ensures var r := Expand(t);
      && |r| == |t| + Newlines(t)
      && (forall i :: 0 <= i < |r| && r[i] == 0x0A ==> i > 0 && r[i - 1] == 0x0D)
      && WithoutReturns(r) == WithoutReturns(t)
    decreases |t|
  {
    if t != [] {
      ReturnsBeforeNewlines(t[1..]);
      var r, rest := Expand(t), Expand(t[1..]);
      var m := if t[0] == 0x0A then 2 else 1;
      assert r[m..] == rest && (m == 2 ==> r[1..] == [0x0A] + rest);
      forall i | 0 <= i < |r| && r[i] == 0x0A
        ensures i > 0 && r[i - 1] == 0x0D
      {
        if i >= m {
          assert rest[i - m] == 0x0A && (i > m ==> r[i - 1] == rest[i - m - 1]);
        }
      }
    }
  }

  // --------------------------------------------------------------------------------------- samples

  /** "%05lx" of 0xBEEF is "0BEEF", "%-.4s" of "ab" is "ab  ", "%.2s" of "abc" is "ab", and "%*d" of 4 and -1
      is "  -1". */
  lemma Samples()
    ensures Render([0x25, 0x30, 0x35, 0x6C, 0x78], 0, [Number(0xBEEF)]) == Some([0x30, 0x42, 0x45, 0x45, 0x46])
    ensures Render([0x25, 0x2D, 0x2E, 0x34, 0x73], 0, [String([0x61, 0x62])]) == Some([0x61, 0x62, 0x20, 0x20])
    ensures Render([0x25, 0x2E, 0x32, 0x73], 0, [String([0x61, 0x62, 0x63])]) == Some([0x61, 0x62])
    ensures Render([0x25, 0x2A, 0x64], 0, [Number(4), Number(0xFFFF_FFFF_FFFF_FFFF)]) == Some([0x20, 0x20, 0x2D, 0x31])
  {
    hide Render, Spells;
    SampleHex();
    SampleStrings();
    SampleStar();
  }

  lemma OneDigitSpells(c: Char16)
    requires 0x31 <= c <= 0x39
    ensures Spells([c], 10, c as int - 0x30)
  {
    assert [c][..0] == [] && Reading([], 10) == 0;
  }

  /** WidthAndField with the padding spelled out. */
  lemma Sample(zero: bool, left: bool, long: bool, width: Count, w: nat, field: Count, l: nat, c: Char16, arg: Arg,
               t: Text, fmt: Text, args: seq<Arg>, pad: Text, blanks: Text, len: nat)
    requires width.Says(w) && w < WIDE && field.Says(l) && l < UNSET && c in LETTERS && |t| < UNSET
    requires Render([0x25] + (Shown(long, 0x6C) + [c]), 0, [arg]) == Some(t)
    requires fmt == [0x25] + (Shown(zero, 0x30) + (Shown(left, 0x2D) + (width.Text() +
                      (Shown(!field.Absent?, 0x2E) + (field.Text() + (Shown(long, 0x6C) + [c]))))))
    requires args == width.Args() + (field.Args() + [arg])
    requires len == if field.Absent? || |t| < l then |t| else l
    requires var wide := if width.Absent? || w < len then len else w;
      && |pad| == wide - len && (forall i :: 0 <= i < |pad| ==> pad[i] == if zero then 0x30 else 0x20)
      && |blanks| == (if field.Absent? || l <= wide then 0 else l - wide)
      && (forall i :: 0 <= i < |blanks| ==> blanks[i] == 0x20)
    ensures Render(fmt, 0, args) == Some(if left then pad + t[..len] + blanks else blanks + pad + t[..len])
  {
    hide Render, Spells, Count.Text, Count.Args, Count.Says;
    assert [] + (Shown(long, 0x6C) + [c]) == Shown(long, 0x6C) + [c];
    WidthAndField(zero, left, false, long, width, w, field, l, c, arg, t);
    var wide := if width.Absent? || w < len then len else w;
    var g := width.Text() + (Shown(!field.Absent?, 0x2E) + (field.Text() + (Shown(long, 0x6C) + [c])));
    assert [] + g == g;
    assert pad == seq(wide - len, _ => if zero then 0x30 else 0x20);
    assert blanks == if field.Absent? || l <= wide then [] else seq(l - wide, _ => 0x20);
  }

  lemma SampleHex()
    ensures Render([0x25, 0x30, 0x35, 0x6C, 0x78], 0, [Number(0xBEEF)]) == Some([0x30, 0x42, 0x45, 0x45, 0x46])
  {
    hide Render, Spells;
    OneDigitSpells(0x35);
    PrintedHex(0xBEEF);
    var t: Text := [0x42, 0x45, 0x45, 0x46];
    BeefSpells();
    OneNumeral(t, Render([0x25, 0x6C, 0x78], 0, [Number(0xBEEF)]).value, 16, 0xBEEF);
    assert [0x25, 0x6C, 0x78] == [0x25] + (Shown(true, 0x6C) + [0x78]);
    Sample(true, false, true, Numeral([0x35]), 5, Absent, 0, 0x78, Number(0xBEEF), t,
           [0x25, 0x30, 0x35, 0x6C, 0x78], [Number(0xBEEF)], [0x30], [], 4);
    assert [] + [0x30] + t[..4] == [0x30, 0x42, 0x45, 0x45, 0x46];
  }

  lemma BeefSpells()
    ensures Spells([0x42, 0x45, 0x45, 0x46], 16, 0xBEEF)
  {
    assert [0x42, 0x45, 0x45, 0x46][..3] == [0x42, 0x45, 0x45] && [0x42, 0x45, 0x45][..2] == [0x42, 0x45];
    assert [0x42, 0x45][..1] == [0x42] && [0x42][..0] == [];
    assert Reading([], 16) == 0 && Reading([0x42], 16) == 11 && Reading([0x42, 0x45], 16) == 190;
  }

  lemma SampleStrings()
    ensures Render([0x25, 0x2D, 0x2E, 0x34, 0x73], 0, [String([0x61, 0x62])]) == Some([0x61, 0x62, 0x20, 0x20])
    ensures Render([0x25, 0x2E, 0x32, 0x73], 0, [String([0x61, 0x62, 0x63])]) == Some([0x61, 0x62])
  {
    hide Render, Spells;
    OneDigitSpells(0x32);
    OneDigitSpells(0x34);
    var s, t := [0x61, 0x62], [0x61, 0x62, 0x63];
    PrintedStrings(s);
    PrintedStrings(t);
    assert [0x25, 0x73] == [0x25] + (Shown(false, 0x6C) + [0x73]);
    Sample(false, true, false, Absent, 0, Numeral([0x34]), 4, 0x73, String(s), s,
           [0x25, 0x2D, 0x2E, 0x34, 0x73], [String(s)], [], [0x20, 0x20], 2);
    assert [] + s[..2] + [0x20, 0x20] == [0x61, 0x62, 0x20, 0x20];
    Sample(false, false, false, Absent, 0, Numeral([0x32]), 2, 0x73, String(t), t,
           [0x25, 0x2E, 0x32, 0x73], [String(t)], [], [], 2);
    assert [] + [] + t[..2] == [0x61, 0x62];
  }

  lemma MinusOne(t: Text)
    requires SpellsSigned(t, -1)
    ensures t == [0x2D, 0x31]
  {
    OneDigitSpells(0x31);
    OneNumeral(t[1..], [0x31], 10, 1);
    assert t == [t[0]] + t[1..];
  }

  lemma SampleStar()
    ensures Render([0x25, 0x64], 0, [Number(0xFFFF_FFFF_FFFF_FFFF)]) == Some([0x2D, 0x31])
    ensures Render([0x25, 0x2A, 0x64], 0, [Number(4), Number(0xFFFF_FFFF_FFFF_FFFF)]) == Some([0x20, 0x20, 0x2D, 0x31])
  {
    hide Render, Spells;
    var n, t := Number(0xFFFF_FFFF_FFFF_FFFF), [0x2D, 0x31];
    PrintedInt32(0xFFFF_FFFF_FFFF_FFFF, -1);
    MinusOne(Render([0x25, 0x64], 0, [n]).value);
    assert [0x25, 0x64] == [0x25] + (Shown(false, 0x6C) + [0x64]);
    Sample(false, false, false, Star(4), 4, Absent, 0, 0x64, n, t,
           [0x25, 0x2A, 0x64], [Number(4), n], [0x20, 0x20], [], 2);
    assert [] + [0x20, 0x20] + t[..2] == [0x20, 0x20, 0x2D, 0x31];
  }

  /** "%d" of an argument that is all ones leaves "-1" in the buffer. */
  method MinusOnePrinted(str: array<Char16>) returns (len: nat)
    requires str.Length == 200
    modifies str
    ensures len == 2 && str[..3] == [0x2D, 0x31, 0]
  {
    hide Render;
    var args := [Number(0xFFFF_FFFF_FFFF_FFFF)];
    SampleStar();
    NotExpanded();
    len := Printing.VSPrint(str, 400, [0x25, 0x64], args);
    assert str[..3] == str[..2] + [str[2]] && str[..][..2] == str[..2];
  }

  lemma NotExpanded()
    ensures Expand([0x2D, 0x31]) == [0x2D, 0x31]
  {
    assert [0x2D, 0x31][1..] == [0x31] && [0x31][1..] == [];
  }
}
