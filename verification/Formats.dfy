/** The text a format of print.c stands for, as _Print renders it for SPrint, PoolPrint and CatPrint. */
module Formats {
  import opened Basics
  import opened CStrings
  import opened Numbers

  const PERCENT: Char16 := 0x25
  const NEWLINE: Char16 := 0x0A
  const RETURN: Char16 := 0x0D
  const QUESTION_MARK: Char16 := 0x3F
  const NULL_TEXT: Text := [0x28, 0x6E, 0x75, 0x6C, 0x6C, 0x29]
  const UNSET: nat := 0xFFFF_FFFF_FFFF_FFFF

  /** One argument: the low 64 bits of an integer, a string or NULL, or what one of the converters that
      are not modelled here (%g, %f, %t, %r) makes of it. */
  datatype Arg = Number(n: UInt64) | String(s: Text) | NullString | Converted(text: Text)

  predicate ArgsAreStrings(args: seq<Arg>) {
    forall i :: 0 <= i < |args| ==>
      (args[i].String? ==> IsCString(args[i].s)) && (args[i].Converted? ==> IsCString(args[i].text))
  }

  datatype Option<T> = None | Some(value: T)

  datatype Item = Item(fieldWidth: UInt64, width: UInt64, parseField: bool, pad: Char16, padBefore: bool,
                       comma: bool, long: bool) {
    /** `*Item.WidthParse = w` */
    function Parsed(w: UInt64): Item {
      if parseField then this.(fieldWidth := w) else this.(width := w)
    }
  }

  const NEW_ITEM := Item(UNSET, 0, false, BLANK, true, false, false)

  function Fill(c: Char16, n: int): (t: Text)
    ensures |t| == if n > 0 then n else 0
    ensures c != 0 ==> IsCString(t)
  {
    if n <= 0 then [] else seq(n, _ => c)
  }

  /** An item in its field: cut to the field width, padded to its own width, blanks up to the field. */
  function InField(text: Text, item: Item): (t: Text)
    ensures IsCString(text) && item.pad != 0 ==> IsCString(t)
  {
    var len := Least(|text|, item.fieldWidth);
    var field := if item.fieldWidth == UNSET then len else item.fieldWidth;
    var width := Greatest(item.width, len);
    (if item.padBefore then Fill(BLANK, field - width) else []) +
    Fill(item.pad, width - len) + text[..len] +
    (if item.padBefore then [] else Fill(BLANK, field - width))
  }

  predicate IsDigit(c: Char16) { 0x30 <= c <= 0x39 }

  /** The end of the run of digits at `i`. */
  function DigitsEnd(fmt: Text, i: nat): (e: nat)
    requires i <= |fmt|
    ensures i <= e <= |fmt|
    ensures forall j :: i <= j < e ==> IsDigit(fmt[j])
    ensures e < |fmt| ==> !IsDigit(fmt[e])
    decreases |fmt| - i
  {
    if i < |fmt| && IsDigit(fmt[i]) then DigitsEnd(fmt, i + 1) else i
  }

  function DigitValue(c: Char16): nat {
    if IsDigit(c) then c as int - 0x30 else 0
  }

  function DigitValues(t: Text): (ds: seq<nat>)
    ensures |ds| == |t|
  {
    seq(|t|, j requires 0 <= j < |t| => DigitValue(t[j]))
  }

  /** The width written at `i`, modulo 2^64. */
  function WidthAt(fmt: Text, i: nat): UInt64
    requires i <= |fmt|
  {
    Value(DigitValues(fmt[i..DigitsEnd(fmt, i)]), 10) % WIDE
  }

  /** (INT32) or (INT64) of an argument for %d; %u passes the unsigned value through the same INT64. */
  function SignedArg(n: UInt64, long: bool): Int64 {
    if long then ToInt64(n) else (n % 0x1_0000_0000 + 0x8000_0000) % 0x1_0000_0000 - 0x8000_0000
  }

  function UnsignedArg(n: UInt64, long: bool): UInt64 {
    if long then n else n % 0x1_0000_0000
  }

  function CharText(n: UInt64): Text {
    if n % 0x1_0000 == 0 then [] else [(n % 0x1_0000) as Char16]
  }

  /** The converters: the text a directive letter makes of the next argument, and whether it takes one.
      None when the argument is missing or of another kind. */
  function Convert(c: Char16, args: seq<Arg>, item: Item): Option<(Text, nat)> {
    if c == PERCENT then Some(([PERCENT], 0))
    else if c !in TAKES_ARGUMENT then Some(([QUESTION_MARK], 0))
    else if args == [] then None
    else
      match args[0]
      case String(s) => if c == 0x61 || c == 0x73 then Some((s, 1)) else None
      case NullString => if c == 0x61 || c == 0x73 then Some((NULL_TEXT, 1)) else None
      case Converted(text) => if c in {0x67, 0x66, 0x74, 0x72} then Some((text, 1)) else None
      case Number(n) =>
        if c == 0x63 then Some((CharText(n), 1))
        else if c == 0x58 || c == 0x78 then Some((HexText(UnsignedArg(n, item.long)), 1))
        else if c == 0x75 then Some((DecimalText(item.comma, ToInt64(UnsignedArg(n, item.long))), 1))
        else if c == 0x64 then Some((DecimalText(item.comma, SignedArg(n, item.long)), 1))
        else None
  }

  /** a s c X x g u d f t r */
  const TAKES_ARGUMENT: set<Char16> := {0x61, 0x73, 0x63, 0x58, 0x78, 0x67, 0x75, 0x64, 0x66, 0x74, 0x72}

  /** n h e N H E: attributes, which the local outputs do not have; the directive goes on. */
  const ATTRIBUTES: set<Char16> := {0x6E, 0x68, 0x65, 0x4E, 0x48, 0x45}

  /** The letters that set something of an item and take nothing: 0 - , . l and the attributes. */
  predicate IsFlag(c: Char16) { c in {0x30, 0x2D, 0x2C, 0x2E, 0x6C} || c in ATTRIBUTES }

  function Flagged(item: Item, c: Char16): Item {
    item.(pad := if c == 0x30 then 0x30 else item.pad,
          padBefore := item.padBefore && c != 0x2D,
          comma := item.comma || c == 0x2C,
          parseField := item.parseField || c == 0x2E,
          long := item.long || c == 0x6C)
  }

  /** What one character that does not end a directive does to the item; None for one that ends it, or a
      `*` without its argument. */
  function Modify(fmt: Text, i: nat, args: seq<Arg>, item: Item): Option<(Item, nat, nat)>
    requires i < |fmt|
    ensures Modify(fmt, i, args, item).Some? ==>
      i < Modify(fmt, i, args, item).value.1 <= |fmt| && Modify(fmt, i, args, item).value.2 <= |args|
    ensures Modify(fmt, i, args, item).Some? && item.pad != 0 ==> Modify(fmt, i, args, item).value.0.pad != 0
  {
    var c := fmt[i];
    if IsFlag(c) then Some((Flagged(item, c), i + 1, 0))
    else if c == 0x2A then
      if args != [] && args[0].Number? then Some((item.Parsed(args[0].n), i + 1, 1)) else None
    else if 0x31 <= c <= 0x39 then Some((item.Parsed(WidthAt(fmt, i)), DigitsEnd(fmt, i + 1), 0))
    else None
  }

  predicate EndsDirective(c: Char16) {
    !IsFlag(c) && c != 0x2A && !(0x31 <= c <= 0x39)
  }

  /** %X is %x in a zero padded field of fixed width. */
  function Finished(c: Char16, item: Item): Item {
    if c == 0x58 then item.(width := if item.long then 16 else 8, pad := 0x30) else item
  }

  /** One directive from behind its `%`: its text, where it ends and how many arguments it took.  None
      when the format ends inside it or an argument does not fit. */
  function Directive(fmt: Text, i: nat, args: seq<Arg>, item: Item): (r: Option<(Text, nat, nat)>)
    requires i <= |fmt|
    ensures r.Some? ==> i < r.value.1 <= |fmt| && r.value.2 <= |args|
    decreases |fmt| - i
  {
    if i == |fmt| then None
    else if EndsDirective(fmt[i]) then
      match Convert(fmt[i], args, item)
      case None => None
      case Some(t) => Some((InField(t.0, Finished(fmt[i], item)), i + 1, t.1))
    else
      match Modify(fmt, i, args, item)
      case None => None
      case Some(m) =>
        match Directive(fmt, m.1, args[m.2..], m.0)
        case None => None
        case Some(r) => Some((r.0, r.1, m.2 + r.2))
  }

  /** The logical output of a format. */
  function Render(fmt: Text, i: nat, args: seq<Arg>): Option<Text>
    requires i <= |fmt|
    decreases |fmt| - i
  {
    if i == |fmt| then Some([])
    else if fmt[i] != PERCENT then
      match Render(fmt, i + 1, args)
      case None => None
      case Some(t) => Some([fmt[i]] + t)
    else
      match Directive(fmt, i + 1, args, NEW_ITEM)
      case None => None
      case Some(d) =>
        match Render(fmt, d.1, args[d.2..])
        case None => None
        case Some(t) => Some(d.0 + t)
  }

  /** Every newline gets a carriage return in front. */
  function Expand(t: Text): (r: Text)
    ensures IsCString(t) ==> IsCString(r)
  {
    if t == [] then []
    else (if t[0] == NEWLINE then [RETURN, NEWLINE] else [t[0]]) + Expand(t[1..])
  }

  lemma {:induction false} ExpandAppends(a: Text, b: Text)
    ensures Expand(a + b) == Expand(a) + Expand(b)
    decreases |a|
  {
    if a == [] {
      assert a + b == b;
    } else {
      assert (a + b)[1..] == a[1..] + b;
      ExpandAppends(a[1..], b);
    }
  }

  // ------------------------------------------------------------------------- joining formats

  /** How many arguments a format takes. */
  function Taken(fmt: Text, i: nat, args: seq<Arg>): nat
    requires i <= |fmt| && Render(fmt, i, args).Some?
    ensures Taken(fmt, i, args) <= |args|
    decreases |fmt| - i
  {
    if i == |fmt| then 0
    else if fmt[i] != PERCENT then Taken(fmt, i + 1, args)
    else
      var d := Directive(fmt, i + 1, args, NEW_ITEM).value;
      d.2 + Taken(fmt, d.1, args[d.2..])
  }

  lemma {:induction false} DigitsEndJoins(f: Text, g: Text, i: nat)
    requires i <= |f| && DigitsEnd(f, i) < |f|
    ensures DigitsEnd(f + g, i) == DigitsEnd(f, i)
    decreases |f| - i
  {
    if IsDigit(f[i]) {
      DigitsEndJoins(f, g, i + 1);
    }
  }

  lemma ConvertJoins(c: Char16, args: seq<Arg>, more: seq<Arg>, item: Item)
    requires Convert(c, args, item).Some?
    ensures Convert(c, args + more, item) == Convert(c, args, item)
  {
  }

  lemma ModifyJoins(f: Text, g: Text, i: nat, args: seq<Arg>, more: seq<Arg>, item: Item)
    requires i < |f| && Modify(f, i, args, item).Some? && Modify(f, i, args, item).value.1 < |f|
    ensures Modify(f + g, i, args + more, item) == Modify(f, i, args, item)
  {
    hide DigitsEnd, WidthAt;
    if 0x31 <= f[i] <= 0x39 {
      WidthJoins(f, g, i);
    }
  }

  lemma WidthJoins(f: Text, g: Text, i: nat)
    requires i < |f| && IsDigit(f[i]) && DigitsEnd(f, i + 1) < |f|
    ensures WidthAt(f + g, i) == WidthAt(f, i) && DigitsEnd(f + g, i + 1) == DigitsEnd(f, i + 1)
  {
    DigitsEndJoins(f, g, i);
    DigitsEndJoins(f, g, i + 1);
    assert (f + g)[i..DigitsEnd(f, i)] == f[i..DigitsEnd(f, i)];
  }

  lemma {:induction false} DirectiveJoins(f: Text, g: Text, i: nat, args: seq<Arg>, more: seq<Arg>, item: Item)
    requires i <= |f| && Directive(f, i, args, item).Some?
    ensures Directive(f + g, i, args + more, item) == Directive(f, i, args, item)
    decreases |f| - i
  {
    hide Convert, Modify, InField, EndsDirective;
    if EndsDirective(f[i]) {
      ConvertJoins(f[i], args, more, item);
    } else {
      var m := Modify(f, i, args, item).value;
      ModifyJoins(f, g, i, args, more, item);
      DirectiveJoins(f, g, m.1, args[m.2..], more, m.0);
      assert (args + more)[m.2..] == args[m.2..] + more;
    }
  }

  /** Formats joined, with their arguments joined, stand for their texts joined: no directive reaches from
      one into the other. */
  lemma {:induction false} RenderJoins(f: Text, g: Text, i: nat, args: seq<Arg>, more: seq<Arg>)
    requires i <= |f| && Render(f, i, args).Some? && Taken(f, i, args) == |args| && Render(g, 0, more).Some?
    ensures Render(f + g, i, args + more) == Some(Render(f, i, args).value + Render(g, 0, more).value)
    decreases |f| - i
  {
    hide Directive;
    if i == |f| {
      assert args + more == more && [] + Render(g, 0, more).value == Render(g, 0, more).value;
      RenderShifts(f, g, 0, more);
    } else if f[i] != PERCENT {
      RenderJoins(f, g, i + 1, args, more);
      var t, u := Render(f, i + 1, args).value, Render(g, 0, more).value;
      assert [f[i]] + t + u == [f[i]] + (t + u);
    } else {
      var d := Directive(f, i + 1, args, NEW_ITEM).value;
      DirectiveJoins(f, g, i + 1, args, more, NEW_ITEM);
      RenderJoins(f, g, d.1, args[d.2..], more);
      assert (args + more)[d.2..] == args[d.2..] + more;
      var t, u := Render(f, d.1, args[d.2..]).value, Render(g, 0, more).value;
      assert d.0 + t + u == d.0 + (t + u);
    }
  }

  /** Reading `g` behind `f`. */
  lemma {:induction false} RenderShifts(f: Text, g: Text, i: nat, args: seq<Arg>)
    requires i <= |g|
    ensures Render(f + g, |f| + i, args) == Render(g, i, args)
    decreases |g| - i
  {
    hide Directive;
    if i < |g| {
      if g[i] != PERCENT {
        RenderShifts(f, g, i + 1, args);
      } else {
        DirectiveShifts(f, g, i + 1, args, NEW_ITEM);
        var d := Directive(g, i + 1, args, NEW_ITEM);
        if d.Some? {
          RenderShifts(f, g, d.value.1, args[d.value.2..]);
        }
      }
    }
  }

  function MovedBy(d: Option<(Text, nat, nat)>, n: nat): Option<(Text, nat, nat)> {
    match d
    case None => None
    case Some(r) => Some((r.0, n + r.1, r.2))
  }

  lemma {:induction false} DirectiveShifts(f: Text, g: Text, i: nat, args: seq<Arg>, item: Item)
    requires i <= |g|
    ensures Directive(f + g, |f| + i, args, item) == MovedBy(Directive(g, i, args, item), |f|)
    decreases |g| - i
  {
    hide Convert, Modify, InField, EndsDirective;
    if i < |g| && !EndsDirective(g[i]) {
      ModifyShifts(f, g, i, args, item);
      var m := Modify(g, i, args, item);
      if m.Some? {
        DirectiveShifts(f, g, m.value.1, args[m.value.2..], m.value.0);
      }
    }
  }

  lemma ModifyShifts(f: Text, g: Text, i: nat, args: seq<Arg>, item: Item)
    requires i < |g|
    ensures var m, m' := Modify(g, i, args, item), Modify(f + g, |f| + i, args, item);
      if m.None? then m'.None? else m'.Some? && m'.value == (m.value.0, |f| + m.value.1, m.value.2)
  {
    hide DigitsEnd;
    DigitsEndShifts(f, g, i);
    DigitsEndShifts(f, g, i + 1);
    assert (f + g)[|f| + i..|f| + DigitsEnd(g, i)] == g[i..DigitsEnd(g, i)];
  }

  lemma {:induction false} DigitsEndShifts(f: Text, g: Text, i: nat)
    requires i <= |g|
    ensures DigitsEnd(f + g, |f| + i) == |f| + DigitsEnd(g, i)
    decreases |g| - i
  {
    if i < |g| && IsDigit(g[i]) {
      DigitsEndShifts(f, g, i + 1);
    }
  }

  lemma FlagStep(fmt: Text, i: nat, args: seq<Arg>, item: Item)
    requires i < |fmt| && IsFlag(fmt[i])
    ensures Directive(fmt, i, args, item) == Directive(fmt, i + 1, args, Flagged(item, fmt[i]))
  {
    hide InField, Convert;
    assert args[0..] == args;
  }

  lemma FlagsCommute(item: Item, a: Char16, b: Char16)
    ensures Flagged(Flagged(item, a), b) == Flagged(Flagged(item, b), a)
  {
  }

  /** Two flags in a row mean the same in either order. */
  lemma FlagsInAnyOrder(f: Text, a: Char16, b: Char16, g: Text, args: seq<Arg>, item: Item)
    requires IsFlag(a) && IsFlag(b)
    ensures Directive(f + [a, b] + g, |f|, args, item) == Directive(f + [b, a] + g, |f|, args, item)
  {
    hide Directive, Flagged, IsFlag;
    TwoFlags(f, a, b, g, args, item);
    TwoFlags(f, b, a, g, args, item);
    FlagsCommute(item, a, b);
  }

  lemma TwoFlags(f: Text, a: Char16, b: Char16, g: Text, args: seq<Arg>, item: Item)
    requires IsFlag(a) && IsFlag(b)
    ensures Directive(f + [a, b] + g, |f|, args, item) ==
      MovedBy(Directive(g, 0, args, Flagged(Flagged(item, a), b)), |f| + 2)
  {
    hide Directive, Flagged, IsFlag, MovedBy;
    var fmt := f + [a, b] + g;
    assert fmt[|f|] == a && fmt[|f| + 1] == b;
    FlagStep(fmt, |f|, args, item);
    FlagStep(fmt, |f| + 1, args, Flagged(item, a));
    DirectiveShifts(f + [a, b], g, 0, args, Flagged(Flagged(item, a), b));
  }

  // --------------------------------------------------------------- what some formats stand for

  /** A format without directives stands for itself. */
  lemma {:induction false} PlainFormat(fmt: Text, i: nat, args: seq<Arg>)
    requires i <= |fmt| && PERCENT !in fmt[i..]
    ensures Render(fmt, i, args) == Some(fmt[i..])
    decreases |fmt| - i
  {
    hide Directive;
    if i == |fmt| {
      assert fmt[i..] == [];
    } else {
      assert fmt[i] in fmt[i..] && forall c :: c in fmt[i + 1..] ==> c in fmt[i..];
      PlainFormat(fmt, i + 1, args);
      assert [fmt[i]] + fmt[i + 1..] == fmt[i..];
    }
  }

  /** An item in its field is as wide as the widest of text, width and field, and the text, cut to the
      field, stands at its right end, or at its left behind the item's own padding. */
  lemma InFieldShape(text: Text, item: Item)
    ensures var t, len := InField(text, item), Least(|text|, item.fieldWidth);
      var field := if item.fieldWidth == UNSET then len else item.fieldWidth;
      && |t| == Greatest(Greatest(len, item.width), field)
      && (item.padBefore ==> t[|t| - len..] == text[..len])
      && (!item.padBefore ==> var p := Greatest(item.width, len) - len; t[p..p + len] == text[..len])
      && forall i :: 0 <= i < |t| && !(if item.padBefore then i >= |t| - len else
                                         Greatest(item.width, len) - len <= i < Greatest(item.width, len)) ==>
           t[i] == item.pad || t[i] == BLANK
  {
    hide InField, Fill;
    var len := Least(|text|, item.fieldWidth);
    var field, width := if item.fieldWidth == UNSET then len else item.fieldWidth, Greatest(item.width, len);
    var blanks, pads := Fill(BLANK, field - width), Fill(item.pad, width - len);
    FillCells(BLANK, field - width);
    FillCells(item.pad, width - len);
    InFieldIs(text, item);
    if item.padBefore {
      ThreeParts(blanks, pads, text[..len]);
    } else {
      ThreeParts(pads, text[..len], blanks);
    }
  }

  lemma InFieldIs(text: Text, item: Item)
    ensures var len := Least(|text|, item.fieldWidth);
      var field, width := if item.fieldWidth == UNSET then len else item.fieldWidth, Greatest(item.width, len);
      var blanks, pads := Fill(BLANK, field - width), Fill(item.pad, width - len);
      InField(text, item) == if item.padBefore then blanks + pads + text[..len] else pads + text[..len] + blanks
  {
    hide Fill;
  }

  lemma FillCells(c: Char16, n: int)
    ensures forall i :: 0 <= i < |Fill(c, n)| ==> Fill(c, n)[i] == c
  {
  }

  lemma ThreeParts(a: Text, b: Text, c: Text)
    ensures var t := a + b + c;
      && |t| == |a| + |b| + |c|
      && t[|a|..|a| + |b|] == b && t[|a| + |b|..] == c
      && (forall i :: 0 <= i < |a| ==> t[i] == a[i])
      && (forall i :: |a| <= i < |a| + |b| ==> t[i] == b[i - |a|])
      && (forall i :: |a| + |b| <= i < |t| ==> t[i] == c[i - |a| - |b|])
  {
  }

  /** `%lx` prints what xtoi reads back, and `%ld` what Atoi reads back when it is not negative. */
  lemma PrintedNumbersReadBack(v: UInt64)
    ensures Render([PERCENT, 0x6C, 0x78], 0, [Number(v)]) == Some(HexText(v))
    ensures Value(DigitPrefix(SkipBlanks(HexText(v)), 16), 16) % WIDE == v
    ensures v < HALF_WIDE ==>
      && Render([PERCENT, 0x6C, 0x64], 0, [Number(v)]) == Some(DecimalText(false, v))
      && Value(DigitPrefix(SkipBlanks(DecimalText(false, v)), 10), 10) % WIDE == v
  {
    hide *;
    LongHex(v);
    HexRoundTrip(v);
    LongNumber(0x78, v, HexText(v));
    if v < HALF_WIDE {
      LongDecimal(v);
      DecimalRoundTrip(v);
      LongNumber(0x64, v, DecimalText(false, v));
    }
  }

  lemma LongHex(v: UInt64)
    ensures |HexText(v)| < UNSET && EndsDirective(0x78)
    ensures Convert(0x78, [Number(v)], NEW_ITEM.(long := true)) == Some((HexText(v), 1))
  {
    hide HexText;
    HexFits(v);
  }

  lemma LongDecimal(v: UInt64)
    requires v < HALF_WIDE
    ensures |DecimalText(false, v)| < UNSET && EndsDirective(0x64)
    ensures Convert(0x64, [Number(v)], NEW_ITEM.(long := true)) == Some((DecimalText(false, v), 1))
  {
    hide DecimalText;
    DecimalFits(false, v);
  }

  lemma LongNumber(c: Char16, v: UInt64, text: Text)
    requires c != 0x6C && EndsDirective(c) && |text| < UNSET
    requires Convert(c, [Number(v)], NEW_ITEM.(long := true)) == Some((text, 1)) && c != 0x58
    ensures Render([PERCENT, 0x6C, c], 0, [Number(v)]) == Some(text)
  {
    hide Convert;
    var fmt, args := [PERCENT, 0x6C, c], [Number(v)];
    assert args[0..] == args && args[1..] == [];
    InFieldShape(text, NEW_ITEM.(long := true));
    assert text[..|text|] == text;
    assert InField(text, NEW_ITEM.(long := true)) == text;
    assert Directive(fmt, 2, args, NEW_ITEM.(long := true)) == Some((text, 3, 1));
    assert Modify(fmt, 1, args, NEW_ITEM) == Some((NEW_ITEM.(long := true), 2, 0));
    assert Directive(fmt, 1, args, NEW_ITEM) == Some((text, 3, 1));
    assert text + [] == text;
  }
}
