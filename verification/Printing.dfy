/** print.c: the chunk buffer of _Print and the two local outputs behind SPrint and CatPrint. */
module Printing {
  import opened Basics
  import opened CStrings
  import opened Numbers
  import opened Formats
  import opened PoolMemory

  const PRINT_STRING_LEN := 200
  const CHAR16_SIZE := 2

  // ---------------------------------------------------------------------------- the outputs

  method StrLen(buffer: array<Char16>, ghost t: Text) returns (n: nat)
    requires Holds(buffer[..], t) && IsCString(t)
    ensures n == |t| < buffer.Length
  {
    n := 0;
    assert forall i :: 0 <= i < |t| ==> buffer[i] == buffer[..|t|][i] == t[i];
    while buffer[n] != 0
      invariant n <= |t|
      decreases |t| - n
    {
      n := n + 1;
    }
  }

  /** The block a pointer owns. */
  function Block(p: array?<Char16>): seq<array<Char16>> {
    if p == null then [] else [p]
  }

  /** POOL_PRINT, with the blocks it has given back. */
  class PoolPrint {
    var str: array?<Char16>
    var len: nat
    var maxlen: nat
    ghost var failures: nat
    ghost var released: seq<array<Char16>>

    ghost function Contents(): Text
      reads this, str
    {
      if str == null || len > str.Length then [] else str[..len]
    }

    /** Between calls of CatPrint: no text at all, or a terminated text with room to spare. */
    ghost predicate Pooled()
      reads this, str
    {
      if str == null then len == 0 && maxlen == 0
      else len < maxlen == str.Length && str[len] == 0
    }

    /** What is appended at most `maxlen` long, and its terminator, stay within the buffer. */
    ghost predicate RoomFor(n: nat)
      reads this, str
    {
      && len <= maxlen
      && (str == null ==> maxlen == 0)
      && (str != null ==>
            && len + Least(n, maxlen - len) <= str.Length
            && (maxlen > 0 ==> len + Least(n, maxlen - len) < str.Length))
    }

    /** _SPrint: append what fits, and terminate it. */
    method SPrintOutput(buffer: array<Char16>, ghost chunk: Text)
      requires Holds(buffer[..], chunk) && IsCString(chunk) && buffer != str
      requires RoomFor(|chunk|)
      modifies this`len, str
      ensures len == old(len) + Least(|chunk|, maxlen - old(len))
      ensures Contents() == old(Contents()) + chunk[..len - old(len)]
      ensures maxlen > 0 ==> str != null && len < str.Length && str[len] == 0
      ensures maxlen == 0 && str != null ==> str[..] == old(str[..])
      ensures str != null ==> forall k :: len < k < str.Length ==> str[k] == old(str[k])
    {
      hide Holds, IsCString;
      var n := StrLen(buffer, chunk);
      if len + n > maxlen {
        n := maxlen - len;
      }
      if n > 0 {
        CopyText(buffer, n, chunk);
      }
      len := len + n;
      if len < maxlen {
        str[len] := 0;
      } else if maxlen != 0 {
        str[maxlen] := 0;
      }
    }

    /** The first `n` characters of the chunk, behind the text. */
    method CopyText(buffer: array<Char16>, n: nat, ghost chunk: Text)
      requires Holds(buffer[..], chunk) && n <= |chunk| && buffer != str && str != null && len + n <= str.Length
      modifies str
      ensures str[..len + n] == old(Contents()) + chunk[..n]
      ensures forall k :: len + n <= k < str.Length ==> str[k] == old(str[k])
    {
      hide Holds;
      HeldFront(buffer[..], chunk, n);
      OverwrittenParts(str[..], len, chunk[..n]);
      CopyMem(str, len, buffer, 0, n);
    }

    /** _PoolPrint: grow first if the text, with its terminator, would not fit.  If the allocation fails
        the text is gone and the context is empty again. */
    method PoolPrintOutput(buffer: array<Char16>, ghost chunk: Text)
      requires Holds(buffer[..], chunk) && IsCString(chunk) && buffer != str
      requires Pooled()
      modifies this, str
      ensures Pooled() && (str == null || str == old(str) || fresh(str))
      ensures failures == old(failures) ==> str != null && Contents() == old(Contents()) + chunk
      ensures failures != old(failures) ==> failures == old(failures) + 1 && str == null
      ensures released == old(released) + if str == old(str) then [] else Block(old(str))
      ensures str != old(str) && str != null ==>
        old(len) + |chunk| + 1 > old(maxlen) && str.Length == old(len) + |chunk| + 201
    {
      var n := StrLen(buffer, chunk);
      var newlen := len + n + 1;
      if newlen > maxlen {
        newlen := newlen + PRINT_STRING_LEN;
        maxlen := newlen;
        Reallocate(newlen);
        if str == null {
          len := 0;
          maxlen := 0;
          failures := failures + 1;
        }
      }
      SPrintOutput(buffer, chunk);
    }

    /** ReallocatePool on the text: a larger block that begins with it, or NULL. */
    method Reallocate(newSize: nat)
      requires len < newSize && (if str == null then len == 0 else len <= str.Length)
      modifies this`str, this`released
      ensures str == null || (fresh(str) && str.Length == newSize && Contents() == old(Contents()))
      ensures len == old(len) && released == old(released) + Block(old(str))
    {
      var oldPool := str;
      var newPool := AllocatePool<Char16>(newSize);
      if oldPool != null {
        if newPool != null {
          CopyMem(newPool, 0, oldPool, 0, len);
        }
        FreePool(oldPool);
      }
      str := newPool;
    }

    /** The block is given back; what it held is not looked at any more. */
    ghost method FreePool(p: array<Char16>)
      modifies this`released
      ensures released == old(released) + [p]
    {
      released := released + [p];
    }
  }

  // ------------------------------------------------------------------------- the chunk buffer

  /** PRINT_STATE, with the context it prints to.  `sent` is what has been flushed; `lost` is how much of
      it went with failed allocations. */
  class PrintState {
    const spc: PoolPrint
    const pool: bool
    const Buffer: array<Char16>
    var Pos: nat
    var Len: nat
    ghost const base: Text
    ghost const failed: nat
    ghost const home: array?<Char16>
    ghost const cells: Text
    ghost const limit: nat
    ghost var sent: Text
    ghost var lost: nat

    /** Everything put so far, flushed or not. */
    ghost function Out(): Text
      reads this, Buffer
    {
      sent + (if Pos <= Buffer.Length then Buffer[..Pos] else [])
    }

    /** The context holds what was sent: all of it behind what was there before, or its front up to the
        limit. */
    ghost predicate SinkHolds()
      reads this, spc, spc.str
    {
      if pool then
        && spc.Pooled() && lost <= |base| + |sent|
        && spc.Contents() == (base + sent)[lost..]
        && spc.failures >= failed && (spc.failures == failed ==> lost == 0)
      else
        && base == [] && spc.str != null && spc.str == home && spc.maxlen == limit && |cells| == home.Length
        && spc.len == Least(|sent|, limit) <= |cells|
        && spc.str[..spc.len] == sent[..spc.len]
        && (limit == 0 ==> spc.str[..] == cells)
        && (forall k :: spc.len < k < |cells| ==> spc.str[k] == cells[k])
    }

    ghost predicate Valid()
      reads this, Buffer, spc, spc.str
    {
      && Buffer.Length == PRINT_STRING_LEN && Pos < PRINT_STRING_LEN
      && Buffer != spc.str
      && IsCString(Buffer[..Pos])
      && Len == |sent| + Pos
      && SinkHolds()
    }

    /** A limit below the size of the buffer, or else a buffer with room for `n` more and the terminator. */
    ghost predicate Room(n: nat)
      reads this`Len
    {
      pool || limit < |cells| || Len + n < |cells|
    }

    constructor (context: PoolPrint, growing: bool)
      requires if growing then context.Pooled() else context.str != null && context.len == 0
      ensures Valid() && Pos == 0 && Len == 0 && Out() == [] && spc == context && pool == growing
      ensures fresh(Buffer) && Buffer.Length == 200
      ensures base == (if growing then context.Contents() else []) && failed == context.failures && lost == 0
      ensures home == context.str && limit == context.maxlen && cells == (if growing then [] else context.str[..])
    {
      spc, pool := context, growing;
      Buffer := new Char16[PRINT_STRING_LEN];
      Pos, Len := 0, 0;
      base := if growing then context.Contents() else [];
      failed := context.failures;
      home, limit := context.str, context.maxlen;
      cells := if growing then [] else context.str[..];
      sent, lost := [], 0;
    }

    /** What is in the text buffer after a flush ends with a terminator. */
    ghost predicate Terminated()
      reads this, spc, spc.str
    {
      && (spc.maxlen > 0 ==> spc.str != null && spc.len < spc.str.Length && spc.str[spc.len] == 0)
      && (pool && spc.failures == failed ==> spc.str != null)
    }

    method PFlush()
      requires Valid() && Room(0)
      modifies this, Buffer, spc, spc.str
      ensures Valid() && Pos == 0 && Len == old(Len) && Out() == old(Out()) && Terminated()
      ensures spc.str == null || spc.str == old(spc.str) || fresh(spc.str)
    {
      ghost var chunk := Buffer[..Pos];
      Buffer[Pos] := 0;
      assert Buffer[..Pos] == chunk;
      if pool {
        OutputToPool(chunk);
      } else {
        OutputToString(chunk);
      }
      Pos := 0;
    }

    method OutputToPool(ghost chunk: Text)
      requires pool && SinkHolds() && Buffer != spc.str && Holds(Buffer[..], chunk) && IsCString(chunk)
      modifies this`sent, this`lost, spc, spc.str
      ensures SinkHolds() && sent == old(sent) + chunk && Terminated()
      ensures spc.str == null || spc.str == old(spc.str) || fresh(spc.str)
    {
      ghost var before := spc.failures;
      spc.PoolPrintOutput(Buffer, chunk);
      sent := sent + chunk;
      if spc.failures != before {
        lost := |base| + |sent|;
      }
      TailGrows(base, old(sent), chunk, old(lost));
    }

    method OutputToString(ghost chunk: Text)
      requires !pool && SinkHolds() && Buffer != spc.str && Holds(Buffer[..], chunk) && IsCString(chunk)
      requires limit < |cells| || |sent| + |chunk| < |cells|
      modifies this`sent, spc, spc.str
      ensures SinkHolds() && sent == old(sent) + chunk && Terminated()
      ensures spc.str == old(spc.str)
    {
      FrontGrows(sent, chunk, limit);
      spc.SPrintOutput(Buffer, chunk);
      sent := sent + chunk;
    }

    method PPutc(c: Char16)
      requires Valid() && Pos < PRINT_STRING_LEN - 1 && c != 0 && Room(|Expand([c])|)
      modifies this, Buffer, spc, spc.str
      ensures Valid() && Pos < PRINT_STRING_LEN - 1
      ensures Len == old(Len) + |Expand([c])| && Out() == old(Out()) + Expand([c])
      ensures spc.str == null || spc.str == old(spc.str) || fresh(spc.str)
      decreases c == NEWLINE
    {
      ExpandOne(c);
      if c == NEWLINE {
        ExpandOne(RETURN);
        PPutc(RETURN);
      }
      Store(c);
    }

    /** Puts one cell; if that was the last one, flushes the buffer. */
    method Store(c: Char16)
      requires Valid() && Pos < PRINT_STRING_LEN - 1 && c != 0 && Room(1)
      modifies this, Buffer, spc, spc.str
      ensures Valid() && Pos < PRINT_STRING_LEN - 1
      ensures Len == old(Len) + 1 && Out() == old(Out()) + [c]
      ensures spc.str == null || spc.str == old(spc.str) || fresh(spc.str)
    {
      ghost var was := Out();
      Buffer[Pos] := c;
      Pos := Pos + 1;
      Len := Len + 1;
      assert Out() == was + [c];
      if Pos >= PRINT_STRING_LEN - 1 {
        PFlush();
      }
    }

    /** The padding loops: one character from `from` up to `to`. */
    method PFill(c: Char16, from: int, to: int)
      requires Valid() && Pos < PRINT_STRING_LEN - 1 && c != 0 && Room(|Expand(Fill(c, to - from))|)
      modifies this, Buffer, spc, spc.str
      ensures Valid() && Pos < PRINT_STRING_LEN - 1
      ensures Len == old(Len) + |Expand(Fill(c, to - from))| && Out() == old(Out()) + Expand(Fill(c, to - from))
      ensures spc.str == null || spc.str == old(spc.str) || fresh(spc.str)
    {
      hide Expand, Fill, Valid, Out;
      ghost var was, t := Out(), Fill(c, to - from);
      FillLength(c, to - from);
      ExpandNothing(was, t);
      var i := from;
      while i < to
        invariant from <= i && i - from <= |t|
        invariant Valid() && Pos < PRINT_STRING_LEN - 1
        invariant Len == old(Len) + |Expand(t[..i - from])| && Out() == was + Expand(t[..i - from])
        invariant Room(|Expand(t[i - from..])|)
        invariant spc.str == null || spc.str == old(spc.str) || fresh(spc.str)
      {
        FillCell(c, to - from, i - from);
        ExpandStep(was, t, i - from);
        PPutc(c);
        i := i + 1;
      }
      assert t[..i - from] == t;
    }

    /** PGETC and PPUTC until `len` characters of the item are put. */
    method PPutFront(pw: seq<Char16>, len: nat, ghost text: Text)
      requires Holds(pw, text) && IsCString(text) && len <= |text|
      requires Valid() && Pos < PRINT_STRING_LEN - 1 && Room(|Expand(text[..len])|)
      modifies this, Buffer, spc, spc.str
      ensures Valid() && Pos < PRINT_STRING_LEN - 1
      ensures Len == old(Len) + |Expand(text[..len])| && Out() == old(Out()) + Expand(text[..len])
      ensures spc.str == null || spc.str == old(spc.str) || fresh(spc.str)
    {
      hide Expand, Holds, Valid, Out;
      ghost var was, t := Out(), text[..len];
      ExpandNothing(was, t);
      var Index := 0;
      while Index < len
        invariant 0 <= Index <= len
        invariant Valid() && Pos < PRINT_STRING_LEN - 1
        invariant Len == old(Len) + |Expand(t[..Index])| && Out() == was + Expand(t[..Index])
        invariant Room(|Expand(t[Index..])|)
        invariant spc.str == null || spc.str == old(spc.str) || fresh(spc.str)
      {
        HeldCharacter(pw, text, Index);
        ExpandStep(was, t, Index);
        PPutc(pw[Index]);
        Index := Index + 1;
      }
      assert t[..Index] == t;
    }

    /** The item, cut and padded as its fields say. */
    method PItem(pw: seq<Char16>, item: Item, ghost text: Text)
      requires Holds(pw, text) && IsCString(text) && item.pad != 0
      requires Valid() && Pos < PRINT_STRING_LEN - 1 && Room(|Expand(InField(text, item))|)
      modifies this, Buffer, spc, spc.str
      ensures Valid() && Pos < PRINT_STRING_LEN - 1
      ensures Len == old(Len) + |Expand(InField(text, item))| && Out() == old(Out()) + Expand(InField(text, item))
      ensures spc.str == null || spc.str == old(spc.str) || fresh(spc.str)
    {
      hide Expand, Fill, InField;
      var len := ItemLength(pw, item.fieldWidth, text);
      var fieldWidth := if item.fieldWidth == UNSET then len else item.fieldWidth;
      var width := if len > item.width then len else item.width;
      InFieldParts(text, item, len, width, fieldWidth);
      PParts(pw, item.padBefore, item.pad, len, width, fieldWidth, text);
    }

    method PParts(pw: seq<Char16>, padBefore: bool, pad: Char16, len: nat, width: nat, fieldWidth: nat,
                  ghost text: Text)
      requires Holds(pw, text) && IsCString(text) && pad != 0 && len <= |text|
      requires Valid() && Pos < PRINT_STRING_LEN - 1
      requires Room(|Expand(Parts(text, padBefore, pad, len, width, fieldWidth))|)
      modifies this, Buffer, spc, spc.str
      ensures Valid() && Pos < PRINT_STRING_LEN - 1
      ensures var t := Expand(Parts(text, padBefore, pad, len, width, fieldWidth));
        Len == old(Len) + |t| && Out() == old(Out()) + t
      ensures spc.str == null || spc.str == old(spc.str) || fresh(spc.str)
    {
      hide Expand, Valid, Holds, Out, Lead, Rest, Parts;
      ExpandParts(Out(), text, padBefore, pad, len, width, fieldWidth);
      PLead(padBefore, pad, len, width, fieldWidth);
      PRest(pw, padBefore, len, width, fieldWidth, text);
    }

    method PLead(padBefore: bool, pad: Char16, len: nat, width: nat, fieldWidth: nat)
      requires Valid() && Pos < PRINT_STRING_LEN - 1 && pad != 0
      requires Room(|Expand(Lead(padBefore, pad, len, width, fieldWidth))|)
      modifies this, Buffer, spc, spc.str
      ensures Valid() && Pos < PRINT_STRING_LEN - 1
      ensures var t := Expand(Lead(padBefore, pad, len, width, fieldWidth));
        Len == old(Len) + |t| && Out() == old(Out()) + t
      ensures spc.str == null || spc.str == old(spc.str) || fresh(spc.str)
    {
      hide Expand, Fill, Valid, Out;
      ExpandAppends(if padBefore then Fill(BLANK, fieldWidth - width) else [], Fill(pad, width - len));
      PFieldFill(padBefore, width, fieldWidth);
      PFill(pad, len, width);
    }

    method PRest(pw: seq<Char16>, padBefore: bool, len: nat, width: nat, fieldWidth: nat, ghost text: Text)
      requires Holds(pw, text) && IsCString(text) && len <= |text|
      requires Valid() && Pos < PRINT_STRING_LEN - 1
      requires Room(|Expand(Rest(text, padBefore, len, width, fieldWidth))|)
      modifies this, Buffer, spc, spc.str
      ensures Valid() && Pos < PRINT_STRING_LEN - 1
      ensures var t := Expand(Rest(text, padBefore, len, width, fieldWidth));
        Len == old(Len) + |t| && Out() == old(Out()) + t
      ensures spc.str == null || spc.str == old(spc.str) || fresh(spc.str)
    {
      hide Expand, Fill, Valid, Holds, Out;
      ExpandAppends(text[..len], if padBefore then [] else Fill(BLANK, fieldWidth - width));
      PPutFront(pw, len, text);
      PFieldFill(!padBefore, width, fieldWidth);
    }

    /** The blanks of the field, on the side they belong. */
    method PFieldFill(here: bool, from: int, to: int)
      requires Valid() && Pos < PRINT_STRING_LEN - 1
      requires Room(|Expand(if here then Fill(BLANK, to - from) else [])|)
      modifies this, Buffer, spc, spc.str
      ensures Valid() && Pos < PRINT_STRING_LEN - 1
      ensures var t := Expand(if here then Fill(BLANK, to - from) else []);
        Len == old(Len) + |t| && Out() == old(Out()) + t
      ensures spc.str == null || spc.str == old(spc.str) || fresh(spc.str)
    {
      hide Expand, Fill;
      ExpandNothing(Out(), []);
      if here {
        PFill(BLANK, from, to);
      }
    }

    /** One directive, from behind its `%` to its last character. */
    method PDirective(fmt: Text, start: nat, args: seq<Arg>, taken: nat) returns (Index: nat, used: nat)
      requires IsCString(fmt) && ArgsAreStrings(args) && start <= |fmt| && taken <= |args|
      requires Directive(fmt, start, args[taken..], NEW_ITEM).Some?
      requires Valid() && Pos < PRINT_STRING_LEN - 1
      requires Room(|Expand(Directive(fmt, start, args[taken..], NEW_ITEM).value.0)|)
      modifies this, Buffer, spc, spc.str
      ensures var d := Directive(fmt, start, args[taken..], NEW_ITEM).value;
        && Index == d.1 && used == taken + d.2
        && Len == old(Len) + |Expand(d.0)| && Out() == old(Out()) + Expand(d.0)
      ensures Valid() && Pos < PRINT_STRING_LEN - 1
      ensures spc.str == null || spc.str == old(spc.str) || fresh(spc.str)
    {
      hide Directive, Expand, Valid, Modify, Convert, Out;
      ghost var d := Directive(fmt, start, args[taken..], NEW_ITEM).value;
      Index, used := start, taken;
      var item := NEW_ITEM;
      DirectiveGoesOn(fmt, Index, args[used..], item);
      var c := At(fmt, Index);
      while !EndsDirective(c)
        invariant Index < |fmt| && c == fmt[Index] && used <= |args| && item.pad != 0
        invariant Directive(fmt, Index, args[used..], item).Some?
        invariant var r := Directive(fmt, Index, args[used..], item).value;
          r.0 == d.0 && r.1 == d.1 && used + r.2 == taken + d.2
        invariant Valid() && Pos < PRINT_STRING_LEN - 1
        invariant Len == old(Len) && Out() == old(Out())
        invariant Room(|Expand(d.0)|)
        invariant spc.str == null || spc.str == old(spc.str) || fresh(spc.str)
        decreases |fmt| - Index
      {
        ModifyStep(fmt, Index, args, used, item);
        if c in {0x6E, 0x68, 0x65} {
          PFlush();
        }
        item, Index, used := ModifyItem(fmt, Index, args, used, item);
        DirectiveGoesOn(fmt, Index, args[used..], item);
        c := At(fmt, Index);
      }
      ConvertStep(fmt, Index, args[used..], item);
      ConvertIsString(c, args[used..], item);
      ghost var text := Convert(c, args[used..], item).value.0;
      var pw, n := MakeItem(c, args[used..], item);
      PItem(pw, Finished(c, item), text);
      Index, used := Index + 1, used + n;
    }

    /** _Print: everything the format stands for is put, the last of it flushed, and counted. */
    method Print(fmt: Text, args: seq<Arg>) returns (n: nat)
      requires IsCString(fmt) && ArgsAreStrings(args) && Render(fmt, 0, args).Some?
      requires Valid() && Pos == 0 && Room(|Expand(Render(fmt, 0, args).value)|)
      modifies this, Buffer, spc, spc.str
      ensures Valid() && Pos == 0 && Terminated() && n == Len
      ensures Out() == old(Out()) + Expand(Render(fmt, 0, args).value)
      ensures spc.str == null || spc.str == old(spc.str) || fresh(spc.str)
    {
      hide Render, Expand, Directive, Valid, Out;
      ghost var was, all := Out(), Render(fmt, 0, args).value;
      var Index: nat, used: nat := 0, 0;
      assert args[0..] == args;
      while At(fmt, Index) != 0
        invariant Index <= |fmt| && used <= |args| && Render(fmt, Index, args[used..]).Some?
        invariant Valid() && Pos < PRINT_STRING_LEN - 1
        invariant Room(|Expand(Render(fmt, Index, args[used..]).value)|)
        invariant Out() + Expand(Render(fmt, Index, args[used..]).value) == was + Expand(all)
        invariant spc.str == null || spc.str == old(spc.str) || fresh(spc.str)
        decreases |fmt| - Index
      {
        var c := fmt[Index];
        RenderStep(Out(), fmt, Index, args, used);
        if c != PERCENT {
          PPutc(c);
          Index := Index + 1;
        } else {
          Index, used := PDirective(fmt, Index + 1, args, used);
        }
      }
      RenderEnds(Out(), fmt, args[used..]);
      PFlush();
      n := Len;
    }
  }

  lemma Flushed(ps: PrintState, out: Text)
    requires ps.Valid() && ps.Pos == 0 && ps.Out() == [] + out
    ensures ps.sent == out
  {
    assert ps.Out() == ps.sent;
    assert ps.Out() == out;
  }

  lemma StringFlushed(ps: PrintState, out: Text)
    requires ps.Valid() && ps.Pos == 0 && ps.Out() == [] + out && !ps.pool && ps.Terminated()
    ensures ps.spc.str != null && ps.spc.str == ps.home && |ps.cells| == ps.home.Length
    ensures ps.spc.len == Least(|out|, ps.limit) <= |ps.cells|
    ensures ps.limit == 0 ==> ps.home[..] == ps.cells
    ensures ps.limit > 0 ==> Holds(ps.home[..], out[..ps.spc.len])
    ensures forall k :: ps.spc.len < k < |ps.cells| ==> ps.home[k] == ps.cells[k]
  {
    Flushed(ps, out);
    assert ps.home[..][..ps.spc.len] == ps.home[..ps.spc.len];
  }

  // ------------------------------------------------------------------------------ the callers

  /** `StrSize / sizeof(CHAR16) - 1` in a UINTN. */
  function Limit(strSize: UInt64): (r: UInt64)
    ensures r == if strSize < CHAR16_SIZE then WIDE - 1 else strSize / CHAR16_SIZE - 1
  {
    (strSize / CHAR16_SIZE - 1) % WIDE
  }

  /** VSPrint, SPrint: the front of the output that fits, with a terminator.  A size of 0 or 1 byte sets
      no limit; one of 2 or 3 leaves the buffer as it is. */
  method VSPrint(str: array<Char16>, strSize: UInt64, fmt: Text, args: seq<Arg>) returns (len: nat)
    requires IsCString(fmt) && ArgsAreStrings(args) && Render(fmt, 0, args).Some?
    requires str.Length < WIDE && strSize / 2 <= str.Length
    requires strSize < 2 ==> |Expand(Render(fmt, 0, args).value)| < str.Length
    modifies str
    ensures var out := Expand(Render(fmt, 0, args).value);
      && len == (if strSize < 2 then |out| else Least(|out|, strSize / 2 - 1))
      && (strSize / 2 == 1 ==> str[..] == old(str[..]))
      && (strSize / 2 != 1 ==> Holds(str[..], out[..len]))
    ensures forall k :: len < k < str.Length ==> str[k] == old(str[k])
  {
    hide Render, Expand, Holds, Limit, PrintState.Valid, PrintState.Terminated, PrintState.Out;
    var spc := new PoolPrint;
    spc.str := str;
    spc.maxlen := Limit(strSize);
    spc.len := 0;
    var ps := new PrintState(spc, false);
    var n := ps.Print(fmt, args);
    StringFlushed(ps, Expand(Render(fmt, 0, args).value));
    len := spc.len;
  }

  /** CatPrint on a pool text: the output is appended.  Of a text that met failed allocations what remains
      is what came behind the last of them. */
  method CatPrint(spc: PoolPrint, fmt: Text, args: seq<Arg>) returns (str: array?<Char16>, ghost lost: nat)
    requires IsCString(fmt) && ArgsAreStrings(args) && Render(fmt, 0, args).Some?
    requires spc.Pooled()
    modifies spc, spc.str
    ensures spc.Pooled() && str == spc.str && (str == null || str == old(spc.str) || fresh(str))
    ensures var whole := old(spc.Contents()) + Expand(Render(fmt, 0, args).value);
      lost <= |whole| && spc.Contents() == whole[lost..]
    ensures spc.failures >= old(spc.failures)
    ensures spc.failures == old(spc.failures) ==> lost == 0 && str != null
  {
    hide Render, Expand;
    ghost var out := Expand(Render(fmt, 0, args).value);
    var ps := new PrintState(spc, true);
    var n := ps.Print(fmt, args);
    Flushed(ps, out);
    str, lost := spc.str, ps.lost;
  }

  /** A format and its arguments. */
  datatype Call = Call(fmt: Text, args: seq<Arg>) {
    predicate Proper() {
      IsCString(fmt) && ArgsAreStrings(args) && Render(fmt, 0, args).Some?
    }

    function Output(): Text
      requires Proper()
    {
      Expand(Render(fmt, 0, args).value)
    }
  }

  function Outputs(calls: seq<Call>): Text
    requires forall i :: 0 <= i < |calls| ==> calls[i].Proper()
  {
    if calls == [] then [] else Outputs(calls[..|calls| - 1]) + calls[|calls| - 1].Output()
  }

  /** Printing two formats one behind the other is printing them joined. */
  lemma OutputsJoin(a: Call, b: Call)
    requires a.Proper() && b.Proper() && Taken(a.fmt, 0, a.args) == |a.args|
    ensures Call(a.fmt + b.fmt, a.args + b.args).Proper()
    ensures Call(a.fmt + b.fmt, a.args + b.args).Output() == a.Output() + b.Output()
  {
    hide Render, Expand;
    RenderJoins(a.fmt, b.fmt, 0, a.args, b.args);
    ExpandAppends(Render(a.fmt, 0, a.args).value, Render(b.fmt, 0, b.args).value);
  }

  /** A context before its first use. */
  method ZeroedContext() returns (spc: PoolPrint)
    ensures fresh(spc) && spc.str == null && spc.Pooled() && spc.Contents() == [] && spc.failures == 0
  {
    spc := new PoolPrint;
    spc.str, spc.len, spc.maxlen, spc.failures := null, 0, 0, 0;
  }

  lemma RunTurn(calls: seq<Call>, i: nat, lost: nat, more: nat)
    requires i < |calls| && forall k :: 0 <= k < |calls| ==> calls[k].Proper()
    requires lost <= |Outputs(calls[..i])| && more <= |Outputs(calls[..i])| - lost + |calls[i].Output()|
    ensures |Outputs(calls[..i + 1])| == |Outputs(calls[..i])| + |calls[i].Output()|
    ensures (Outputs(calls[..i])[lost..] + calls[i].Output())[more..] == Outputs(calls[..i + 1])[lost + more..]
  {
    hide Render, Expand, Call.Output, Call.Proper;
    assert calls[..i + 1][..i] == calls[..i];
    TailOfTail(Outputs(calls[..i]), calls[i].Output(), lost, more);
  }

  lemma RunBegins(calls: seq<Call>)
    requires forall k :: 0 <= k < |calls| ==> calls[k].Proper()
    ensures Outputs(calls[..0]) == [] && calls[..|calls|] == calls
  {
  }

  /** A text built piece by piece on a zeroed context. */
  method CatPrintRun(calls: seq<Call>) returns (spc: PoolPrint)
    requires forall i :: 0 <= i < |calls| ==> calls[i].Proper()
    ensures fresh(spc) && spc.Pooled()
    ensures spc.failures == 0 ==> spc.Contents() == Outputs(calls) && (calls != [] ==> spc.str != null)
    ensures exists lost: nat :: lost <= |Outputs(calls)| && spc.Contents() == Outputs(calls)[lost..]
  {
    hide Render, Expand, Outputs, PoolPrint.Pooled, PoolPrint.Contents;
    spc := ZeroedContext();
    RunBegins(calls);
    ghost var lost: nat := 0;
    var i := 0;
    while i < |calls|
      invariant 0 <= i <= |calls| && spc.Pooled() && (spc.str == null || fresh(spc.str))
      invariant lost <= |Outputs(calls[..i])| && spc.Contents() == Outputs(calls[..i])[lost..]
      invariant spc.failures == 0 ==> lost == 0 && (i > 0 ==> spc.str != null)
    {
      var _, more := CatPrint(spc, calls[i].fmt, calls[i].args);
      RunTurn(calls, i, lost, more);
      lost, i := lost + more, i + 1;
    }
  }

  // ------------------------------------------------------- the format, one character at a time

  lemma RenderStep(was: Text, fmt: Text, i: nat, args: seq<Arg>, used: nat)
    requires i < |fmt| && used <= |args| && Render(fmt, i, args[used..]).Some?
    ensures fmt[i] != PERCENT ==>
      && Render(fmt, i + 1, args[used..]).Some?
      && var now, rest := Expand([fmt[i]]), Expand(Render(fmt, i + 1, args[used..]).value);
         && |Expand(Render(fmt, i, args[used..]).value)| == |now| + |rest|
         && was + Expand(Render(fmt, i, args[used..]).value) == was + now + rest
    ensures fmt[i] == PERCENT ==>
      && Directive(fmt, i + 1, args[used..], NEW_ITEM).Some?
      && var d := Directive(fmt, i + 1, args[used..], NEW_ITEM).value;
         && Render(fmt, d.1, args[used + d.2..]).Some?
         && var now, rest := Expand(d.0), Expand(Render(fmt, d.1, args[used + d.2..]).value);
            && |Expand(Render(fmt, i, args[used..]).value)| == |now| + |rest|
            && was + Expand(Render(fmt, i, args[used..]).value) == was + now + rest
  {
    hide Expand, Directive;
    if fmt[i] != PERCENT {
      ExpandBehind(was, [fmt[i]], Render(fmt, i + 1, args[used..]).value);
    } else {
      var d := Directive(fmt, i + 1, args[used..], NEW_ITEM).value;
      assert args[used..][d.2..] == args[used + d.2..];
      ExpandBehind(was, d.0, Render(fmt, d.1, args[used + d.2..]).value);
    }
  }

  lemma RenderEnds(was: Text, fmt: Text, args: seq<Arg>)
    ensures Render(fmt, |fmt|, args) == Some([]) && was + Expand([]) == was
  {
  }

  /** The letters that only change the item. */
  method ModifyItem(fmt: Text, i: nat, args: seq<Arg>, used: nat, item: Item)
    returns (changed: Item, next: nat, taken: nat)
    requires IsCString(fmt) && i < |fmt| && used <= |args| && Modify(fmt, i, args[used..], item).Some?
    ensures (changed, next, taken - used) == Modify(fmt, i, args[used..], item).value && taken >= used
  {
    changed, next, taken := item, i + 1, used;
    var c := fmt[i];
    if c == 0x30 {
      changed := changed.(pad := 0x30);
    } else if c == 0x2D {
      changed := changed.(padBefore := false);
    } else if c == 0x2C {
      changed := changed.(comma := true);
    } else if c == 0x2E {
      changed := changed.(parseField := true);
    } else if c == 0x2A {
      changed := changed.Parsed(args[used].n);
      taken := used + 1;
    } else if c == 0x6C {
      changed := changed.(long := true);
    } else if 0x31 <= c <= 0x39 {
      var w;
      w, next := ParseWidth(fmt, i);
      changed := changed.Parsed(w);
    }
  }

  /** Decimal digits accumulated modulo 2^64. */
  method ParseWidth(fmt: Text, i: nat) returns (w: UInt64, next: nat)
    requires IsCString(fmt) && i < |fmt| && IsDigit(fmt[i])
    ensures w == WidthAt(fmt, i) && next == DigitsEnd(fmt, i + 1)
  {
    hide Value, DigitValues;
    ghost var e := DigitsEnd(fmt, i);
    ghost var t := fmt[i..e];
    NoDigits(t);
    w, next := 0, i;
    while IsDigit(At(fmt, next))
      invariant i <= next <= e && DigitsEnd(fmt, next) == e
      invariant w == Value(DigitValues(t)[..next - i], 10) % WIDE
      decreases e - next
    {
      assert fmt[next] == t[next - i];
      DigitRead(t, next - i);
      w := (w * 10 + (fmt[next] as int - 0x30)) % WIDE;
      next := next + 1;
    }
    assert DigitValues(t)[..next - i] == DigitValues(t);
  }

  lemma NoDigits(t: Text)
    ensures Value(DigitValues(t)[..0], 10) == 0
  {
  }

  lemma DigitRead(t: Text, k: nat)
    requires k < |t| && IsDigit(t[k])
    ensures Value(DigitValues(t)[..k + 1], 10) % WIDE
         == (Value(DigitValues(t)[..k], 10) % WIDE * 10 + (t[k] as int - 0x30)) % WIDE
  {
    var ds := DigitValues(t);
    assert ds[..k + 1] == ds[..k] + [ds[k]];
    ValueSnoc(ds[..k], ds[k], 10);
    WrapDigit(Value(ds[..k], 10), 10, ds[k]);
  }

  lemma ModifyStep(fmt: Text, i: nat, args: seq<Arg>, used: nat, item: Item)
    requires i < |fmt| && used <= |args| && !EndsDirective(fmt[i]) && Directive(fmt, i, args[used..], item).Some?
    ensures Modify(fmt, i, args[used..], item).Some?
    ensures var m := Modify(fmt, i, args[used..], item).value;
      && i < m.1 <= |fmt| && used + m.2 <= |args| && (item.pad != 0 ==> m.0.pad != 0)
      && Directive(fmt, m.1, args[used + m.2..], m.0).Some?
      && var r, r' := Directive(fmt, i, args[used..], item).value, Directive(fmt, m.1, args[used + m.2..], m.0).value;
         r.0 == r'.0 && r.1 == r'.1 && r.2 == m.2 + r'.2
  {
    hide Modify;
    var m := Modify(fmt, i, args[used..], item).value;
    assert args[used..][m.2..] == args[used + m.2..];
  }

  lemma ConvertStep(fmt: Text, i: nat, args: seq<Arg>, item: Item)
    requires i < |fmt| && EndsDirective(fmt[i]) && Directive(fmt, i, args, item).Some?
    ensures Convert(fmt[i], args, item).Some?
    ensures Directive(fmt, i, args, item).value ==
      (InField(Convert(fmt[i], args, item).value.0, Finished(fmt[i], item)), i + 1,
       Convert(fmt[i], args, item).value.1)
    ensures item.pad != 0 ==> Finished(fmt[i], item).pad != 0
  {
    hide Convert, InField;
  }

  lemma ConvertIsString(c: Char16, args: seq<Arg>, item: Item)
    requires ArgsAreStrings(args) && Convert(c, args, item).Some?
    ensures IsCString(Convert(c, args, item).value.0)
  {
  }

  /** The letters that make an item: its text, terminated, and the number of arguments taken. */
  method MakeItem(c: Char16, args: seq<Arg>, item: Item) returns (pw: seq<Char16>, n: nat)
    requires Convert(c, args, item).Some?
    ensures Holds(pw, Convert(c, args, item).value.0) && n == Convert(c, args, item).value.1
  {
    hide HexText, DecimalText, SignedArg, UnsignedArg, ToInt64;
    n := 0;
    if c == PERCENT {
      pw := [PERCENT, 0];
    } else if c !in TAKES_ARGUMENT {
      pw := [QUESTION_MARK, 0];
    } else {
      n := 1;
      match args[0]
      case String(s) => pw := s + [0];
      case NullString => pw := NULL_TEXT + [0];
      case Converted(text) => pw := text + [0];
      case Number(v) =>
        var Scratch := new Char16[100];
        if c == 0x63 {
          Scratch[0] := (v % 0x1_0000) as Char16;
          Scratch[1] := 0;
        } else if c == 0x58 || c == 0x78 {
          HexFits(UnsignedArg(v, item.long));
          ValueToHex(Scratch, UnsignedArg(v, item.long));
        } else {
          var signed := if c == 0x75 then ToInt64(UnsignedArg(v, item.long)) else SignedArg(v, item.long);
          DecimalFits(item.comma, signed);
          ValueToString(Scratch, item.comma, signed);
        }
        pw := Scratch[..];
    }
  }

  lemma DirectiveGoesOn(fmt: Text, i: nat, args: seq<Arg>, item: Item)
    requires i <= |fmt| && Directive(fmt, i, args, item).Some?
    ensures i < |fmt|
  {
  }

  // ------------------------------------------------------------------- items, part by part

  function Lead(padBefore: bool, pad: Char16, len: nat, width: nat, fieldWidth: nat): Text {
    (if padBefore then Fill(BLANK, fieldWidth - width) else []) + Fill(pad, width - len)
  }

  function Rest(text: Text, padBefore: bool, len: nat, width: nat, fieldWidth: nat): Text
    requires len <= |text|
  {
    text[..len] + (if padBefore then [] else Fill(BLANK, fieldWidth - width))
  }

  function Parts(text: Text, padBefore: bool, pad: Char16, len: nat, width: nat, fieldWidth: nat): Text
    requires len <= |text|
  {
    Lead(padBefore, pad, len, width, fieldWidth) + Rest(text, padBefore, len, width, fieldWidth)
  }

  lemma ExpandParts(was: Text, text: Text, padBefore: bool, pad: Char16, len: nat, width: nat, fieldWidth: nat)
    requires len <= |text|
    ensures var lead, rest, all := Lead(padBefore, pad, len, width, fieldWidth),
              Rest(text, padBefore, len, width, fieldWidth), Parts(text, padBefore, pad, len, width, fieldWidth);
      && |Expand(all)| == |Expand(lead)| + |Expand(rest)|
      && was + Expand(all) == was + Expand(lead) + Expand(rest)
  {
    hide Lead, Rest, Expand;
    ExpandBehind(was, Lead(padBefore, pad, len, width, fieldWidth), Rest(text, padBefore, len, width, fieldWidth));
  }

  lemma InFieldParts(text: Text, item: Item, len: nat, width: nat, fieldWidth: nat)
    requires len == Least(|text|, item.fieldWidth) && width == Greatest(item.width, len)
    requires fieldWidth == if item.fieldWidth == UNSET then len else item.fieldWidth
    ensures InField(text, item) == Parts(text, item.padBefore, item.pad, len, width, fieldWidth)
  {
    hide Fill;
  }

  /** The length of an item, read up to the field width or its terminator. */
  method ItemLength(pw: seq<Char16>, fieldWidth: nat, ghost text: Text) returns (len: nat)
    requires Holds(pw, text) && IsCString(text)
    ensures len == Least(|text|, fieldWidth)
  {
    assert forall j :: 0 <= j < |text| ==> pw[j] == pw[..|text|][j] == text[j];
    var Index := 0;
    while Index < fieldWidth
      invariant 0 <= Index <= |text| && Index <= fieldWidth
    {
      var c := pw[Index];
      Index := Index + 1;
      if c == 0 {
        Index := Index - 1;
        break;
      }
    }
    len := Index;
  }

  lemma FillLength(c: Char16, n: int)
    ensures |Fill(c, n)| == (if n > 0 then n else 0)
  {
  }

  lemma FillCell(c: Char16, n: int, i: nat)
    requires i < n
    ensures Fill(c, n)[i] == c
  {
  }

  // ------------------------------------------------------------------ what is put and kept

  lemma HeldFront(buffer: seq<Char16>, t: Text, n: nat)
    requires Holds(buffer, t) && n <= |t|
    ensures n < |buffer| && buffer[..n] == buffer[0..n] == t[..n]
  {
    assert buffer[..n] == buffer[..|t|][..n];
  }

  lemma OverwrittenParts(s: Text, at: nat, cells: Text)
    requires at + |cells| <= |s|
    ensures var r := Overwritten<Char16>(s, at, cells);
      && r[..at + |cells|] == s[..at] + cells
      && forall k :: at + |cells| <= k < |s| ==> r[k] == s[k]
  {
  }

  lemma TailOfTail(a: Text, b: Text, m: nat, n: nat)
    requires m <= |a| && n <= |a| + |b| - m
    ensures (a[m..] + b)[n..] == (a + b)[m + n..]
  {
    assert a[m..] + b == (a + b)[m..];
  }

  lemma TailGrows(base: Text, sent: Text, chunk: Text, lost: nat)
    requires lost <= |base| + |sent|
    ensures (base + sent)[lost..] + chunk == (base + (sent + chunk))[lost..]
    ensures (base + (sent + chunk))[|base| + |sent + chunk|..] == []
  {
  }

  /** The front of a text grows by the part of the addition that still fits. */
  lemma FrontGrows(sent: Text, chunk: Text, max: nat)
    ensures var n := Least(|chunk|, max - Least(|sent|, max));
      && Least(|sent|, max) + n == Least(|sent + chunk|, max)
      && sent[..Least(|sent|, max)] + chunk[..n] == (sent + chunk)[..Least(|sent + chunk|, max)]
  {
  }

  lemma ExpandBehind(was: Text, a: Text, b: Text)
    ensures |Expand(a + b)| == |Expand(a)| + |Expand(b)|
    ensures was + Expand(a + b) == was + Expand(a) + Expand(b)
  {
    hide Expand;
    ExpandAppends(a, b);
  }

  lemma ExpandNothing(was: Text, t: Text)
    ensures Expand([]) == [] && was + Expand(t[..0]) == was && t[0..] == t && t[..|t|] == t
    ensures Expand(t[..0]) == []
  {
  }

  lemma ExpandStep(was: Text, t: Text, i: nat)
    requires i < |t|
    ensures |Expand(t[..i + 1])| == |Expand(t[..i])| + |Expand([t[i]])|
    ensures was + Expand(t[..i + 1]) == was + Expand(t[..i]) + Expand([t[i]])
    ensures |Expand(t[i..])| == |Expand([t[i]])| + |Expand(t[i + 1..])|
  {
    hide Expand;
    assert t[..i + 1] == t[..i] + [t[i]];
    ExpandAppends(t[..i], [t[i]]);
    assert t[i..] == [t[i]] + t[i + 1..];
    ExpandAppends([t[i]], t[i + 1..]);
  }

  lemma HeldCharacter(pw: seq<Char16>, text: Text, i: nat)
    requires Holds(pw, text) && i < |text|
    ensures i < |pw| && pw[i] == text[i]
  {
    assert pw[..|text|][i] == text[i];
  }

  lemma ExpandOne(c: Char16)
    ensures Expand([c]) == if c == NEWLINE then [RETURN, NEWLINE] else [c]
  {
    assert [c][1..] == [];
  }
}
