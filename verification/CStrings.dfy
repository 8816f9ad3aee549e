/** CHAR16 text as the EFI library sees it: zero-terminated strings read through a moving index. */
module CStrings {
  newtype Char16 = c: int | 0 <= c < 0x1_0000

  type Text = seq<Char16>

  /** The characters in front of a terminator: none of them is zero. */
  predicate IsCString(s: Text)
  {
    forall i :: 0 <= i < |s| ==> s[i] != 0
  }

  /** `*(s + i)`: the terminator itself may be read, nothing behind it. */
  function At(s: Text, i: nat): Char16
    requires i <= |s|
  {
    if i < |s| then s[i] else 0
  }
}
