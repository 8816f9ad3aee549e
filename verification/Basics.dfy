/** Machine words and a few plain notions the components share. */
module Basics {
  const WORD: int := 0x1_0000_0000
  const WIDE: int := 0x1_0000_0000_0000_0000

  type Byte = x: int | 0 <= x < 256
  type UInt32 = x: int | 0 <= x < WORD
  type UInt64 = x: int | 0 <= x < WIDE

  function Least(a: int, b: int): int { if a < b then a else b }

  function Greatest(a: int, b: int): int { if a < b then b else a }

  function Magnitude(v: int): nat { if v < 0 then -v else v }

  predicate Distinct<T(==)>(s: seq<T>) {
    forall i, j :: 0 <= i < j < |s| ==> s[i] != s[j]
  }

  /** Division is determined by its quotient and remainder. */
  lemma DivMod(a: int, d: int, q: int, r: int)
    requires d > 0 && 0 <= r < d && a == q * d + r
    ensures a / d == q && a % d == r
  {
    var x, y := a / d, a % d;
    assert a == x * d + y;
    assert (x - q) * d == r - y;
    if x > q {
      AtLeast(x - q, d);
    } else if x < q {
      AtLeast(q - x, d);
    }
  }

  lemma AtLeast(k: int, d: int)
    requires k >= 1 && d > 0
    ensures k * d >= d
  {
  }
}
