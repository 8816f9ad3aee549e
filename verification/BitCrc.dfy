/** The reflected CRC-32, one message bit at a time, and the error bursts it detects. */
module BitCrc {
  import opened Words

  const POLYNOMIAL: bv32 := 0xEDB88320
  const ALL_ONES: bv32 := 0xFFFFFFFF

  /** One shift of the register. */
  function Step(c: bv32): bv32 {
    if Odd(c) then Xor(Half(c), POLYNOMIAL) else Half(c)
  }

  /** One message bit: added to the lowest place of the register before the shift. */
  function Feed(c: bv32, bit: bool): bv32 {
    Step(if bit then Xor(c, ONE) else c)
  }

  function FeedAll(c: bv32, bits: seq<bool>): bv32
    decreases |bits|
  {
    if bits == [] then c else FeedAll(Feed(c, bits[0]), bits[1..])
  }

  /** The `n` lowest bits of `t`, lowest first. */
  function LowBits(t: bv32, n: nat): (bits: seq<bool>)
    ensures |bits| == n
    decreases n
  {
    if n == 0 then [] else [Odd(t)] + LowBits(Half(t), n - 1)
  }

  function ShiftOut(t: bv32, n: nat): bv32
    decreases n
  {
    if n == 0 then t else ShiftOut(Half(t), n - 1)
  }

  /** The bits of a byte in the order a reflected CRC consumes them. */
  function ByteBits(b: bv8): (bits: seq<bool>)
    ensures |bits| == 8
  {
    LowBits(b as bv32, 8)
  }

  function Bits(bytes: seq<bv8>): (bits: seq<bool>)
    ensures |bits| == 8 * |bytes|
  {
    if bytes == [] then [] else ByteBits(bytes[0]) + Bits(bytes[1..])
  }

  /** CRC-32 of a byte string. */
  function Crc(bytes: seq<bv8>): bv32 {
    Xor(FeedAll(ALL_ONES, Bits(bytes)), ALL_ONES)
  }

  lemma {:induction false} FeedAllSplits(c: bv32, x: seq<bool>, y: seq<bool>)
    ensures FeedAll(c, x + y) == FeedAll(FeedAll(c, x), y)
    decreases |x|
  {
    hide Feed;
    if x == [] {
      assert x + y == y;
    } else {
      assert (x + y)[1..] == x[1..] + y;
      FeedAllSplits(Feed(c, x[0]), x[1..], y);
    }
  }

  lemma {:induction false} BitAt(bytes: seq<bv8>, j: nat)
    requires j < 8 * |bytes|
    ensures Bits(bytes)[j] == ByteBits(bytes[j / 8])[j % 8]
  {
    hide ByteBits;
    if j >= 8 {
      BitAt(bytes[1..], j - 8);
    }
  }

  lemma SameHalves(t: bv32, u: bv32)
    requires Half(t) == Half(u) && Odd(t) == Odd(u)
    ensures t == u
  {
  }

  lemma {:induction false} LowBitsDetermine(t: bv32, u: bv32, n: nat)
    requires LowBits(t, n) == LowBits(u, n) && ShiftOut(t, n) == ShiftOut(u, n)
    ensures t == u
    decreases n
  {
    hide Half, Odd;
    if n > 0 {
      assert LowBits(t, n)[0] == LowBits(u, n)[0];
      assert LowBits(t, n)[1..] == LowBits(u, n)[1..];
      LowBitsDetermine(Half(t), Half(u), n - 1);
      SameHalves(t, u);
    }
  }

  lemma ByteShiftsOut(b: bv8)
    ensures ShiftOut(b as bv32, 8) == 0
  {
    hide Half;
    var t0 := b as bv32;
    var t1 := Half(t0);
    var t2 := Half(t1);
    var t3 := Half(t2);
    var t4 := Half(t3);
    assert ShiftOut(t0, 8) == ShiftOut(t4, 4);
    assert ShiftOut(t4, 4) == Half(Half(Half(Half(t4))));
    EightHalves(b);
  }

  lemma EightHalves(b: bv8)
    ensures Half(Half(Half(Half(Half(Half(Half(Half(b as bv32)))))))) == 0
  {
  }

  /** Different bytes have different bits. */
  lemma ByteBitsDetermine(a: bv8, b: bv8)
    requires ByteBits(a) == ByteBits(b)
    ensures a == b
  {
    hide Half, Odd, LowBits, ShiftOut;
    ByteShiftsOut(a);
    ByteShiftsOut(b);
    LowBitsDetermine(a as bv32, b as bv32, 8);
  }

  /** The register is linear over exclusive or. */
  lemma StepLinear(a: bv32, b: bv32)
    ensures Xor(Step(a), Step(b)) == Step(Xor(a, b))
  {
    hide Xor, Half, Odd;
    HalfXor(a, b);
    XorLaws(Half(a), Half(b), POLYNOMIAL);
  }

  // ---------------------------------------------------------------------------- error bursts

  /** Two registers that differ in bit `k` or above. */
  predicate Gap(c: bv32, d: bv32, k: nat) {
    Meets(Xor(c, d), BitsFrom(k))
  }

  lemma GapMeansDifferent(c: bv32, d: bv32, k: nat)
    requires Gap(c, d, k)
    ensures c != d
  {
    hide Xor, Meets, BitsFrom;
    MeetsIsNonzero(Xor(c, d), BitsFrom(k));
    XorDifferent(c, d);
  }

  /** The difference of two registers after one bit is the step of the difference before, with its
      lowest bit flipped if the message bits differ. */
  lemma FeedDifference(c: bv32, d: bv32, x: bool, y: bool)
    ensures Xor(Feed(c, x), Feed(d, y)) == Step(if x == y then Xor(c, d) else Xor(Xor(c, d), ONE))
  {
    hide Xor, Step;
    StepLinear(if x then Xor(c, ONE) else c, if y then Xor(d, ONE) else d);
    XorLaws(c, d, ONE);
  }

  lemma PolynomialHasTop(a: bv32)
    ensures HasTop(Xor(Half(a), POLYNOMIAL))
  {
  }

  lemma OddStepMeets(e: bv32, mask: bv32)
    requires Odd(e) && HasTop(mask)
    ensures Meets(Step(e), mask)
  {
    hide Xor, Half, Meets, HasTop;
    PolynomialHasTop(e);
    TopMeets(Step(e), mask);
  }

  lemma StepMeets(e: bv32, k: nat)
    requires k < 31 && Meets(e, BitsFrom(k + 1))
    ensures Meets(Step(e), BitsFrom(k))
  {
    hide Xor, Half, Odd, Meets, HasTop, Twice;
    if Odd(e) {
      BitsFromTop(k);
      OddStepMeets(e, BitsFrom(k));
    } else {
      assert BitsFrom(k + 1) == Twice(BitsFrom(k));
      HalfMeets(e, BitsFrom(k));
    }
  }

  /** Registers that differ in bit `k + 1` or above differ in bit `k` or above one message bit later,
      whatever the two bits are. */
  lemma FeedKeepsGap(c: bv32, d: bv32, x: bool, y: bool, k: nat)
    requires k < 31 && Gap(c, d, k + 1)
    ensures Gap(Feed(c, x), Feed(d, y), k)
  {
    hide Xor, Step, Feed, Meets, Half, Twice;
    FeedDifference(c, d, x, y);
    assert BitsFrom(k + 1) == Twice(BitsFrom(k));
    HalfMeets(Xor(c, d), BitsFrom(k));
    StepMeets(if x == y then Xor(c, d) else Xor(Xor(c, d), ONE), k);
  }

  lemma FeedInjective(c: bv32, d: bv32, x: bool)
    requires Feed(c, x) == Feed(d, x)
    ensures c == d
  {
    hide Xor, Half, Odd, Meets, Feed;
    FeedDifference(c, d, x, x);
    XorDifferent(Feed(c, x), Feed(d, x));
    StepZero(Xor(c, d));
    XorDifferent(c, d);
  }

  /** The register never shifts a difference out of sight. */
  lemma StepZero(e: bv32)
    requires Step(e) == 0
    ensures e == 0
  {
    if Odd(e) {
      PolynomialHasTop(e);
    }
  }

  lemma FirstDifference(c: bv32, x: bool, y: bool)
    requires x != y
    ensures Gap(Feed(c, x), Feed(c, y), 31)
  {
    hide Xor, Half, Odd, Meets, Feed;
    FeedDifference(c, c, x, y);
    XorLaws(c, ONE, ONE);
    XorLaws(ONE, 0, ONE);
    OddPart(ONE);
    PolynomialHasTop(ONE);
    BitsFromTop(31);
    TopMeets(Step(ONE), BitsFrom(31));
  }

  lemma {:induction false} SameBitsKeepDifference(c: bv32, d: bv32, x: seq<bool>)
    requires c != d
    ensures FeedAll(c, x) != FeedAll(d, x)
    decreases |x|
  {
    hide Feed;
    if x != [] {
      if Feed(c, x[0]) == Feed(d, x[0]) {
        FeedInjective(c, d, x[0]);
      }
      SameBitsKeepDifference(Feed(c, x[0]), Feed(d, x[0]), x[1..]);
    }
  }

  /** Registers that differ in bit `k` or above cannot be brought together by `k` freely chosen bits. */
  lemma {:induction false} WindowKeepsDifference(c: bv32, d: bv32, x: seq<bool>, y: seq<bool>, k: nat)
    requires |x| == |y| && k <= 31 && Gap(c, d, k)
    requires forall j :: k <= j < |x| ==> x[j] == y[j]
    ensures FeedAll(c, x) != FeedAll(d, y)
    decreases |x|
  {
    hide Feed, Gap;
    if k == 0 || x == [] {
      GapMeansDifferent(c, d, k);
      assert x == y;
      SameBitsKeepDifference(c, d, x);
    } else {
      FeedKeepsGap(c, d, x[0], y[0], k - 1);
      WindowKeepsDifference(Feed(c, x[0]), Feed(d, y[0]), x[1..], y[1..], k - 1);
    }
  }

  /** Two different bit strings whose differences all lie within 32 consecutive positions never share
      their CRC. */
  lemma {:induction false} BurstDetected(c: bv32, x: seq<bool>, y: seq<bool>, i: nat)
    requires |x| == |y| && x != y
    requires forall j :: 0 <= j < |x| && !(i <= j < i + 32) ==> x[j] == y[j]
    ensures FeedAll(c, x) != FeedAll(c, y)
    decreases |x|
  {
    hide Feed, Gap;
    if x[0] == y[0] {
      assert x == [x[0]] + x[1..] && y == [y[0]] + y[1..];
      BurstDetected(Feed(c, x[0]), x[1..], y[1..], if i == 0 then 0 else i - 1);
    } else {
      FirstDifference(c, x[0], y[0]);
      WindowKeepsDifference(Feed(c, x[0]), Feed(c, y[0]), x[1..], y[1..], 31);
    }
  }
}
