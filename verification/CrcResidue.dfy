/** What pins the CRC down from outside: the residue law, the empty message and the customary check value. */
module CrcResidue {
  import opened Words
  import opened BitCrc
  import opened CrcTable

  /** A register fed its own bits, changed by `m`, forgets itself. */
  lemma {:induction false} FeedOwn(c: bv32, d: bv32, m: bv32, n: nat)
    ensures FeedAll(Xor(c, d), LowBits(Xor(c, m), n)) == Xor(ShiftOut(c, n), FeedAll(d, LowBits(m, n)))
    decreases n
  {
    hide Feed, Xor, Half, Odd;
    if n > 0 {
      OwnBit(c, d, m);
      HalfXor(c, m);
      var x := LowBits(Xor(c, m), n);
      assert x[0] == Odd(Xor(c, m)) && x[1..] == LowBits(Half(Xor(c, m)), n - 1);
      assert LowBits(m, n)[0] == Odd(m) && LowBits(m, n)[1..] == LowBits(Half(m), n - 1);
      FeedOwn(Half(c), Feed(d, Odd(m)), Half(m), n - 1);
    }
  }

  lemma OwnBit(c: bv32, d: bv32, m: bv32)
    ensures Feed(Xor(c, d), Odd(Xor(c, m))) == Xor(Half(c), Feed(d, Odd(m)))
  {
    hide Xor, Half, Odd, Step;
    var e, f := if Odd(c) then Xor(c, ONE) else c, if Odd(m) then Xor(d, ONE) else d;
    StepLinear(e, f);
    HalfXor(c, m);
    OddPart(c);
    assert Step(e) == Half(c) by {
      EvenStep(e);
    }
    XorLaws(c, d, ONE);
    XorLaws(d, c, ONE);
    XorLaws(Xor(c, d), ONE, ONE);
    XorLaws(c, Xor(d, ONE), ONE);
    assert Xor(e, f) == if Odd(c) != Odd(m) then Xor(Xor(c, d), ONE) else Xor(c, d);
  }

  lemma EvenStep(e: bv32)
    requires !Odd(e)
    ensures Step(e) == Half(e)
  {
  }

  lemma {:induction false} LowBitsSplit(t: bv32, m: nat, n: nat)
    ensures LowBits(t, m + n) == LowBits(t, m) + LowBits(ShiftOut(t, m), n)
    ensures ShiftOut(t, m + n) == ShiftOut(ShiftOut(t, m), n)
    decreases m
  {
    hide Half, Odd, LowBits, ShiftOut;
    OneBit(t, m);
    OneBit(t, m + n);
    if m == 0 {
      assert [] + LowBits(t, n) == LowBits(t, n);
    } else {
      LowBitsSplit(Half(t), m - 1, n);
      var x, y, z := [Odd(t)], LowBits(Half(t), m - 1), LowBits(ShiftOut(Half(t), m - 1), n);
      assert x + (y + z) == x + y + z;
    }
  }

  lemma OneBit(t: bv32, n: nat)
    ensures LowBits(t, n) == if n == 0 then [] else [Odd(t)] + LowBits(Half(t), n - 1)
    ensures ShiftOut(t, n) == if n == 0 then t else ShiftOut(Half(t), n - 1)
  {
    hide Half, Odd;
  }

  // ---------------------------------------------------------------- the bytes of a word, bit by bit

  lemma FirstBits(t: bv32)
    ensures LowBits(t, 4) == [Odd(t), Odd(Half(t)), Odd(Half(Half(t))), Odd(Half(Half(Half(t))))]
    ensures ShiftOut(t, 4) == Half(Half(Half(Half(t))))
  {
    hide Half, Odd, LowBits, ShiftOut;
    var t1, t2, t3 := Half(t), Half(Half(t)), Half(Half(Half(t)));
    OneBit(t, 4);
    OneBit(t1, 3);
    OneBit(t2, 2);
    OneBit(t3, 1);
    OneBit(Half(t3), 0);
  }

  lemma SameNibble(v: bv32, w: bv32)
    requires v & 0xF == w & 0xF
    ensures LowBits(v, 4) == LowBits(w, 4)
  {
    hide LowBits;
    FirstBits(v);
    FirstBits(w);
    NibbleBits(v, w);
  }

  lemma NibbleBits(v: bv32, w: bv32)
    requires v & 0xF == w & 0xF
    ensures Odd(v) == Odd(w) && Odd(Half(v)) == Odd(Half(w))
    ensures Odd(Half(Half(v))) == Odd(Half(Half(w))) && Odd(Half(Half(Half(v)))) == Odd(Half(Half(Half(w))))
  {
  }

  lemma ShiftFour(t: bv32)
    ensures ShiftOut(t, 4) == t >> 4
  {
    hide ShiftOut, LowBits;
    FirstBits(t);
    FourHalves(t);
  }

  lemma FourHalves(t: bv32)
    ensures Half(Half(Half(Half(t)))) == t >> 4
  {
  }

  lemma LowByteOnly(v: bv32)
    ensures LowBits(v, 8) == ByteBits((v & 0xFF) as bv8) && ShiftOut(v, 8) == v >> 8
  {
    hide LowBits, ShiftOut;
    var w := v & 0xFF;
    ByteOfWord(v);
    LowBitsSplit(v, 4, 4);
    LowBitsSplit(w, 4, 4);
    ShiftFour(v);
    ShiftFour(w);
    ShiftFour(v >> 4);
    SameNibble(v, w);
    SameNibble(v >> 4, w >> 4);
  }

  lemma ByteOfWord(v: bv32)
    ensures var w := v & 0xFF;
      w as bv8 as bv32 == w && v & 0xF == w & 0xF && (v >> 4) & 0xF == (w >> 4) & 0xF && (v >> 4) >> 4 == v >> 8
  {
  }

  function Low(v: bv32): bv8 { (v & 0xFF) as bv8 }

  function Rest(v: bv32): bv32 { v >> 8 }

  /** The bytes of a word, low byte first. */
  function Bytes(v: bv32): seq<bv8> { [Low(v), Low(Rest(v)), Low(Rest(Rest(v))), Low(Rest(Rest(Rest(v))))] }

  lemma LowByte(v: bv32)
    ensures LowBits(v, 8) == ByteBits(Low(v)) && ShiftOut(v, 8) == Rest(v)
  {
    hide LowBits, ShiftOut, ByteBits;
    LowByteOnly(v);
  }

  /** They are its 32 bits, lowest first. */
  lemma WordBits(v: bv32)
    ensures Bits(Bytes(v)) == LowBits(v, 32) && ShiftOut(v, 32) == 0
  {
    hide LowBits, ShiftOut, ByteBits, Bits, Low, Rest;
    var v1, v2, v3 := Rest(v), Rest(Rest(v)), Rest(Rest(Rest(v)));
    NothingLeft(v);
    LowBitsSplit(v, 8, 24);
    LowBitsSplit(v1, 8, 16);
    LowBitsSplit(v2, 8, 8);
    LowByte(v);
    LowByte(v1);
    LowByte(v2);
    LowByte(v3);
    FourBytes(Low(v), Low(v1), Low(v2), Low(v3));
    assert ByteBits(Low(v)) + ByteBits(Low(v1)) + ByteBits(Low(v2)) + ByteBits(Low(v3)) ==
           ByteBits(Low(v)) + (ByteBits(Low(v1)) + (ByteBits(Low(v2)) + ByteBits(Low(v3))));
  }

  lemma NothingLeft(v: bv32)
    ensures Rest(Rest(Rest(Rest(v)))) == 0
  {
  }

  lemma BytesAre(v: bv32)
    ensures Bytes(v) == [(v & 0xFF) as bv8, ((v >> 8) & 0xFF) as bv8, ((v >> 16) & 0xFF) as bv8, (v >> 24) as bv8]
  {
    assert (v >> 8) >> 8 == v >> 16 && ((v >> 8) >> 8) >> 8 == v >> 24;
    assert ((v >> 24) & 0xFF) as bv8 == (v >> 24) as bv8;
  }

  lemma FourBytes(a: bv8, b: bv8, c: bv8, d: bv8)
    ensures Bits([a, b, c, d]) == ByteBits(a) + ByteBits(b) + ByteBits(c) + ByteBits(d)
  {
    hide ByteBits, Bits;
    BitsSnoc([a, b, c], d);
    BitsSnoc([a, b], c);
    BitsSnoc([a], b);
    BitsOne(a);
    assert [a, b, c, d] == [a, b, c] + [d] && [a, b, c] == [a, b] + [c] && [a, b] == [a] + [b];
  }

  lemma BitsOne(a: bv8)
    ensures Bits([a]) == ByteBits(a)
  {
    hide ByteBits;
    assert [a][1..] == [] && ByteBits(a) + [] == ByteBits(a);
  }

  lemma {:induction false} BitsJoin(x: seq<bv8>, y: seq<bv8>)
    ensures Bits(x + y) == Bits(x) + Bits(y)
    decreases |x|
  {
    hide ByteBits;
    if x == [] {
      assert x + y == y && [] + Bits(y) == Bits(y);
    } else {
      assert (x + y)[1..] == x[1..] + y;
      BitsJoin(x[1..], y);
      assert ByteBits(x[0]) + Bits(x[1..]) + Bits(y) == ByteBits(x[0]) + (Bits(x[1..]) + Bits(y));
    }
  }

  lemma BitsSnoc(x: seq<bv8>, b: bv8)
    ensures Bits(x + [b]) == Bits(x) + ByteBits(b)
  {
    hide ByteBits, Bits;
    BitsJoin(x, [b]);
    BitsOne(b);
  }

  lemma FedOn(c0: bv32, done: seq<bv8>, b: bv8, more: seq<bv8>, c: bv32, n: bv32)
    requires FeedAll(c0, Bits(done)) == c && Turned(c, b) == n && more == done + [b]
    ensures FeedAll(c0, Bits(more)) == n
  {
    hide FeedAll, ByteBits, Bits, Turned;
    BitsSnoc(done, b);
    FeedAllSplits(c0, Bits(done), ByteBits(b));
    FeedEight(c, b);
  }

  lemma FedNothing(c: bv32)
    ensures FeedAll(c, Bits([])) == c
  {
  }

  // ------------------------------------------------------------------------------ the residue law

  lemma FourOnesTurned()
    ensures Turned(0x0000_0000, 0xFF) == 0x2D02_EF8D
    ensures Turned(0x2D02_EF8D, 0xFF) == 0xBE26_12FF
    ensures Turned(0xBE26_12FF, 0xFF) == 0x00BE_2612
    ensures Turned(0x00BE_2612, 0xFF) == 0xDEBB_20E3
  {
  }

  lemma FourOnes()
    ensures FeedAll(0x0000_0000, Bits([0xFF, 0xFF, 0xFF, 0xFF])) == 0xDEBB_20E3
  {
    hide FeedAll, Bits, Turned;
    FourOnesTurned();
    FedNothing(0x0000_0000);
    FedOn(0x0000_0000, [], 0xFF, [0xFF], 0x0000_0000, 0x2D02_EF8D);
    FedOn(0x0000_0000, [0xFF], 0xFF, [0xFF, 0xFF], 0x2D02_EF8D, 0xBE26_12FF);
    FedOn(0x0000_0000, [0xFF, 0xFF], 0xFF, [0xFF, 0xFF, 0xFF], 0xBE26_12FF, 0x00BE_2612);
    FedOn(0x0000_0000, [0xFF, 0xFF, 0xFF], 0xFF, [0xFF, 0xFF, 0xFF, 0xFF], 0x00BE_2612, 0xDEBB_20E3);
  }

  /** A message with its own CRC behind it, low byte first, has always the same CRC. */
  lemma Residue(m: seq<bv8>)
    ensures var v := BitCrc.Crc(m);
      BitCrc.Crc(m + [(v & 0xFF) as bv8, ((v >> 8) & 0xFF) as bv8, ((v >> 16) & 0xFF) as bv8, (v >> 24) as bv8]) ==
        0x2144_DF1C
  {
    hide BitCrc.Crc, Bytes;
    BytesAre(BitCrc.Crc(m));
    BytesResidue(m);
  }

  lemma BytesResidue(m: seq<bv8>)
    ensures BitCrc.Crc(m + Bytes(BitCrc.Crc(m))) == 0x2144_DF1C
  {
    hide FeedAll, Bits, LowBits, ShiftOut, Xor, Bytes, ALL_ONES;
    var c, v := FeedAll(ALL_ONES, Bits(m)), BitCrc.Crc(m);
    BitsJoin(m, Bytes(v));
    FeedAllSplits(ALL_ONES, Bits(m), Bits(Bytes(v)));
    WordBits(v);
    WordBits(c);
    FeedOwn(c, 0, ALL_ONES, 32);
    XorLaws(c, 0, 0);
    OnesFed();
    XorLaws(0xDEBB_20E3, 0, 0);
    Complement();
  }

  lemma OnesFed()
    ensures FeedAll(0, LowBits(ALL_ONES, 32)) == 0xDEBB_20E3
  {
    hide FeedAll, Bits, LowBits, ShiftOut;
    WordBits(ALL_ONES);
    FourOnes();
    OnesBytes();
  }

  lemma OnesBytes()
    ensures Bytes(ALL_ONES) == [0xFF, 0xFF, 0xFF, 0xFF]
  {
  }

  lemma Complement()
    ensures Xor(0xDEBB_20E3, ALL_ONES) == 0x2144_DF1C
  {
  }

  /** The CRC of nothing is 0. */
  lemma EmptyCrc()
    ensures BitCrc.Crc([]) == 0
  {
    FedNothing(ALL_ONES);
  }

  lemma FirstDigitsTurned()
    ensures Turned(0xFFFF_FFFF, 0x31) == 0x7C23_1048
    ensures Turned(0x7C23_1048, 0x32) == 0xB0AC_BB32
    ensures Turned(0xB0AC_BB32, 0x33) == 0x77B7_9C2D
    ensures Turned(0x77B7_9C2D, 0x34) == 0x641C_1F5C
    ensures Turned(0x641C_1F5C, 0x35) == 0x340A_C5E3
  {
  }

  lemma FirstDigits()
    ensures FeedAll(0xFFFF_FFFF, Bits([0x31, 0x32, 0x33, 0x34, 0x35])) == 0x340A_C5E3
  {
    hide FeedAll, Bits, Turned;
    FirstDigitsTurned();
    FedNothing(0xFFFF_FFFF);
    FedOn(0xFFFF_FFFF, [], 0x31, [0x31], 0xFFFF_FFFF, 0x7C23_1048);
    FedOn(0xFFFF_FFFF, [0x31], 0x32, [0x31, 0x32], 0x7C23_1048, 0xB0AC_BB32);
    FedOn(0xFFFF_FFFF, [0x31, 0x32], 0x33, [0x31, 0x32, 0x33], 0xB0AC_BB32, 0x77B7_9C2D);
    FedOn(0xFFFF_FFFF, [0x31, 0x32, 0x33], 0x34, [0x31, 0x32, 0x33, 0x34], 0x77B7_9C2D, 0x641C_1F5C);
    FedOn(0xFFFF_FFFF, [0x31, 0x32, 0x33, 0x34], 0x35, [0x31, 0x32, 0x33, 0x34, 0x35], 0x641C_1F5C, 0x340A_C5E3);
  }

  lemma LastDigitsTurned()
    ensures Turned(0x340A_C5E3, 0x36) == 0xF68D_2C9E
    ensures Turned(0xF68D_2C9E, 0x37) == 0xAFFC_9660
    ensures Turned(0xAFFC_9660, 0x38) == 0x651F_2550
    ensures Turned(0x651F_2550, 0x39) == 0x340B_C6D9
  {
  }

  lemma LastDigits()
    ensures FeedAll(0x340A_C5E3, Bits([0x36, 0x37, 0x38, 0x39])) == 0x340B_C6D9
  {
    hide FeedAll, Bits, Turned;
    LastDigitsTurned();
    FedNothing(0x340A_C5E3);
    FedOn(0x340A_C5E3, [], 0x36, [0x36], 0x340A_C5E3, 0xF68D_2C9E);
    FedOn(0x340A_C5E3, [0x36], 0x37, [0x36, 0x37], 0xF68D_2C9E, 0xAFFC_9660);
    FedOn(0x340A_C5E3, [0x36, 0x37], 0x38, [0x36, 0x37, 0x38], 0xAFFC_9660, 0x651F_2550);
    FedOn(0x340A_C5E3, [0x36, 0x37, 0x38], 0x39, [0x36, 0x37, 0x38, 0x39], 0x651F_2550, 0x340B_C6D9);
  }

  /** The customary check value: the CRC of the characters "123456789". */
  lemma CheckValue()
    ensures BitCrc.Crc([0x31, 0x32, 0x33, 0x34, 0x35, 0x36, 0x37, 0x38, 0x39]) == 0xCBF4_3926
  {
    hide FeedAll, Bits;
    var x, y := [0x31, 0x32, 0x33, 0x34, 0x35], [0x36, 0x37, 0x38, 0x39];
    FirstDigits();
    LastDigits();
    BitsJoin(x, y);
    FeedAllSplits(ALL_ONES, Bits(x), Bits(y));
    assert x + y == [0x31, 0x32, 0x33, 0x34, 0x35, 0x36, 0x37, 0x38, 0x39];
  }
}
