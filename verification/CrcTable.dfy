/** The table of crc.c, entry by entry the register shifted eight times. */
module CrcTable {
  import opened Words
  import opened BitCrc

  const ROW0: seq<bv32> := [
    0x00000000, 0x77073096, 0xEE0E612C, 0x990951BA, 0x076DC419, 0x706AF48F, 0xE963A535, 0x9E6495A3,
    0x0EDB8832, 0x79DCB8A4, 0xE0D5E91E, 0x97D2D988, 0x09B64C2B, 0x7EB17CBD, 0xE7B82D07, 0x90BF1D91,
    0x1DB71064, 0x6AB020F2, 0xF3B97148, 0x84BE41DE, 0x1ADAD47D, 0x6DDDE4EB, 0xF4D4B551, 0x83D385C7,
    0x136C9856, 0x646BA8C0, 0xFD62F97A, 0x8A65C9EC, 0x14015C4F, 0x63066CD9, 0xFA0F3D63, 0x8D080DF5
  ]
  const ROW1: seq<bv32> := [
    0x3B6E20C8, 0x4C69105E, 0xD56041E4, 0xA2677172, 0x3C03E4D1, 0x4B04D447, 0xD20D85FD, 0xA50AB56B,
    0x35B5A8FA, 0x42B2986C, 0xDBBBC9D6, 0xACBCF940, 0x32D86CE3, 0x45DF5C75, 0xDCD60DCF, 0xABD13D59,
    0x26D930AC, 0x51DE003A, 0xC8D75180, 0xBFD06116, 0x21B4F4B5, 0x56B3C423, 0xCFBA9599, 0xB8BDA50F,
    0x2802B89E, 0x5F058808, 0xC60CD9B2, 0xB10BE924, 0x2F6F7C87, 0x58684C11, 0xC1611DAB, 0xB6662D3D
  ]
  const ROW2: seq<bv32> := [
    0x76DC4190, 0x01DB7106, 0x98D220BC, 0xEFD5102A, 0x71B18589, 0x06B6B51F, 0x9FBFE4A5, 0xE8B8D433,
    0x7807C9A2, 0x0F00F934, 0x9609A88E, 0xE10E9818, 0x7F6A0DBB, 0x086D3D2D, 0x91646C97, 0xE6635C01,
    0x6B6B51F4, 0x1C6C6162, 0x856530D8, 0xF262004E, 0x6C0695ED, 0x1B01A57B, 0x8208F4C1, 0xF50FC457,
    0x65B0D9C6, 0x12B7E950, 0x8BBEB8EA, 0xFCB9887C, 0x62DD1DDF, 0x15DA2D49, 0x8CD37CF3, 0xFBD44C65
  ]
  const ROW3: seq<bv32> := [
    0x4DB26158, 0x3AB551CE, 0xA3BC0074, 0xD4BB30E2, 0x4ADFA541, 0x3DD895D7, 0xA4D1C46D, 0xD3D6F4FB,
    0x4369E96A, 0x346ED9FC, 0xAD678846, 0xDA60B8D0, 0x44042D73, 0x33031DE5, 0xAA0A4C5F, 0xDD0D7CC9,
    0x5005713C, 0x270241AA, 0xBE0B1010, 0xC90C2086, 0x5768B525, 0x206F85B3, 0xB966D409, 0xCE61E49F,
    0x5EDEF90E, 0x29D9C998, 0xB0D09822, 0xC7D7A8B4, 0x59B33D17, 0x2EB40D81, 0xB7BD5C3B, 0xC0BA6CAD
  ]
  const ROW4: seq<bv32> := [
    0xEDB88320, 0x9ABFB3B6, 0x03B6E20C, 0x74B1D29A, 0xEAD54739, 0x9DD277AF, 0x04DB2615, 0x73DC1683,
    0xE3630B12, 0x94643B84, 0x0D6D6A3E, 0x7A6A5AA8, 0xE40ECF0B, 0x9309FF9D, 0x0A00AE27, 0x7D079EB1,
    0xF00F9344, 0x8708A3D2, 0x1E01F268, 0x6906C2FE, 0xF762575D, 0x806567CB, 0x196C3671, 0x6E6B06E7,
    0xFED41B76, 0x89D32BE0, 0x10DA7A5A, 0x67DD4ACC, 0xF9B9DF6F, 0x8EBEEFF9, 0x17B7BE43, 0x60B08ED5
  ]
  const ROW5: seq<bv32> := [
    0xD6D6A3E8, 0xA1D1937E, 0x38D8C2C4, 0x4FDFF252, 0xD1BB67F1, 0xA6BC5767, 0x3FB506DD, 0x48B2364B,
    0xD80D2BDA, 0xAF0A1B4C, 0x36034AF6, 0x41047A60, 0xDF60EFC3, 0xA867DF55, 0x316E8EEF, 0x4669BE79,
    0xCB61B38C, 0xBC66831A, 0x256FD2A0, 0x5268E236, 0xCC0C7795, 0xBB0B4703, 0x220216B9, 0x5505262F,
    0xC5BA3BBE, 0xB2BD0B28, 0x2BB45A92, 0x5CB36A04, 0xC2D7FFA7, 0xB5D0CF31, 0x2CD99E8B, 0x5BDEAE1D
  ]
  const ROW6: seq<bv32> := [
    0x9B64C2B0, 0xEC63F226, 0x756AA39C, 0x026D930A, 0x9C0906A9, 0xEB0E363F, 0x72076785, 0x05005713,
    0x95BF4A82, 0xE2B87A14, 0x7BB12BAE, 0x0CB61B38, 0x92D28E9B, 0xE5D5BE0D, 0x7CDCEFB7, 0x0BDBDF21,
    0x86D3D2D4, 0xF1D4E242, 0x68DDB3F8, 0x1FDA836E, 0x81BE16CD, 0xF6B9265B, 0x6FB077E1, 0x18B74777,
    0x88085AE6, 0xFF0F6A70, 0x66063BCA, 0x11010B5C, 0x8F659EFF, 0xF862AE69, 0x616BFFD3, 0x166CCF45
  ]
  const ROW7: seq<bv32> := [
    0xA00AE278, 0xD70DD2EE, 0x4E048354, 0x3903B3C2, 0xA7672661, 0xD06016F7, 0x4969474D, 0x3E6E77DB,
    0xAED16A4A, 0xD9D65ADC, 0x40DF0B66, 0x37D83BF0, 0xA9BCAE53, 0xDEBB9EC5, 0x47B2CF7F, 0x30B5FFE9,
    0xBDBDF21C, 0xCABAC28A, 0x53B39330, 0x24B4A3A6, 0xBAD03605, 0xCDD70693, 0x54DE5729, 0x23D967BF,
    0xB3667A2E, 0xC4614AB8, 0x5D681B02, 0x2A6F2B94, 0xB40BBE37, 0xC30C8EA1, 0x5A05DF1B, 0x2D02EF8D
  ]
  const CRC_TABLE: seq<bv32> := ROW0 + ROW1 + ROW2 + ROW3 + ROW4 + ROW5 + ROW6 + ROW7

  // --------------------------------------------------------- the table against the shift register

  function Step8(c: bv32): bv32 {
    Step(Step(Step(Step(Step(Step(Step(Step(c))))))))
  }

  /** Every entry of the table is its index shifted through the register eight times. */
  lemma TableEntry(i: bv8)
    ensures |CRC_TABLE| == 256
    ensures CRC_TABLE[i as int] == Step8(i as bv32)
  {
    hide Step8, ROW0, ROW1, ROW2, ROW3, ROW4, ROW5, ROW6, ROW7;
    RowLengths();
    if i < 32 {
      Row0(i);
    } else if i < 64 {
      Row1(i);
    } else if i < 96 {
      Row2(i);
    } else if i < 128 {
      Row3(i);
    } else if i < 160 {
      Row4(i);
    } else if i < 192 {
      Row5(i);
    } else if i < 224 {
      Row6(i);
    } else {
      Row7(i);
    }
  }

  lemma RowLengths()
    ensures |ROW0| == |ROW1| == |ROW2| == |ROW3| == |ROW4| == |ROW5| == |ROW6| == |ROW7| == 32
  {
  }

  lemma Row0(i: bv8)
    requires i < 32
    ensures |ROW0| == 32 && ROW0[i as int] == Step8(i as bv32)
  {
  }

  lemma Row1(i: bv8)
    requires 32 <= i < 64
    ensures |ROW1| == 32 && ROW1[i as int - 32] == Step8(i as bv32)
  {
  }

  lemma Row2(i: bv8)
    requires 64 <= i < 96
    ensures |ROW2| == 32 && ROW2[i as int - 64] == Step8(i as bv32)
  {
  }

  lemma Row3(i: bv8)
    requires 96 <= i < 128
    ensures |ROW3| == 32 && ROW3[i as int - 96] == Step8(i as bv32)
  {
  }

  lemma Row4(i: bv8)
    requires 128 <= i < 160
    ensures |ROW4| == 32 && ROW4[i as int - 128] == Step8(i as bv32)
  {
  }

  lemma Row5(i: bv8)
    requires 160 <= i < 192
    ensures |ROW5| == 32 && ROW5[i as int - 160] == Step8(i as bv32)
  {
  }

  lemma Row6(i: bv8)
    requires 192 <= i < 224
    ensures |ROW6| == 32 && ROW6[i as int - 192] == Step8(i as bv32)
  {
  }

  lemma Row7(i: bv8)
    requires 224 <= i
    ensures |ROW7| == 32 && ROW7[i as int - 224] == Step8(i as bv32)
  {
  }

  lemma Step8Linear(a: bv32, b: bv32)
    ensures Xor(Step8(a), Step8(b)) == Step8(Xor(a, b))
  {
    hide Step, Xor;
    var a1, b1 := Step(a), Step(b);
    var a2, b2 := Step(a1), Step(b1);
    var a3, b3 := Step(a2), Step(b2);
    var a4, b4 := Step(a3), Step(b3);
    var a5, b5 := Step(a4), Step(b4);
    var a6, b6 := Step(a5), Step(b5);
    var a7, b7 := Step(a6), Step(b6);
    StepLinear(a, b);
    StepLinear(a1, b1);
    StepLinear(a2, b2);
    StepLinear(a3, b3);
    StepLinear(a4, b4);
    StepLinear(a5, b5);
    StepLinear(a6, b6);
    StepLinear(a7, b7);
  }

  lemma Step8OfHighBits(c: bv32)
    requires c & 0xFF == 0
    ensures Step8(c) == c >> 8
  {
  }

  lemma SplitLowByte(c: bv32)
    ensures Xor(c & 0xFFFF_FF00, c & 0xFF) == c
    ensures (c & 0xFFFF_FF00) & 0xFF == 0
    ensures (c & 0xFFFF_FF00) >> 8 == c >> 8
  {
  }

  /** Only the low byte of the register selects what is folded in. */
  lemma Step8Splits(c: bv32)
    ensures Step8(c) == Xor(c >> 8, Step8(c & 0xFF))
  {
    hide Xor, Step8;
    SplitLowByte(c);
    Step8OfHighBits(c & 0xFFFF_FF00);
    Step8Linear(c & 0xFFFF_FF00, c & 0xFF);
  }

  function StepN(c: bv32, n: nat): bv32
    decreases n
  {
    if n == 0 then c else StepN(Step(c), n - 1)
  }

  lemma Step8IsStepN(c: bv32)
    ensures Step8(c) == StepN(c, 8)
  {
    hide Step;
    var c4 := Step(Step(Step(Step(c))));
    assert StepN(c, 8) == StepN(c4, 4);
  }

  /** A message bit may be folded in early, while still above the lowest place of the register. */
  lemma FeedEarly(c: bv32, t: bv32)
    ensures Step(Xor(c, t)) == Xor(Feed(c, Odd(t)), Half(t))
  {
    hide Xor, Half, Odd;
    XorLaws(c, t, ONE);
    XorLaws(t, ONE, ONE);
    OddPart(t);
    if Odd(t) {
      var high := Xor(t, ONE);
      assert Step(high) == Half(t);
      StepLinear(Xor(c, ONE), high);
      XorLaws(c, high, ONE);
    } else {
      StepLinear(c, t);
    }
  }

  /** Folding in `n` bits at once or one by one. */
  lemma {:induction false} FeedLowBits(c: bv32, t: bv32, n: nat)
    ensures StepN(Xor(c, t), n) == Xor(FeedAll(c, LowBits(t, n)), ShiftOut(t, n))
    decreases n
  {
    hide Xor, Half, Odd, Step, Feed;
    if n > 0 {
      FeedEarly(c, t);
      assert LowBits(t, n)[1..] == LowBits(Half(t), n - 1);
      FeedLowBits(Feed(c, Odd(t)), Half(t), n - 1);
    }
  }

  lemma LowByteOfXor(c: bv32, b: bv8)
    ensures Xor(c, b as bv32) & 0xFF == (((c & 0xFF) as bv8) ^ b) as bv32
    ensures Xor(c, b as bv32) >> 8 == c >> 8
  {
  }

  /** Eight message bits, with the register shifted eight times at once. */
  lemma FeedEight(c: bv32, b: bv8)
    ensures FeedAll(c, ByteBits(b)) == Turned(c, b)
  {
    hide Xor, Step8, StepN, ShiftOut, FeedAll, LowBits, Turned;
    var t := b as bv32;
    FeedLowBits(c, t, 8);
    ByteShiftsOut(b);
    XorLaws(FeedAll(c, ByteBits(b)), 0, 0);
    Step8IsStepN(Xor(c, t));
    WholeStep8(c, b);
  }

  lemma WholeStep8(c: bv32, b: bv8)
    ensures Step8(Xor(c, b as bv32)) == Turned(c, b)
  {
    hide Xor, Step8;
    Step8Splits(Xor(c, b as bv32));
    LowByteOfXor(c, b);
  }

  function Turned(c: bv32, b: bv8): bv32 {
    Xor(c >> 8, Step8((((c & 0xFF) as bv8) ^ b) as bv32))
  }

  /** One turn of the table-driven loop feeds eight message bits. */
  lemma FeedByte(c: bv32, b: bv8)
    ensures |CRC_TABLE| == 256
    ensures Xor(c >> 8, CRC_TABLE[(((c & 0xFF) as bv8) ^ b) as int]) == FeedAll(c, ByteBits(b))
  {
    hide Xor, Step8, FeedAll, ByteBits, CRC_TABLE;
    FeedEight(c, b);
    TableEntry(((c & 0xFF) as bv8) ^ b);
  }
}
