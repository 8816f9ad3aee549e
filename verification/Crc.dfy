/** crc.c: the table-driven CRC-32 and the CRC field of a table header. */
module Crc {
  import opened Words
  import opened BitCrc
  import opened CrcTable
  import CrcResidue

  // ------------------------------------------------------------------------------- CalculateCrc

  /** `(UINT32) acc` */
  function Low32(acc: bv64): bv32 {
    (acc & 0xFFFF_FFFF) as bv32
  }

  /** `(UINT8) acc ^ b` */
  function TableIndex(acc: bv64, b: bv8): (i: int)
    ensures 0 <= i < 256
  {
    (((acc & 0xFF) as bv8) ^ b) as int
  }

  lemma NarrowTurn(acc: bv64, t: bv32)
    requires acc <= 0xFFFF_FFFF
    ensures (acc >> 8) ^ (t as bv64) <= 0xFFFF_FFFF
    ensures Low32((acc >> 8) ^ (t as bv64)) == Xor(Low32(acc) >> 8, t)
  {
  }

  lemma NarrowIndex(acc: bv64, b: bv8)
    ensures TableIndex(acc, b) == (((Low32(acc) & 0xFF) as bv8) ^ b) as int
  {
    assert (acc & 0xFF) as bv8 == (Low32(acc) & 0xFF) as bv8;
  }

  lemma NarrowEnd(acc: bv64)
    ensures Low32(acc ^ 0xFFFF_FFFF) == Xor(Low32(acc), ALL_ONES)
  {
  }

  /** One turn of the loop consumes one byte of the message. */
  lemma LoopTurn(acc: bv64, rest: seq<bv8>)
    requires acc <= 0xFFFF_FFFF && rest != []
    ensures |CRC_TABLE| == 256
    ensures var next := (acc >> 8) ^ (CRC_TABLE[TableIndex(acc, rest[0])] as bv64);
      && next <= 0xFFFF_FFFF
      && FeedAll(Low32(next), Bits(rest[1..])) == FeedAll(Low32(acc), Bits(rest))
  {
    hide CRC_TABLE, FeedAll, ByteBits, Low32, TableIndex, Xor;
    var c, b := Low32(acc), rest[0];
    FeedByte(c, b);
    NarrowIndex(acc, b);
    NarrowTurn(acc, CRC_TABLE[TableIndex(acc, b)]);
    FeedAllSplits(c, ByteBits(b), Bits(rest[1..]));
  }

  /** The accumulator is a 64-bit UINTN that stays a 32-bit value, and the result is the CRC-32 of the
      `Size` bytes at `start`. */
  method CalculateCrc(mem: array<bv8>, start: nat, Size: nat) returns (r: bv32)
    requires start + Size <= mem.Length
    ensures r == BitCrc.Crc(mem[start..start + Size])
    ensures Size == 0 ==> r == 0
  {
    hide CRC_TABLE, FeedAll, Bits, Low32, TableIndex, Xor;
    CrcResidue.EmptyCrc();
    ghost var bytes := mem[start..start + Size];
    ghost var whole := FeedAll(ALL_ONES, Bits(bytes));
    var acc: bv64 := 0xFFFF_FFFF;
    var pt, size := start, Size;
    assert bytes[0..] == bytes;
    NarrowStart();
    while size != 0
      invariant 0 <= size <= Size && pt == start + Size - size
      invariant acc <= 0xFFFF_FFFF
      invariant whole == FeedAll(Low32(acc), Bits(bytes[Size - size..]))
      decreases size
    {
      ghost var rest := bytes[Size - size..];
      assert rest[0] == mem[pt] && rest[1..] == bytes[Size - size + 1..];
      LoopTurn(acc, rest);
      acc := (acc >> 8) ^ (CRC_TABLE[TableIndex(acc, mem[pt])] as bv64);
      pt := pt + 1;
      size := size - 1;
    }
    assert whole == Low32(acc) by {
      assert bytes[Size..] == [];
      FeedNothing(Low32(acc));
    }
    NarrowEnd(acc);
    r := Low32(acc ^ 0xFFFF_FFFF);
  }

  lemma NarrowStart()
    ensures Low32(0xFFFF_FFFF) == ALL_ONES
  {
  }

  lemma FeedNothing(c: bv32)
    ensures FeedAll(c, Bits([])) == c
  {
  }

  // -------------------------------------------------------------- the CRC field of a table header

  /** EFI_TABLE_HEADER: Signature, Revision, HeaderSize, then CRC32 at byte 16, then Reserved. */
  const CRC_AT := 16
  const HEADER_LENGTH := 24

  function LittleEndian(b0: bv8, b1: bv8, b2: bv8, b3: bv8): bv32 {
    (b0 as bv32) | ((b1 as bv32) << 8) | ((b2 as bv32) << 16) | ((b3 as bv32) << 24)
  }

  function ByteOf(v: bv32, k: nat): bv8
    requires k < 4
  {
    if k == 0 then (v & 0xFF) as bv8
    else if k == 1 then ((v >> 8) & 0xFF) as bv8
    else if k == 2 then ((v >> 16) & 0xFF) as bv8
    else ((v >> 24) & 0xFF) as bv8
  }

  lemma LittleEndianRoundTrip(v: bv32)
    ensures LittleEndian(ByteOf(v, 0), ByteOf(v, 1), ByteOf(v, 2), ByteOf(v, 3)) == v
  {
  }

  lemma LittleEndianDetermines(a0: bv8, a1: bv8, a2: bv8, a3: bv8, b0: bv8, b1: bv8, b2: bv8, b3: bv8)
    requires LittleEndian(a0, a1, a2, a3) == LittleEndian(b0, b1, b2, b3)
    ensures a0 == b0 && a1 == b1 && a2 == b2 && a3 == b3
  {
  }

  function Field(h: seq<bv8>): bv32
    requires |h| >= HEADER_LENGTH
  {
    LittleEndian(h[16], h[17], h[18], h[19])
  }

  function WithField(h: seq<bv8>, v: bv32): (r: seq<bv8>)
    requires |h| >= HEADER_LENGTH
    ensures |r| == |h| && Field(r) == v
    ensures r[..CRC_AT] == h[..CRC_AT] && r[CRC_AT + 4..] == h[CRC_AT + 4..]
  {
    LittleEndianRoundTrip(v);
    h[16 := ByteOf(v, 0)][17 := ByteOf(v, 1)][18 := ByteOf(v, 2)][19 := ByteOf(v, 3)]
  }

  /** The CRC-32 of the first `size` bytes with the CRC32 field taken as zero. */
  function HeaderCrc(h: seq<bv8>, size: nat): bv32
    requires |h| >= HEADER_LENGTH && size <= |h|
  {
    BitCrc.Crc(WithField(h, 0)[..size])
  }

  /** The header's own CRC32 field vouches for its first `size` bytes. */
  predicate Sealed(h: seq<bv8>, size: nat)
    requires |h| >= HEADER_LENGTH && size <= |h|
  {
    Field(h) == HeaderCrc(h, size)
  }

  method WriteField(hdr: array<bv8>, v: bv32)
    requires hdr.Length >= HEADER_LENGTH
    modifies hdr
    ensures hdr[..] == WithField(old(hdr[..]), v)
  {
    hdr[16] := ByteOf(v, 0);
    hdr[17] := ByteOf(v, 1);
    hdr[18] := ByteOf(v, 2);
    hdr[19] := ByteOf(v, 3);
  }

  method SetCrcAltSize(Size: nat, hdr: array<bv8>)
    requires hdr.Length >= HEADER_LENGTH && Size <= hdr.Length
    modifies hdr
    ensures Sealed(hdr[..], Size)
    ensures hdr[..CRC_AT] == old(hdr[..CRC_AT]) && hdr[CRC_AT + 4..] == old(hdr[CRC_AT + 4..])
  {
    hide BitCrc.Crc;
    ghost var before := hdr[..];
    WriteField(hdr, 0);
    assert hdr[..][..Size] == hdr[0..Size];
    var crc := CalculateCrc(hdr, 0, Size);
    WriteField(hdr, crc);
    SealedBySet(before, Size);
    FieldWrittenLast(before, 0, crc);
    assert hdr[..] == WithField(before, crc);
    assert forall j :: 0 <= j < CRC_AT || CRC_AT + 4 <= j < hdr.Length ==> hdr[j] == before[j];
  }

  /** Accepts exactly a sealed header whose size is neither zero nor over the limit, and leaves every
      byte of it as it was. */
  method CheckCrcAltSize(MaxSize: nat, Size: nat, hdr: array<bv8>) returns (ok: bool)
    requires hdr.Length >= HEADER_LENGTH && (Size <= hdr.Length || 0 < MaxSize < Size)
    modifies hdr
    ensures hdr[..] == old(hdr[..])
    ensures ok <==> Size != 0 && (MaxSize == 0 || Size <= MaxSize) && Sealed(hdr[..], Size)
  {
    hide BitCrc.Crc;
    if Size == 0 {
      return false;
    }
    if MaxSize != 0 && Size > MaxSize {
      return false;
    }
    ghost var before := hdr[..];
    var orgCrc := LittleEndian(hdr[16], hdr[17], hdr[18], hdr[19]);
    WriteField(hdr, 0);
    assert hdr[..][..Size] == hdr[0..Size];
    var crc := CalculateCrc(hdr, 0, Size);
    WriteField(hdr, orgCrc);
    FieldWrittenLast(before, 0, orgCrc);
    FieldRestored(before);
    ok := orgCrc == crc;
  }

  /** The HeaderSize field, in front of the CRC32 field. */
  function HeaderSize(h: seq<bv8>): nat
    requires |h| >= HEADER_LENGTH
  {
    LittleEndian(h[12], h[13], h[14], h[15]) as nat
  }

  method SetCrc(hdr: array<bv8>)
    requires hdr.Length >= HEADER_LENGTH && HeaderSize(hdr[..]) <= hdr.Length
    modifies hdr
    ensures HeaderSize(hdr[..]) == old(HeaderSize(hdr[..])) && Sealed(hdr[..], HeaderSize(hdr[..]))
    ensures hdr[..CRC_AT] == old(hdr[..CRC_AT]) && hdr[CRC_AT + 4..] == old(hdr[CRC_AT + 4..])
  {
    hide LittleEndian, Sealed;
    ghost var before := hdr[..];
    SetCrcAltSize(LittleEndian(hdr[12], hdr[13], hdr[14], hdr[15]) as nat, hdr);
    SameHeaderSize(before, hdr[..]);
  }

  lemma SameHeaderSize(h: seq<bv8>, g: seq<bv8>)
    requires |h| >= HEADER_LENGTH && |g| >= HEADER_LENGTH && g[..CRC_AT] == h[..CRC_AT]
    ensures HeaderSize(g) == HeaderSize(h)
  {
    hide LittleEndian;
    assert forall k :: 0 <= k < CRC_AT ==> g[k] == g[..CRC_AT][k] == h[k];
  }

  /** The size is the header's own; a limit keeps the check within the memory there is. */
  method CheckCrc(MaxSize: nat, hdr: array<bv8>) returns (ok: bool)
    requires hdr.Length >= HEADER_LENGTH
    requires HeaderSize(hdr[..]) <= hdr.Length || 0 < MaxSize <= hdr.Length
    modifies hdr
    ensures hdr[..] == old(hdr[..])
    ensures var size := HeaderSize(hdr[..]);
      ok <==> size != 0 && (MaxSize == 0 || size <= MaxSize) && Sealed(hdr[..], size)
  {
    hide LittleEndian, Sealed;
    ok := CheckCrcAltSize(MaxSize, LittleEndian(hdr[12], hdr[13], hdr[14], hdr[15]) as nat, hdr);
  }

  lemma FieldWrittenLast(h: seq<bv8>, v: bv32, w: bv32)
    requires |h| >= HEADER_LENGTH
    ensures WithField(WithField(h, v), w) == WithField(h, w)
  {
    hide ByteOf, Field;
  }

  lemma FieldRestored(h: seq<bv8>)
    requires |h| >= HEADER_LENGTH
    ensures WithField(h, Field(h)) == h
  {
    hide LittleEndian;
    var g := WithField(h, Field(h));
    LittleEndianDetermines(g[16], g[17], g[18], g[19], h[16], h[17], h[18], h[19]);
    assert forall j :: 0 <= j < CRC_AT ==> g[j] == g[..CRC_AT][j] == h[..CRC_AT][j] == h[j];
    assert forall j :: CRC_AT + 4 <= j < |h| ==>
      g[j] == g[CRC_AT + 4..][j - CRC_AT - 4] == h[CRC_AT + 4..][j - CRC_AT - 4] == h[j];
  }

  lemma SealedBySet(h: seq<bv8>, size: nat)
    requires |h| >= HEADER_LENGTH && size <= |h|
    ensures Sealed(WithField(h, HeaderCrc(h, size)), size)
  {
    hide BitCrc.Crc;
    FieldWrittenLast(h, HeaderCrc(h, size), 0);
  }

  // ----------------------------------------------------------------------------- damage is detected

  /** Bit `j` of the header in the order the CRC reads it. */
  function HeaderBit(h: seq<bv8>, j: nat): bool
    requires j < 8 * |h|
  {
    ByteBits(h[j / 8])[j % 8]
  }

  lemma CrcDiffers(x: seq<bv8>, y: seq<bv8>, i: nat)
    requires |x| == |y| && x != y
    requires forall j :: 0 <= j < 8 * |x| && !(i <= j < i + 32) ==> HeaderBit(x, j) == HeaderBit(y, j)
    ensures BitCrc.Crc(x) != BitCrc.Crc(y)
  {
    hide ByteBits, FeedAll, Xor;
    var a, b := Bits(x), Bits(y);
    forall j | 0 <= j < |a| && !(i <= j < i + 32) ensures a[j] == b[j] {
      BitAt(x, j);
      BitAt(y, j);
      assert HeaderBit(x, j) == HeaderBit(y, j);
    }
    if a == b {
      BitsDetermine(x, y);
    }
    BurstDetected(ALL_ONES, a, b, i);
    XorCancels(FeedAll(ALL_ONES, a), FeedAll(ALL_ONES, b), ALL_ONES);
    XorDifferent(FeedAll(ALL_ONES, a), FeedAll(ALL_ONES, b));
    XorDifferent(BitCrc.Crc(x), BitCrc.Crc(y));
  }

  lemma {:induction false} BitsDetermine(x: seq<bv8>, y: seq<bv8>)
    requires |x| == |y| && Bits(x) == Bits(y)
    ensures x == y
    decreases |x|
  {
    hide ByteBits;
    if x != [] {
      assert ByteBits(x[0]) == Bits(x)[..8] && ByteBits(y[0]) == Bits(y)[..8];
      ByteBitsDetermine(x[0], y[0]);
      assert Bits(x[1..]) == Bits(x)[8..] && Bits(y[1..]) == Bits(y)[8..];
      BitsDetermine(x[1..], y[1..]);
      assert x == [x[0]] + x[1..] && y == [y[0]] + y[1..];
    }
  }

  /** A sealed header with damage inside its first `size` bytes, outside the CRC32 field and confined to
      32 consecutive bits, is no longer sealed: the check rejects it. */
  lemma BurstBreaksSeal(h: seq<bv8>, g: seq<bv8>, size: nat, i: nat)
    requires |h| == |g| && |h| >= HEADER_LENGTH && size <= |h|
    requires Sealed(h, size)
    requires g[CRC_AT..CRC_AT + 4] == h[CRC_AT..CRC_AT + 4] && g[..size] != h[..size]
    requires forall j :: 0 <= j < 8 * size && !(i <= j < i + 32) ==> HeaderBit(g, j) == HeaderBit(h, j)
    ensures !Sealed(g, size)
  {
    hide BitCrc.Crc, Field, WithField, HeaderBit;
    SameField(h, g);
    var x, y := WithField(h, 0)[..size], WithField(g, 0)[..size];
    DamageKept(h, g, size);
    forall j | 0 <= j < 8 * size && !(i <= j < i + 32) ensures HeaderBit(x, j) == HeaderBit(y, j) {
      assert HeaderBit(g, j) == HeaderBit(h, j);
      BitKept(h, g, size, j);
    }
    CrcDiffers(x, y, i);
  }

  lemma SameField(h: seq<bv8>, g: seq<bv8>)
    requires |h| == |g| && |h| >= HEADER_LENGTH && g[CRC_AT..CRC_AT + 4] == h[CRC_AT..CRC_AT + 4]
    ensures Field(g) == Field(h)
  {
    hide LittleEndian;
    assert forall k :: CRC_AT <= k < CRC_AT + 4 ==> g[k] == g[CRC_AT..CRC_AT + 4][k - CRC_AT] == h[k];
  }

  /** Damage outside the field is still there when the field is taken as zero. */
  lemma DamageKept(h: seq<bv8>, g: seq<bv8>, size: nat)
    requires |h| == |g| && |h| >= HEADER_LENGTH && size <= |h|
    requires g[CRC_AT..CRC_AT + 4] == h[CRC_AT..CRC_AT + 4] && g[..size] != h[..size]
    ensures WithField(h, 0)[..size] != WithField(g, 0)[..size]
  {
    hide ByteOf, Field;
    assert forall k :: CRC_AT <= k < CRC_AT + 4 ==> g[k] == g[CRC_AT..CRC_AT + 4][k - CRC_AT] == h[k];
    var k :| 0 <= k < size && g[k] != h[k];
    assert WithField(h, 0)[..size][k] == h[k] && WithField(g, 0)[..size][k] == g[k];
  }

  lemma BitKept(h: seq<bv8>, g: seq<bv8>, size: nat, j: nat)
    requires |h| == |g| && |h| >= HEADER_LENGTH && size <= |h| && j < 8 * size
    requires HeaderBit(g, j) == HeaderBit(h, j)
    ensures HeaderBit(WithField(h, 0)[..size], j) == HeaderBit(WithField(g, 0)[..size], j)
  {
    hide ByteOf, Field, ByteBits;
  }

  /** The same for changes within any four adjacent bytes. */
  lemma ByteRunBreaksSeal(h: seq<bv8>, g: seq<bv8>, size: nat, b: nat)
    requires |h| == |g| && |h| >= HEADER_LENGTH && size <= |h|
    requires Sealed(h, size)
    requires g[CRC_AT..CRC_AT + 4] == h[CRC_AT..CRC_AT + 4] && g[..size] != h[..size]
    requires forall k :: 0 <= k < size && !(b <= k < b + 4) ==> g[k] == h[k]
    ensures !Sealed(g, size)
  {
    BurstBreaksSeal(h, g, size, 8 * b);
  }

  /** A change to nothing but the CRC32 field always breaks the seal. */
  lemma FieldDamageBreaksSeal(h: seq<bv8>, g: seq<bv8>, size: nat)
    requires |h| == |g| && |h| >= HEADER_LENGTH && size <= |h|
    requires Sealed(h, size)
    requires g[..CRC_AT] == h[..CRC_AT] && g[CRC_AT + 4..] == h[CRC_AT + 4..]
    ensures Sealed(g, size) <==> g == h
  {
    hide BitCrc.Crc, ByteOf, LittleEndian;
    assert WithField(g, 0) == WithField(h, 0);
    if Sealed(g, size) {
      FieldRestored(g);
      FieldRestored(h);
      assert WithField(g, Field(h)) == WithField(h, Field(h));
    }
  }

  // ------------------------------------------------------------------------ what pins the CRC down

  /** Of all four-byte tails exactly the CRC of the message, low byte first, leaves the residue. */
  lemma ResidueExactly(m: seq<bv8>, tail: seq<bv8>)
    requires |tail| == 4
    ensures BitCrc.Crc(m + tail) == 0x2144_DF1C <==> tail == Word(BitCrc.Crc(m))
  {
    hide BitCrc.Crc, Word;
    OwnResidue(m);
    OneResidue(m, tail, Word(BitCrc.Crc(m)));
  }

  lemma OwnResidue(m: seq<bv8>)
    ensures |Word(BitCrc.Crc(m))| == 4 && BitCrc.Crc(m + Word(BitCrc.Crc(m))) == 0x2144_DF1C
  {
    hide BitCrc.Crc, ByteOf;
    CrcResidue.Residue(m);
  }

  lemma OneResidue(m: seq<bv8>, x: seq<bv8>, y: seq<bv8>)
    requires |x| == |y| == 4 && BitCrc.Crc(m + y) == 0x2144_DF1C
    ensures BitCrc.Crc(m + x) == 0x2144_DF1C <==> x == y
  {
    hide BitCrc.Crc, ByteBits;
    if x != y {
      var a, b := m + x, m + y;
      assert a[|m|..] == x && b[|m|..] == y;
      forall j | 0 <= j < 8 * |a| && !(8 * |m| <= j < 8 * |m| + 32)
        ensures HeaderBit(a, j) == HeaderBit(b, j)
      {
        assert a[j / 8] == m[j / 8] == b[j / 8];
      }
      CrcDiffers(a, b, 8 * |m|);
    }
  }

  /** EFI_TABLE_HEADER, the signature as its bytes. */
  datatype TableHeader =
    TableHeader(Signature: seq<bv8>, Revision: bv32, HeaderSize: bv32, CRC32: bv32, Reserved: bv32)
  {
    function Encode(): seq<bv8> {
      Signature + Word(Revision) + Word(HeaderSize) + Word(CRC32) + Word(Reserved)
    }
  }

  /** A UINT32 in memory, low byte first. */
  function Word(v: bv32): (bytes: seq<bv8>)
    ensures bytes == [(v & 0xFF) as bv8, ((v >> 8) & 0xFF) as bv8, ((v >> 16) & 0xFF) as bv8, (v >> 24) as bv8]
  {
    TopByte(v);
    [ByteOf(v, 0), ByteOf(v, 1), ByteOf(v, 2), ByteOf(v, 3)]
  }

  lemma TopByte(v: bv32)
    ensures ((v >> 24) & 0xFF) as bv8 == (v >> 24) as bv8
  {
  }

  /** What the routines read and write are the fields of the header by these names, and nothing else. */
  lemma FieldsOf(t: TableHeader, rest: seq<bv8>, v: bv32)
    requires |t.Signature| == 8
    ensures var h := t.Encode() + rest;
      && |h| >= 24 && HeaderSize(h) == t.HeaderSize as nat && Field(h) == t.CRC32
      && WithField(h, v) == t.(CRC32 := v).Encode() + rest
  {
    hide ByteOf, LittleEndian, TableHeader.Encode;
    FieldBytes(t, rest);
    LittleEndianRoundTrip(t.HeaderSize);
    LittleEndianRoundTrip(t.CRC32);
    FieldReplaced(t, rest, v);
  }

  /** A header is sealed exactly when its CRC32 is the CRC of its first `size` bytes with zero in that field. */
  lemma SealedIs(t: TableHeader, rest: seq<bv8>, size: nat)
    requires |t.Signature| == 8 && size <= 24 + |rest|
    ensures var h, zeroed := t.Encode() + rest, t.(CRC32 := 0).Encode() + rest;
      |h| == |zeroed| == 24 + |rest| && (Sealed(h, size) <==> t.CRC32 == BitCrc.Crc(zeroed[..size]))
  {
    hide BitCrc.Crc, TableHeader.Encode, Field, WithField, LittleEndian, ByteOf;
    FieldBytes(t, rest);
    FieldBytes(t.(CRC32 := 0), rest);
    FieldsOf(t, rest, 0);
  }

  lemma FieldReplaced(t: TableHeader, rest: seq<bv8>, v: bv32)
    requires |t.Signature| == 8
    ensures |t.Encode() + rest| >= 24 && WithField(t.Encode() + rest, v) == t.(CRC32 := v).Encode() + rest
  {
    hide ByteOf, LittleEndian, Field, TableHeader.Encode;
    var h, g := t.Encode() + rest, t.(CRC32 := v).Encode() + rest;
    FieldBytes(t, rest);
    FieldBytes(t.(CRC32 := v), rest);
    SameOutside(t, rest, v);
    var w := h[16 := ByteOf(v, 0)][17 := ByteOf(v, 1)][18 := ByteOf(v, 2)][19 := ByteOf(v, 3)];
    forall k | 0 <= k < |h| ensures w[k] == g[k] {
      if 16 <= k < 20 {
        assert g[16 + (k - 16)] == ByteOf(v, k - 16);
      }
    }
    assert w == g;
  }

  lemma SameOutside(t: TableHeader, rest: seq<bv8>, v: bv32)
    requires |t.Signature| == 8
    ensures var h, g := t.Encode() + rest, t.(CRC32 := v).Encode() + rest;
      |h| == |g| >= 24 && forall k :: 0 <= k < 16 || 20 <= k < |h| ==> h[k] == g[k]
  {
    hide ByteOf;
    WordCells(t.CRC32);
    WordCells(v);
    WordCells(t.Revision);
    WordCells(t.HeaderSize);
    WordCells(t.Reserved);
  }

  lemma FieldBytes(t: TableHeader, rest: seq<bv8>)
    requires |t.Signature| == 8
    ensures var h := t.Encode() + rest;
      && |h| == 24 + |rest| && h[..8] == t.Signature && h[24..] == rest
      && (forall k :: 0 <= k < 4 ==> h[8 + k] == ByteOf(t.Revision, k) && h[12 + k] == ByteOf(t.HeaderSize, k))
      && (forall k :: 0 <= k < 4 ==> h[16 + k] == ByteOf(t.CRC32, k) && h[20 + k] == ByteOf(t.Reserved, k))
  {
    hide ByteOf;
    WordCells(t.Revision);
    WordCells(t.HeaderSize);
    WordCells(t.CRC32);
    WordCells(t.Reserved);
  }

  lemma WordCells(v: bv32)
    ensures |Word(v)| == 4 && forall k :: 0 <= k < 4 ==> Word(v)[k] == ByteOf(v, k)
  {
    hide ByteOf;
  }
}
