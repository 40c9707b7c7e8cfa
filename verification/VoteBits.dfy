/**
 The bit arithmetic that voting rests on (consensus/vote.go): counting the one
 bits of a 16-bit shift register, and reading, setting and comparing the bits
 of a 256-bit block ID, most significant bit first.
 */
module VoteBits {

  // ---------- 16-bit registers ----------

  /** The register with only bit `k` set; bit 0 is the one shifted in last. */
  function Mask(k: nat): (m: bv16)
    requires k < 16
  {
    [0x0001, 0x0002, 0x0004, 0x0008, 0x0010, 0x0020, 0x0040, 0x0080,
     0x0100, 0x0200, 0x0400, 0x0800, 0x1000, 0x2000, 0x4000, 0x8000][k]
  }

  /** Exactly one bit is set. */
  predicate IsMask(m: bv16)
  {
    m != 0 && m & (m - 1) == 0
  }

  predicate Hits(x: bv16, m: bv16)
  {
    x & m != 0
  }

  function Bit16(x: bv16, k: nat): (b: bool)
    requires k < 16
  {
    Hits(x, Mask(k))
  }

  /** How many of the lowest `k` bits are one. */
  function OnesBelow(x: bv16, k: nat): (n: nat)
    requires k <= 16
  {
    if k == 0 then 0 else OnesBelow(x, k - 1) + if Bit16(x, k - 1) then 1 else 0
  }

  function OneIf(b: bool): (x: bv16)
  {
    if b then 1 else 0
  }

  /** The register after a new bit was shifted in. */
  function Shifted(x: bv16, b: bool): (y: bv16)
  {
    (x << 1) | OneIf(b)
  }

  function Both(x: bv16, y: bv16): (z: bv16)
  {
    x & y
  }

  /** The bits of `y` that are zero in `x`. */
  function NotBut(x: bv16, y: bv16): (z: bv16)
  {
    (0 - x - 1) & y
  }

  function WithoutLowest(x: bv16): (y: bv16)
  {
    x & (x - 1)
  }

  function LowestMask(x: bv16): (m: bv16)
  {
    x & (0 - x)
  }

  lemma MaskShifts(k: nat)
    requires 0 < k < 16
    ensures Mask(k) == Mask(k - 1) << 1 && Mask(k - 1) & 0x8000 == 0
  {
  }

  lemma ShiftUnderMask(x: bv16, b: bool, m: bv16)
    requires m & 0x8000 == 0
    ensures Hits(Shifted(x, b), m << 1) <==> Hits(x, m)
  {
    assert ((x << 1) | OneIf(b)) & (m << 1) == (x & m) << 1;
  }

  lemma ShiftedLowest(x: bv16, b: bool)
    ensures Hits(Shifted(x, b), 1) == b
  {
  }

  /** Shifting a bit in makes it bit 0 and ages every other bit by one. */
  lemma ShiftIn(x: bv16, b: bool, k: nat)
    requires k < 16
    ensures Bit16(Shifted(x, b), k) == if k == 0 then b else Bit16(x, k - 1)
  {
    hide Hits, Shifted;
    if k == 0 {
      ShiftedLowest(x, b);
    } else {
      hide Mask;
      MaskShifts(k);
      ShiftUnderMask(x, b, Mask(k - 1));
    }
  }

  lemma MaskIsMask(k: nat)
    requires k < 16
    ensures IsMask(Mask(k))
  {
  }

  lemma NotUnderMask(x: bv16, y: bv16, m: bv16)
    requires m != 0 && m & (m - 1) == 0
    ensures (!x & y) & m == if x & m == 0 then y & m else 0
  {
  }

  /** `-x-1` is bitwise not. */
  lemma NegateMinusOneIsNot(x: bv16, y: bv16)
    ensures NotBut(x, y) == !x & y
  {
    assert 0 - x - 1 == !x;
  }

  lemma AndUnderMask(x: bv16, y: bv16, m: bv16)
    requires m != 0 && m & (m - 1) == 0
    ensures (x & y) & m != 0 <==> x & m != 0 && y & m != 0
  {
  }

  lemma NotButHits(x: bv16, y: bv16, m: bv16)
    requires IsMask(m)
    ensures Hits(NotBut(x, y), m) == (!Hits(x, m) && Hits(y, m))
  {
    hide NotBut;
    NegateMinusOneIsNot(x, y);
    NotUnderMask(x, y, m);
  }

  lemma BothHits(x: bv16, y: bv16, m: bv16)
    requires IsMask(m)
    ensures Hits(Both(x, y), m) == (Hits(x, m) && Hits(y, m))
  {
    AndUnderMask(x, y, m);
  }

  /** Both operations work bit by bit. */
  lemma NotAndAnd(x: bv16, y: bv16, k: nat)
    requires k < 16
    ensures Bit16(NotBut(x, y), k) == (!Bit16(x, k) && Bit16(y, k))
    ensures Bit16(Both(x, y), k) == (Bit16(x, k) && Bit16(y, k))
  {
    hide Mask, IsMask, Hits, NotBut, Both;
    MaskIsMask(k);
    NotButHits(x, y, Mask(k));
    BothHits(x, y, Mask(k));
  }

  lemma LowestOne(x: bv16)
    requires x != 0
    ensures IsMask(LowestMask(x)) && Hits(x, LowestMask(x))
  {
  }

  lemma WithoutLowestOne(x: bv16, m: bv16)
    requires m != 0 && m & (m - 1) == 0
    ensures (x & (x - 1)) & m == if m == x & (0 - x) then 0 else x & m
  {
  }

  lemma BitWithoutLowestOne(x: bv16, k: nat)
    requires x != 0 && k < 16
    ensures Bit16(x, k) == (Bit16(WithoutLowest(x), k) || Mask(k) == LowestMask(x))
    ensures Bit16(WithoutLowest(x), k) ==> Mask(k) != LowestMask(x)
  {
    LowestOne(x);
    MaskIsMask(k);
    hide Mask;
    WithoutLowestOne(x, Mask(k));
  }

  lemma MasksDiffer(j: nat)
    requires j < 16
    ensures forall k :: 0 <= k < 16 && k != j ==> Mask(k) != Mask(j)
  {
  }

  /** The position of a mask. */
  lemma MaskPosition(m: bv16) returns (j: nat)
    requires IsMask(m)
    ensures j < 16 && Mask(j) == m && forall k :: 0 <= k < 16 && k != j ==> Mask(k) != m
  {
    assert Mask(0) == 0x0001 && Mask(1) == 0x0002 && Mask(2) == 0x0004 && Mask(3) == 0x0008;
    assert Mask(4) == 0x0010 && Mask(5) == 0x0020 && Mask(6) == 0x0040 && Mask(7) == 0x0080;
    assert Mask(8) == 0x0100 && Mask(9) == 0x0200 && Mask(10) == 0x0400 && Mask(11) == 0x0800;
    assert Mask(12) == 0x1000 && Mask(13) == 0x2000 && Mask(14) == 0x4000 && Mask(15) == 0x8000;
    assert m in {0x0001, 0x0002, 0x0004, 0x0008, 0x0010, 0x0020, 0x0040, 0x0080,
                 0x0100, 0x0200, 0x0400, 0x0800, 0x1000, 0x2000, 0x4000, 0x8000};
    j :| 0 <= j < 16 && Mask(j) == m;
    MasksDiffer(j);
  }

  /** Dropping bit `j` takes one off every count that includes it. */
  lemma {:induction false} OneBitLess(x: bv16, y: bv16, j: nat, k: nat)
    requires k <= 16 && j < 16 && Bit16(x, j) && !Bit16(y, j)
    requires forall i :: 0 <= i < 16 && i != j ==> Bit16(x, i) == Bit16(y, i)
    ensures OnesBelow(x, k) == OnesBelow(y, k) + if j < k then 1 else 0
  {
    hide Mask, Bit16;
    if k > 0 {
      OneBitLess(x, y, j, k - 1);
    }
  }

  lemma ClearLowestOne(x: bv16)
    requires x != 0
    ensures OnesBelow(x, 16) == OnesBelow(WithoutLowest(x), 16) + 1
  {
    hide Mask, IsMask, OnesBelow, WithoutLowest, LowestMask;
    LowestOne(x);
    var j := MaskPosition(LowestMask(x));
    forall i | 0 <= i < 16
      ensures Bit16(x, i) == (Bit16(WithoutLowest(x), i) || i == j) && !(i == j && Bit16(WithoutLowest(x), i)) {
      hide Bit16;
      BitWithoutLowestOne(x, i);
    }
    OneBitLess(x, WithoutLowest(x), j, 16);
  }

  lemma {:induction false} NoOnes(k: nat)
    requires k <= 16
    ensures OnesBelow(0, k) == 0
  {
    if k > 0 {
      NoOnes(k - 1);
    }
  }

  /** countBits16: clears the lowest one bit until none is left. */
  method CountBits16(x: bv16) returns (count: nat)
    ensures count == OnesBelow(x, 16)
  {
    count := 0;
    var i := x;
    while i > 0
      invariant count + OnesBelow(i, 16) == OnesBelow(x, 16)
      decreases OnesBelow(i, 16)
    {
      ClearLowestOne(i);
      i := i & (i - 1);
      count := count + 1;
    }
    NoOnes(16);
  }

  // ---------- Bits of a block ID ----------

  type ID = s: seq<bv8> | |s| == 32 witness seq(32, _ => 0)

  const ZERO_ID: ID :=
    [0, 0, 0, 0, 0, 0, 0, 0, 0, 0, 0, 0, 0, 0, 0, 0, 0, 0, 0, 0, 0, 0, 0, 0, 0, 0, 0, 0, 0, 0, 0, 0]

  /** The byte with only bit `b` set, counted from the most significant one. */
  function ByteMask(b: nat): (m: bv8)
    requires b < 8
  {
    [0x80, 0x40, 0x20, 0x10, 0x08, 0x04, 0x02, 0x01][b]
  }

  predicate ByteBit(value: bv8, b: nat)
    requires b < 8
  {
    value & ByteMask(b) != 0
  }

  /** Shifting the bit down and masking it reads the same bit. */
  lemma ShiftReadsBit(value: bv8, b: nat)
    requires b < 8
    ensures (value >> (7 - b)) & 1 == 1 <==> ByteBit(value, b)
  {
    assert (value >> 7) & 1 == 1 <==> value & 0x80 != 0;
    assert (value >> 6) & 1 == 1 <==> value & 0x40 != 0;
    assert (value >> 5) & 1 == 1 <==> value & 0x20 != 0;
    assert (value >> 4) & 1 == 1 <==> value & 0x10 != 0;
    assert (value >> 3) & 1 == 1 <==> value & 0x08 != 0;
    assert (value >> 2) & 1 == 1 <==> value & 0x04 != 0;
    assert (value >> 1) & 1 == 1 <==> value & 0x02 != 0;
    assert (value >> 0) & 1 == 1 <==> value & 0x01 != 0;
  }

  const ALL_ONES: ID :=
    [0xff, 0xff, 0xff, 0xff, 0xff, 0xff, 0xff, 0xff, 0xff, 0xff, 0xff, 0xff, 0xff, 0xff, 0xff, 0xff,
     0xff, 0xff, 0xff, 0xff, 0xff, 0xff, 0xff, 0xff, 0xff, 0xff, 0xff, 0xff, 0xff, 0xff, 0xff, 0xff]

  /** getBit. */
  function GetBit(id: ID, pos: nat): (bit: bool)
    requires pos < 256
    ensures bit == ByteBit(id[pos / 8], pos % 8)
  {
    ShiftReadsBit(id[pos / 8], pos % 8);
    (id[pos / 8] >> (7 - pos % 8)) & 1 == 1
  }

  /** setBit. */
  function SetBit(id: ID, pos: nat, value: bool): (r: ID)
    requires pos < 256
  {
    var i, m := pos / 8, ByteMask(pos % 8);
    id[i := if value then id[i] | m else id[i] & !m]
  }

  lemma ByteMasks(b: nat, c: nat)
    requires b < 8 && c < 8
    ensures ByteMask(b) != 0 && ByteMask(b) & (ByteMask(b) - 1) == 0
    ensures ByteMask(b) == ByteMask(c) <==> b == c
  {
  }

  lemma SetUnderMask(x: bv8, m: bv8, q: bv8)
    requires m != 0 && m & (m - 1) == 0 && q != 0 && q & (q - 1) == 0
    ensures (x | m) & q == if q == m then m else x & q
    ensures (x & !m) & q == if q == m then 0 else x & q
  {
  }

  /** Setting a bit sets that bit and leaves every other one alone. */
  lemma SetBitSets(id: ID, pos: nat, value: bool, k: nat)
    requires pos < 256 && k < 256
    ensures GetBit(SetBit(id, pos, value), k) == if k == pos then value else GetBit(id, k)
  {
    if pos / 8 == k / 8 {
      ByteMasks(pos % 8, k % 8);
      ByteMasks(k % 8, k % 8);
      SetUnderMask(id[pos / 8], ByteMask(pos % 8), ByteMask(k % 8));
      hide ByteMask;
      assert pos % 8 == k % 8 <==> pos == k;
    }
  }

  /** The two IDs have the same first `n` bits. */
  predicate SameBits(a: ID, b: ID, n: nat)
    requires n <= 256
  {
    forall k :: 0 <= k < n ==> GetBit(a, k) == GetBit(b, k)
  }

  /** The byte with its `n` most significant bits set. */
  function HighMask(n: nat): (m: bv8)
    requires n <= 8
  {
    [0x00, 0x80, 0xc0, 0xe0, 0xf0, 0xf8, 0xfc, 0xfe, 0xff][n]
  }

  lemma HighMaskGrows(n: nat)
    requires n < 8
    ensures HighMask(n + 1) == Or(HighMask(n), ByteMask(n))
  {
  }

  /** Where the two bytes differ, seen through a mask. */
  function Differs(x: bv8, y: bv8, m: bv8): (d: bv8)
  {
    (x ^ y) & m
  }

  function Or(x: bv8, y: bv8): (z: bv8)
  {
    x | y
  }

  lemma DiffersZero(x: bv8, y: bv8, m: bv8)
    ensures Differs(x, y, m) == 0 <==> x & m == y & m
  {
    assert (x ^ y) & m == (x & m) ^ (y & m);
  }

  lemma DiffersSplit(x: bv8, y: bv8, h: bv8, m: bv8)
    ensures Differs(x, y, Or(h, m)) == Or(Differs(x, y, h), Differs(x, y, m))
  {
    OrSplit(x ^ y, h, m);
  }

  lemma OrSplit(d: bv8, h: bv8, m: bv8)
    ensures d & (h | m) == (d & h) | (d & m)
  {
  }

  lemma OrZero(x: bv8, y: bv8)
    ensures Or(x, y) == 0 <==> x == 0 && y == 0
  {
  }

  lemma DiffersUnder(x: bv8, y: bv8, h: bv8, m: bv8)
    ensures Differs(x, y, Or(h, m)) == 0 <==> Differs(x, y, h) == 0 && Differs(x, y, m) == 0
  {
    hide Differs, Or;
    DiffersSplit(x, y, h, m);
    OrZero(Differs(x, y, h), Differs(x, y, m));
  }

  lemma DiffersAtBit(x: bv8, y: bv8, m: bv8)
    requires m != 0 && m & (m - 1) == 0
    ensures Differs(x, y, m) == 0 <==> (x & m != 0) == (y & m != 0)
  {
    assert (x ^ y) & m == (x & m) ^ (y & m);
  }

  lemma DiffersAtPosition(x: bv8, y: bv8, n: nat)
    requires n < 8
    ensures Differs(x, y, ByteMask(n)) == 0 <==> ByteBit(x, n) == ByteBit(y, n)
  {
    ByteMasks(n, n);
    hide ByteMask;
    DiffersAtBit(x, y, ByteMask(n));
    hide Differs;
  }

  lemma {:induction false} DiffersAboveBits(x: bv8, y: bv8, n: nat)
    requires n <= 8
    ensures Differs(x, y, HighMask(n)) == 0 <==> forall b :: 0 <= b < n ==> ByteBit(x, b) == ByteBit(y, b)
  {
    if n == 0 {
      assert Differs(x, y, 0) == 0;
    } else {
      hide Differs, HighMask, ByteBit;
      DiffersAboveBits(x, y, n - 1);
      OneMoreBit(x, y, n - 1);
    }
  }

  lemma OneMoreBit(x: bv8, y: bv8, n: nat)
    requires n < 8
    ensures Differs(x, y, HighMask(n + 1)) == 0 <==> Differs(x, y, HighMask(n)) == 0 && ByteBit(x, n) == ByteBit(y, n)
  {
    hide Differs, HighMask, ByteMask, Or, ByteBit;
    HighMaskGrows(n);
    DiffersAtPosition(x, y, n);
    DiffersUnder(x, y, HighMask(n), ByteMask(n));
  }

  /** Bytes agree under the mask of `n` high bits exactly when those bits agree. */
  lemma SameHighBits(x: bv8, y: bv8, n: nat)
    requires n <= 8
    ensures x & HighMask(n) == y & HighMask(n) <==> forall b :: 0 <= b < n ==> ByteBit(x, b) == ByteBit(y, b)
  {
    hide Differs, HighMask, ByteBit;
    DiffersAboveBits(x, y, n);
    DiffersZero(x, y, HighMask(n));
  }

  lemma SameByte(x: bv8, y: bv8)
    ensures x == y <==> forall b :: 0 <= b < 8 ==> ByteBit(x, b) == ByteBit(y, b)
  {
    SameHighBits(x, y, 8);
    assert x & 0xff == x && y & 0xff == y;
  }

  lemma FewerBits(a: ID, b: ID, n: nat)
    requires n <= 256
    ensures SameBits(a, b, 0)
    ensures SameBits(a, b, n) ==> forall m :: 0 <= m <= n ==> SameBits(a, b, m)
  {
  }

  /** Whole bytes, then the first bits of the next one, make up the first bits of an ID. */
  lemma SameBitsByBytes(a: ID, b: ID, full: nat, more: nat)
    requires full <= 32 && more <= 8 && 8 * full + more <= 256
    ensures SameBits(a, b, 8 * full + more) <==>
      SameBits(a, b, 8 * full) &&
      (more > 0 ==> forall k :: 0 <= k < more ==> ByteBit(a[full], k) == ByteBit(b[full], k))
  {
    hide ByteBit;
    if SameBits(a, b, 8 * full + more) && more > 0 {
      forall k | 0 <= k < more ensures ByteBit(a[full], k) == ByteBit(b[full], k) {
        assert GetBit(a, 8 * full + k) == GetBit(b, 8 * full + k);
      }
    }
    forall k | 8 * full <= k < 8 * full + more
      ensures GetBit(a, k) == ByteBit(a[full], k - 8 * full) && GetBit(b, k) == ByteBit(b[full], k - 8 * full)
    {
    }
  }

  /** The first loop of compareBits: the full bytes. */
  method CompareBytes(a: ID, b: ID, fullBytes: nat) returns (same: bool)
    requires fullBytes <= 32
    ensures same == SameBits(a, b, 8 * fullBytes)
  {
    hide SameBits, ByteBit;
    FewerBits(a, b, 8 * fullBytes);
    for i := 0 to fullBytes
      invariant SameBits(a, b, 8 * i)
    {
      OneMoreByte(a, b, i);
      if a[i] != b[i] {
        return false;
      }
    }
    same := true;
  }

  lemma OneMoreByte(a: ID, b: ID, i: nat)
    requires i < 32 && SameBits(a, b, 8 * i)
    ensures SameBits(a, b, 8 * (i + 1)) <==> a[i] == b[i]
  {
    hide SameBits, ByteBit;
    SameByte(a[i], b[i]);
    SameBitsByBytes(a, b, i, 8);
  }

  /** The rest of compareBits: the high bits of one more byte, under a mask. */
  lemma MaskedByte(a: ID, b: ID, full: nat, more: nat)
    requires full < 32 && 0 < more < 8 && SameBits(a, b, 8 * full)
    ensures SameBits(a, b, 8 * full + more) <==> a[full] & HighMask(more) == b[full] & HighMask(more)
  {
    hide SameBits, ByteBit, HighMask;
    SameHighBits(a[full], b[full], more);
    SameBitsByBytes(a, b, full, more);
  }

  /**
   compareBits: full bytes first, then the remaining bits under a mask.  The
   position is a uint8, so at 255 it wraps and nothing is compared.
   */
  method CompareBits(a: ID, b: ID, x: nat) returns (same: bool)
    requires x < 256
    ensures x < 255 ==> same == SameBits(a, b, x + 1)
    ensures x == 255 ==> same
  {
    hide SameBits, HighMask;
    var n := (x + 1) % 256;
    var fullBytes, remainingBits := n / 8, n % 8;
    FewerBits(a, b, n);
    assert n == 8 * fullBytes + remainingBits;
    same := CompareBytes(a, b, fullBytes);
    if same && remainingBits != 0 {
      MaskedByte(a, b, fullBytes, remainingBits);
      same := a[fullBytes] & HighMask(remainingBits) == b[fullBytes] & HighMask(remainingBits);
    }
  }
}
