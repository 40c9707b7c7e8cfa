/** Bits packed eight to a byte, most significant first (encodeBitmap and decodeBitmap of mempool/xthinner.go). */
module Bitmaps {
  import opened VoteBits

  /** The bits a bitmap holds. */
  function BitsOf(bitmap: seq<bv8>): (bits: seq<bool>)
    ensures |bits| == 8 * |bitmap|
  {
    seq(8 * |bitmap|, j requires 0 <= j < 8 * |bitmap| => ByteBit(bitmap[j / 8], j % 8))
  }

  function Zeros(n: nat): (bits: seq<bool>)
    ensures |bits| == n && forall j :: 0 <= j < n ==> !bits[j]
  {
    seq(n, _ => false)
  }

  /** What has to be added to fill the last byte. */
  function Padding(n: nat): (p: nat)
    ensures p < 8 && (n + p) % 8 == 0
  {
    if n % 8 == 0 then 0 else 8 - n % 8
  }

  /** Shifting a bit in moves every other bit one place up. */
  lemma ShiftByte(b: bv8, bit: bool, p: nat)
    requires p < 8
    ensures ByteBit((b << 1) | (if bit then 1 else 0), p) == if p == 7 then bit else ByteBit(b, p + 1)
  {
    var one: bv8 := if bit then 1 else 0;
    var c := (b << 1) | one;
    assert c & 0x80 != 0 <==> b & 0x40 != 0;
    assert c & 0x40 != 0 <==> b & 0x20 != 0;
    assert c & 0x20 != 0 <==> b & 0x10 != 0;
    assert c & 0x10 != 0 <==> b & 0x08 != 0;
    assert c & 0x08 != 0 <==> b & 0x04 != 0;
    assert c & 0x04 != 0 <==> b & 0x02 != 0;
    assert c & 0x02 != 0 <==> b & 0x01 != 0;
    assert c & 0x01 != 0 <==> bit;
  }

  method PackByte(bits: seq<bool>) returns (b: bv8)
    requires |bits| == 8
    ensures forall p :: 0 <= p < 8 ==> ByteBit(b, p) == bits[p]
  {
    hide ByteBit;
    b := 0;
    for x := 0 to 8
      invariant forall p :: 8 - x <= p < 8 ==> ByteBit(b, p) == bits[p - 8 + x]
    {
      ghost var was := b;
      b := (b << 1) | (if bits[x] then 1 else 0);
      forall p | 8 - (x + 1) <= p < 8 ensures ByteBit(b, p) == bits[p - 8 + (x + 1)] {
        ShiftByte(was, bits[x], p);
      }
    }
  }

  method EncodeBitmap(flags: seq<bool>) returns (bitmap: seq<bv8>)
    ensures BitsOf(bitmap) == flags + Zeros(Padding(|flags|))
  {
    hide ByteBit;
    var bits := flags + Zeros(Padding(|flags|));
    bitmap := [];
    for i := 0 to |bits| / 8
      invariant |bitmap| == i && BitsOf(bitmap) == bits[..8 * i]
    {
      var b := PackByte(bits[8 * i..8 * i + 8]);
      ghost var was := bitmap;
      bitmap := bitmap + [b];
      forall j | 0 <= j < 8 * (i + 1) ensures BitsOf(bitmap)[j] == bits[j] {
        if j < 8 * i {
          assert BitsOf(was)[j] == bits[j];
        } else {
          assert j / 8 == i && j % 8 == j - 8 * i;
        }
      }
    }
  }

  method DecodeBitmap(bitmap: seq<bv8>) returns (bits: seq<bool>)
    ensures bits == BitsOf(bitmap)
  {
    hide ByteBit;
    bits := Zeros(8 * |bitmap|);
    for i := 0 to |bitmap|
      invariant |bits| == 8 * |bitmap|
      invariant forall j :: 0 <= j < 8 * |bitmap| ==> bits[j] == (j < 8 * i && BitsOf(bitmap)[j])
    {
      for x := 0 to 8
        invariant |bits| == 8 * |bitmap|
        invariant forall j :: 0 <= j < 8 * |bitmap| ==> bits[j] == (j < 8 * i + x && BitsOf(bitmap)[j])
      {
        assert (8 * i + x) / 8 == i && (8 * i + x) % 8 == x;
        if ByteBit(bitmap[i], x) {
          bits := bits[8 * i + x := true];
        }
      }
    }
  }
}
