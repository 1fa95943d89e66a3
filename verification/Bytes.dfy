/** Numbers below 256 as bytes, bit by bit. */
module Bytes {
  type byte = bv8

  /** The low `k` bits of `n`. */
  function ToBits(n: nat, k: nat): byte {
    if k == 0 then 0 else (ToBits(n / 2, k - 1) << 1) | LowBit(n)
  }

  function LowBit(n: nat): byte {
    if n % 2 == 1 then 1 else 0
  }

  /** The number that the low `k` bits of `b` stand for. */
  function FromBits(b: byte, k: nat): nat {
    if k == 0 then 0 else 2 * FromBits(b >> 1, k - 1) + if b & 1 == 1 then 1 else 0
  }

  function ToByte(n: nat): byte
    requires n < 256
  {
    ToBits(n, 8)
  }

  function FromByte(b: byte): nat {
    FromBits(b, 8)
  }

  function Pow2(k: nat): (p: nat)
    ensures p >= 1
  {
    if k == 0 then 1 else 2 * Pow2(k - 1)
  }

  /** The byte with bit `j` set. */
  function Limit(j: nat): byte
    requires j <= 7
  {
    if j == 0 then 1 else if j == 1 then 2 else if j == 2 then 4 else if j == 3 then 8
    else if j == 4 then 16 else if j == 5 then 32 else if j == 6 then 64 else 128
  }

  lemma ShiftIn(x: byte, j: nat, c: byte)
    requires j <= 6 && x < Limit(j) && c <= 1
    ensures (x << 1) | c < Limit(j + 1)
  {
  }

  lemma ShiftOut(x: byte, c: byte)
    requires x < 128 && c <= 1
    ensures ((x << 1) | c) >> 1 == x && ((x << 1) | c) & 1 == c
  {
  }

  lemma {:induction false} BitsBelow(n: nat, j: nat, k: nat)
    requires j <= 7 && j <= k && n < Pow2(j)
    ensures ToBits(n, k) < Limit(j)
  {
    if j == 0 {
      if k > 0 { BitsBelow(0, 0, k - 1); }
    } else {
      BitsBelow(n / 2, j - 1, k - 1);
      ShiftIn(ToBits(n / 2, k - 1), j - 1, LowBit(n));
    }
  }

  lemma {:induction false} BitsRoundTrip(n: nat, k: nat)
    requires k <= 8 && n < Pow2(k)
    ensures FromBits(ToBits(n, k), k) == n
  {
    hide FromBits;
    if k == 0 {
      NoBits(ToBits(n, k));
    } else {
      BitsRoundTrip(n / 2, k - 1);
      BitsBelow(n / 2, k - 1, k - 1);
      JoinBit(ToBits(n / 2, k - 1), LowBit(n), k);
    }
  }

  lemma NoBits(b: byte)
    ensures FromBits(b, 0) == 0
  {
  }

  lemma JoinBit(x: byte, c: byte, k: nat)
    requires k > 0 && x < 128 && c <= 1
    ensures FromBits((x << 1) | c, k) == 2 * FromBits(x, k - 1) + if c == 1 then 1 else 0
  {
    ShiftOut(x, c);
  }

  lemma EightBits()
    ensures Pow2(7) == 128 && Pow2(8) == 256
  {
    assert Pow2(3) == 8 && Pow2(5) == 32;
  }

  /** A number below 256 survives the way to a byte and back; below 128 the top bit stays clear. */
  lemma ByteRoundTrip(n: nat)
    requires n < 256
    ensures FromByte(ToByte(n)) == n
    ensures n < 128 ==> ToByte(n) < 128
  {
    EightBits();
    BitsRoundTrip(n, 8);
    if n < 128 { BitsBelow(n, 7, 8); }
  }

  lemma {:induction false} FromBitsBelow(b: byte, k: nat)
    ensures FromBits(b, k) < Pow2(k)
  {
    if k > 0 { FromBitsBelow(b >> 1, k - 1); }
  }

  lemma SplitBit(b: byte)
    ensures b == ((b >> 1) << 1) | (if b & 1 == 1 then 1 else 0)
  {
  }

  lemma Halved(b: byte, j: nat)
    requires 0 < j <= 7 && b < Limit(j)
    ensures b >> 1 < Limit(j - 1)
  {
  }

  lemma NoBitLeft(b: byte)
    requires b < Limit(0)
    ensures b == 0
  {
  }

  lemma HalfBelow(b: byte)
    ensures b >> 1 < Limit(7)
  {
  }

  lemma {:induction false} BitsOfNumber(b: byte, k: nat)
    requires k <= 8 && (k < 8 ==> b < Limit(k))
    ensures ToBits(FromBits(b, k), k) == b
  {
    if k == 0 {
      NoBitLeft(b);
    } else {
      if k == 8 { HalfBelow(b); } else { Halved(b, k); }
      BitsOfNumber(b >> 1, k - 1);
      SplitBit(b);
      hide Limit;
      var n := FromBits(b, k);
      assert n / 2 == FromBits(b >> 1, k - 1) && LowBit(n) == if b & 1 == 1 then 1 else 0;
    }
  }

  lemma {:induction false} SmallByte(b: byte, j: nat, k: nat)
    requires j <= 7 && j <= k && b < Limit(j)
    ensures FromBits(b, k) < Pow2(j)
  {
    if k > 0 {
      if j == 0 {
        NoBitLeft(b);
        SmallByte(b >> 1, 0, k - 1);
      } else {
        Halved(b, j);
        SmallByte(b >> 1, j - 1, k - 1);
      }
    }
  }

  /** A byte survives the way to a number and back; with a clear top bit, the number is below 128. */
  lemma NumberRoundTrip(b: byte)
    ensures FromByte(b) < 256 && ToByte(FromByte(b)) == b
    ensures b < 128 ==> FromByte(b) < 128
  {
    EightBits();
    FromBitsBelow(b, 8);
    BitsOfNumber(b, 8);
    if b < 128 { SmallByte(b, 7, 8); }
  }

  /** The bits of a byte count 128 to 1. */
  lemma BitsCount(b: byte)
    ensures FromByte(b) ==
            (if b & 0x80 != 0 then 128 else 0) + (if b & 0x40 != 0 then 64 else 0)
            + (if b & 0x20 != 0 then 32 else 0) + (if b & 0x10 != 0 then 16 else 0)
            + (if b & 0x08 != 0 then 8 else 0) + (if b & 0x04 != 0 then 4 else 0)
            + (if b & 0x02 != 0 then 2 else 0) + (if b & 0x01 != 0 then 1 else 0)
  {
    ShiftsShowBits(b);
    NibbleCounts(b >> 4);
    assert FromBits(b, 8) == 2 * FromBits(b >> 1, 7) + if b & 1 == 1 then 1 else 0;
    assert FromBits(b >> 1, 7) == 2 * FromBits(b >> 2, 6) + if (b >> 1) & 1 == 1 then 1 else 0;
    assert FromBits(b >> 2, 6) == 2 * FromBits(b >> 3, 5) + if (b >> 2) & 1 == 1 then 1 else 0;
    assert FromBits(b >> 3, 5) == 2 * FromBits(b >> 4, 4) + if (b >> 3) & 1 == 1 then 1 else 0;
  }

  lemma NibbleCounts(b: byte)
    ensures FromBits(b, 4) ==
            (if b & 0x08 != 0 then 8 else 0) + (if b & 0x04 != 0 then 4 else 0)
            + (if b & 0x02 != 0 then 2 else 0) + (if b & 0x01 != 0 then 1 else 0)
  {
    ShiftsShowBits(b);
    assert FromBits(b, 4) == 2 * FromBits(b >> 1, 3) + if b & 1 == 1 then 1 else 0;
    assert FromBits(b >> 1, 3) == 2 * FromBits(b >> 2, 2) + if (b >> 1) & 1 == 1 then 1 else 0;
    assert FromBits(b >> 2, 2) == 2 * FromBits(b >> 3, 1) + if (b >> 2) & 1 == 1 then 1 else 0;
    assert FromBits(b >> 3, 1) == if (b >> 3) & 1 == 1 then 1 else 0;
  }

  lemma ShiftsShowBits(b: byte)
    ensures (b >> 1) >> 1 == b >> 2 && (b >> 2) >> 1 == b >> 3 && (b >> 3) >> 1 == b >> 4
    ensures (b & 1 == 1 <==> b & 0x01 != 0) && ((b >> 1) & 1 == 1 <==> b & 0x02 != 0)
    ensures ((b >> 2) & 1 == 1 <==> b & 0x04 != 0) && ((b >> 3) & 1 == 1 <==> b & 0x08 != 0)
    ensures ((b >> 4) & 0x01 != 0 <==> b & 0x10 != 0) && ((b >> 4) & 0x02 != 0 <==> b & 0x20 != 0)
    ensures ((b >> 4) & 0x04 != 0 <==> b & 0x40 != 0) && ((b >> 4) & 0x08 != 0 <==> b & 0x80 != 0)
  {
  }
}
