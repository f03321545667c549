/** Bytes as bit vectors, and runs of bits inside a byte sequence. */
module Bits {
  type byte = bv8

  const SECTOR_SIZE := 512

  /** 1 << k */
  function Mask(k: nat): byte
    requires k < 8
  {
    if k == 0 then 1 else if k == 1 then 2 else if k == 2 then 4 else if k == 3 then 8
    else if k == 4 then 16 else if k == 5 then 32 else if k == 6 then 64 else 128
  }

  /** (0xFF << k), for k up to 8 */
  function HighMask(k: nat): byte
    requires k <= 8
  {
    if k == 0 then 255 else if k == 1 then 254 else if k == 2 then 252 else if k == 3 then 248
    else if k == 4 then 240 else if k == 5 then 224 else if k == 6 then 192 else if k == 7 then 128 else 0
  }

  predicate Bit(b: byte, k: nat)
    requires k < 8
  {
    b & Mask(k) != 0
  }

  lemma SetBit(b: byte, k: nat, j: nat)
    requires k < 8 && j < 8
    ensures Bit(b | Mask(k), j) == (j == k || Bit(b, j))
  {}

  lemma ClearBit(b: byte, k: nat, j: nat)
    requires k < 8 && j < 8
    ensures Bit(b & !Mask(k), j) == (j != k && Bit(b, j))
  {}

  lemma ClearLow(b: byte, k: nat, j: nat)
    requires k <= 8 && j < 8
    ensures Bit(b & HighMask(k), j) == (j >= k && Bit(b, j))
  {}

  lemma FullByte(b: byte)
    ensures b == 255 <==> forall j :: 0 <= j < 8 ==> Bit(b, j)
  {
    assert (forall j :: 0 <= j < 8 ==> Bit(b, j)) ==
      (Bit(b, 0) && Bit(b, 1) && Bit(b, 2) && Bit(b, 3) && Bit(b, 4) && Bit(b, 5) && Bit(b, 6) && Bit(b, 7));
  }

  lemma LowOnes(b: byte, k: nat)
    requires k <= 8
    ensures b & !HighMask(k) == !HighMask(k) <==> forall j :: 0 <= j < k ==> Bit(b, j)
  {
    assert (forall j :: 0 <= j < k ==> Bit(b, j)) ==
      ((k > 0 ==> Bit(b, 0)) && (k > 1 ==> Bit(b, 1)) && (k > 2 ==> Bit(b, 2)) && (k > 3 ==> Bit(b, 3))
       && (k > 4 ==> Bit(b, 4)) && (k > 5 ==> Bit(b, 5)) && (k > 6 ==> Bit(b, 6)) && (k > 7 ==> Bit(b, 7)));
  }

  lemma SameBits(a: byte, b: byte)
    requires forall j :: 0 <= j < 8 ==> Bit(a, j) == Bit(b, j)
    ensures a == b
  {
    assert Bit(a, 0) == Bit(b, 0) && Bit(a, 1) == Bit(b, 1) && Bit(a, 2) == Bit(b, 2) && Bit(a, 3) == Bit(b, 3);
    assert Bit(a, 4) == Bit(b, 4) && Bit(a, 5) == Bit(b, 5) && Bit(a, 6) == Bit(b, 6) && Bit(a, 7) == Bit(b, 7);
  }

  lemma ZeroByte(j: nat)
    requires j < 8
    ensures !Bit(0, j)
  {}
}
