/** The bitmaps on disk: task/fs/open_close.c (alloc_inode_map_bit, alloc_sect_map_bit),
    task/fs/unlink.c (clear_inode_map_bit, clear_sector_map_bits) and the part of mkfs that writes
    the maps (task/fs/fs.c). */
module SectorMap {
  import opened Bits

  /** Where the map lies: its first sector, how many sectors it has, and the number of the
      first data sector. Bit n stands for data sector n - 1 + firstData. */
  datatype Layout = Layout(mapSect: nat, mapSects: nat, firstData: nat) {
    function Start(): nat { mapSect * SECTOR_SIZE }
    function End(): nat { (mapSect + mapSects) * SECTOR_SIZE }
    function NumBits(): nat { mapSects * SECTOR_SIZE * 8 }
  }

  /** The inode map is the one sector behind boot sector and super block. */
  const INODE_MAP := Layout(2, 1, 0)

  /** Bit `n` of the map stored in the disk image `d`. */
  predicate MapBit(d: seq<byte>, lay: Layout, n: nat)
    requires lay.End() <= |d| && n < lay.NumBits()
  {
    Bit(d[lay.Start() + n / 8], n % 8)
  }

  /** The position of bit `k` of disk byte `y` in the map. */
  function Pos(lay: Layout, y: nat, k: nat): int { (y - lay.Start()) * 8 + k }

  predicate InMap(lay: Layout, y: nat, k: nat) {
    lay.Start() <= y < lay.End() && k < 8
  }

  /** All bits from `a` up to `e` have the value `v`. */
  ghost predicate RangeIs(d: seq<byte>, lay: Layout, a: int, e: int, v: bool) {
    forall y: nat, k: nat {:trigger InMap(lay, y, k)} :: InMap(lay, y, k) && y < |d| && a <= Pos(lay, y, k) < e ==>
          Bit(d[y], k) == v
  }

  /** `d'` is `d` with bits `a` up to `e` given the value `v`, and nothing else changed. */
  ghost predicate RangeSet(d: seq<byte>, d': seq<byte>, lay: Layout, a: int, e: int, v: bool) {
    && |d'| == |d|
    && (forall y: nat :: y < |d| && !(lay.Start() <= y < lay.End()) ==> d'[y] == d[y])
    && (forall y: nat, k: nat {:trigger InMap(lay, y, k)} :: InMap(lay, y, k) && y < |d| ==>
          Bit(d'[y], k) == if a <= Pos(lay, y, k) < e then v else Bit(d[y], k))
  }

  /** `b` is the first clear bit of the map. */
  ghost predicate FirstClear(d: seq<byte>, lay: Layout, b: nat) {
    b < lay.NumBits() && lay.End() <= |d| && RangeIs(d, lay, 0, b, true) && !MapBit(d, lay, b)
  }

  /** The allocator's condition: `n` clear bits from the first clear bit on. */
  ghost predicate CanAlloc(d: seq<byte>, lay: Layout, n: nat) {
    exists b: nat :: FirstClear(d, lay, b) && b + n <= lay.NumBits() && RangeIs(d, lay, b, b + n, false)
  }

  lemma FirstClearUnique(d: seq<byte>, lay: Layout, a: nat, b: nat)
    requires FirstClear(d, lay, a) && FirstClear(d, lay, b)
    ensures a == b
  {
    if a < b {
      MapBitInRange(d, lay, 0, b, true, a);
    } else if b < a {
      MapBitInRange(d, lay, 0, a, true, b);
    }
  }

  /** Clearing exactly the bits that were allocated gives back the same disk, byte for byte. */
  lemma SetThenClear(d: seq<byte>, d1: seq<byte>, d2: seq<byte>, lay: Layout, a: nat, n: nat)
    requires lay.End() <= |d| && RangeIs(d, lay, a, a + n, false)
    requires RangeSet(d, d1, lay, a, a + n, true) && RangeSet(d1, d2, lay, a, a + n, false)
    ensures d2 == d
  {
    forall y: nat | y < |d| ensures d2[y] == d[y] {
      if lay.Start() <= y < lay.End() {
        forall k: nat | k < 8 ensures Bit(d2[y], k) == Bit(d[y], k) {
          assert InMap(lay, y, k);
        }
        SameBits(d2[y], d[y]);
      }
    }
  }

  // ---- the two parts of the search: skipping full bytes, then taking bits ----

  /** Where the allocator stands before it looks at bit `pos`: either still searching, or
      holding `n - left` bits from the first clear bit `b` on. */
  ghost predicate Progress(d: seq<byte>, cur: seq<byte>, lay: Layout, n: nat, pos: int, b: int, left: int) {
    if b < 0 then
      left == n && cur == d && RangeIs(d, lay, 0, pos, true)
    else
      && FirstClear(d, lay, b) && 0 <= left < n && b < pos
      && RangeIs(d, lay, b, b + n - left, false)
      && RangeSet(d, cur, lay, b, b + n - left, true)
      && b + n - left <= lay.NumBits()
      && (left > 0 ==> b + n - left == pos)
  }

  /** `cur'` is `cur` with bits `k0` up to `k1` of byte `y` set, bits that were clear before. */
  ghost predicate ByteFilled(cur: seq<byte>, cur': seq<byte>, y: nat, k0: nat, k1: nat) {
    && |cur'| == |cur| && y < |cur| && k0 <= k1 <= 8
    && (forall x :: 0 <= x < |cur| && x != y ==> cur'[x] == cur[x])
    && (forall k :: 0 <= k < 8 ==> Bit(cur'[y], k) == (k0 <= k < k1 || Bit(cur[y], k)))
    && (forall k :: k0 <= k < k1 ==> !Bit(cur[y], k))
  }

  lemma SkipFullByte(d: seq<byte>, lay: Layout, n: nat, y: nat)
    requires lay.Start() <= y < lay.End() <= |d|
    requires Progress(d, d, lay, n, Pos(lay, y, 0), -1, n) && d[y] == 255
    ensures Progress(d, d, lay, n, Pos(lay, y, 0) + 8, -1, n)
  {
    FullByte(d[y]);
    forall x: nat, k: nat | InMap(lay, x, k) && x < |d| && 0 <= Pos(lay, x, k) < Pos(lay, y, 0) + 8
      ensures Bit(d[x], k)
    {
    }
  }

  lemma FoundFirstClear(d: seq<byte>, lay: Layout, y: nat, k0: nat)
    requires InMap(lay, y, k0) && lay.End() <= |d|
    requires RangeIs(d, lay, 0, Pos(lay, y, 0), true)
    requires !Bit(d[y], k0) && forall q :: 0 <= q < k0 ==> Bit(d[y], q)
    ensures FirstClear(d, lay, Pos(lay, y, k0))
  {
    forall x: nat, k: nat | InMap(lay, x, k) && x < |d| && 0 <= Pos(lay, x, k) < Pos(lay, y, k0)
      ensures Bit(d[x], k)
    {
    }
  }

  lemma NothingTaken(d: seq<byte>, lay: Layout, b: int)
    ensures RangeIs(d, lay, b, b, false) && RangeSet(d, d, lay, b, b, true)
  {}

  /** Taking more bits from the current position keeps the progress condition. */
  lemma FillProgress(d: seq<byte>, cur: seq<byte>, cur': seq<byte>, lay: Layout, n: nat, y: nat, k0: nat, k1: nat,
                     b: nat, left: nat, left': nat)
    requires lay.Start() <= y < lay.End() <= |d| && k0 < k1
    requires ByteFilled(cur, cur', y, k0, k1)
    requires FirstClear(d, lay, b) && b + n - left == Pos(lay, y, k0) && 0 < left <= n
    requires RangeIs(d, lay, b, b + n - left, false) && RangeSet(d, cur, lay, b, b + n - left, true)
    requires left' == left - (k1 - k0) && (left' == 0 || k1 == 8)
    ensures Progress(d, cur', lay, n, Pos(lay, y, 0) + 8, b, left')
  {
    forall x: nat, k: nat | InMap(lay, x, k) && x < |d| && b <= Pos(lay, x, k) < b + n - left'
      ensures !Bit(d[x], k)
    {
      if x == y { assert Bit(cur[y], k) == if b <= Pos(lay, y, k) < b + n - left then true else Bit(d[y], k); }
    }
    forall x: nat, k: nat | InMap(lay, x, k) && x < |d|
      ensures Bit(cur'[x], k) == if b <= Pos(lay, x, k) < b + n - left' then true else Bit(d[x], k)
    {
      assert Bit(cur[x], k) == if b <= Pos(lay, x, k) < b + n - left then true else Bit(d[x], k);
    }
  }

  /** A set bit in the way means the allocation is impossible. */
  lemma BlockedBit(d: seq<byte>, cur: seq<byte>, lay: Layout, n: nat, b: nat, got: nat, y: nat, k: nat)
    requires lay.End() <= |d| && InMap(lay, y, k) && FirstClear(d, lay, b)
    requires RangeSet(d, cur, lay, b, b + got, true)
    requires b + got <= Pos(lay, y, k) < b + n && Bit(cur[y], k)
    ensures !CanAlloc(d, lay, n)
  {
    forall a: nat | FirstClear(d, lay, a) ensures !RangeIs(d, lay, a, a + n, false) {
      FirstClearUnique(d, lay, a, b);
    }
  }

  /** When the map ends with bits still missing, the allocation is impossible. */
  lemma MapExhausted(d: seq<byte>, cur: seq<byte>, lay: Layout, n: nat, b: int, left: int)
    requires lay.End() <= |d| && Progress(d, cur, lay, n, lay.NumBits(), b, left) && left > 0
    ensures !CanAlloc(d, lay, n)
  {
    forall a: nat ensures FirstClear(d, lay, a) ==> a + n > lay.NumBits() {
      if b < 0 {
        if a < lay.NumBits() { MapBitInRange(d, lay, 0, lay.NumBits(), true, a); }
      } else if FirstClear(d, lay, a) {
        FirstClearUnique(d, lay, a, b);
      }
    }
  }

  lemma MapBitInRange(d: seq<byte>, lay: Layout, a: int, e: int, v: bool, n: nat)
    requires lay.End() <= |d| && n < lay.NumBits() && RangeIs(d, lay, a, e, v) && a <= n < e
    ensures MapBit(d, lay, n) == v
  {
    assert InMap(lay, lay.Start() + n / 8, n % 8) && Pos(lay, lay.Start() + n / 8, n % 8) == n;
  }

  lemma AllocDone(d: seq<byte>, cur: seq<byte>, lay: Layout, n: nat, pos: int, b: int)
    requires 1 <= n && Progress(d, cur, lay, n, pos, b, 0)
    ensures b >= 0 && CanAlloc(d, lay, n) && FirstClear(d, lay, b) && RangeSet(d, cur, lay, b, b + n, true)
  {}

  // ---- releasing an extent ----

  /** Bits `a` up to `pos` were set in `d` and are clear in `cur`; nothing else changed. */
  ghost predicate ClearedTo(d: seq<byte>, cur: seq<byte>, lay: Layout, a: int, pos: int) {
    RangeIs(d, lay, a, pos, true) && RangeSet(d, cur, lay, a, pos, false)
  }

  /** `cur'` is `cur` with bits `k0` up to `k1` of byte `y` cleared, bits that were set before. */
  ghost predicate ByteCleared(cur: seq<byte>, cur': seq<byte>, y: nat, k0: nat, k1: nat) {
    && |cur'| == |cur| && y < |cur| && k0 <= k1 <= 8
    && (forall x :: 0 <= x < |cur| && x != y ==> cur'[x] == cur[x])
    && (forall k :: 0 <= k < 8 ==> Bit(cur'[y], k) == (!(k0 <= k < k1) && Bit(cur[y], k)))
    && (forall k :: k0 <= k < k1 ==> Bit(cur[y], k))
  }

  lemma ClearMore(d: seq<byte>, cur: seq<byte>, cur': seq<byte>, lay: Layout, a: int, y: nat, k0: nat, k1: nat)
    requires lay.Start() <= y < lay.End() <= |d| && a <= Pos(lay, y, k0)
    requires ClearedTo(d, cur, lay, a, Pos(lay, y, k0)) && ByteCleared(cur, cur', y, k0, k1)
    ensures ClearedTo(d, cur', lay, a, Pos(lay, y, k1))
  {
    forall x: nat, k: nat | InMap(lay, x, k) && x < |d|
      ensures Bit(cur'[x], k) == if a <= Pos(lay, x, k) < Pos(lay, y, k1) then false else Bit(d[x], k)
      ensures a <= Pos(lay, x, k) < Pos(lay, y, k1) ==> Bit(d[x], k)
    {
      assert Bit(cur[x], k) == if a <= Pos(lay, x, k) < Pos(lay, y, k0) then false else Bit(d[x], k);
    }
  }

  /** A clear bit inside the extent is found, whatever has been cleared before it. */
  lemma ClearBitSeen(d: seq<byte>, cur: seq<byte>, lay: Layout, a: int, e: int, y: nat, k0: nat, k: nat)
    requires lay.End() <= |d| && InMap(lay, y, k) && k0 <= k && a <= Pos(lay, y, k0)
    requires ClearedTo(d, cur, lay, a, Pos(lay, y, k0)) && Pos(lay, y, k) < e
    requires !Bit(cur[y], k)
    ensures !RangeIs(d, lay, a, e, true)
  {
    assert Bit(cur[y], k) == if a <= Pos(lay, y, k) < Pos(lay, y, k0) then false else Bit(d[y], k);
  }

  // ---- writing the first map ----

  /** Setting the bit after the ones already set extends the range by one. */
  lemma SetNext(d: seq<byte>, cur: seq<byte>, cur': seq<byte>, lay: Layout, a: int, y: nat, k: nat)
    requires InMap(lay, y, k) && lay.End() <= |d| && a <= Pos(lay, y, k)
    requires RangeSet(d, cur, lay, a, Pos(lay, y, k), true)
    requires |cur'| == |cur| && forall x :: 0 <= x < |cur| && x != y ==> cur'[x] == cur[x]
    requires forall q: nat :: q < 8 ==> Bit(cur'[y], q) == (q == k || Bit(cur[y], q))
    ensures RangeSet(d, cur', lay, a, Pos(lay, y, k) + 1, true)
  {
    forall x: nat, q: nat | InMap(lay, x, q) && x < |d|
      ensures Bit(cur'[x], q) == if a <= Pos(lay, x, q) < Pos(lay, y, k) + 1 then true else Bit(d[x], q)
    {
    }
  }

  /** In `cur` the first `bytes` bytes of the map hold exactly the bits below `e`; outside
      the map nothing has changed. */
  ghost predicate LowBitsOnly(d: seq<byte>, cur: seq<byte>, lay: Layout, bytes: nat, e: nat) {
    && |cur| == |d|
    && (forall y: nat :: y < |d| && !(lay.Start() <= y < lay.End()) ==> cur[y] == d[y])
    && (forall y: nat, k: nat {:trigger InMap(lay, y, k)} :: InMap(lay, y, k) && y < |d| && y < lay.Start() + bytes ==>
          (Bit(cur[y], k) <==> Pos(lay, y, k) < e))
  }

  class FsDisk {
    const disk: array<byte>
    const fsbuf: array<byte>

    ghost predicate Valid() {
      disk != fsbuf && fsbuf.Length == SECTOR_SIZE && disk.Length % SECTOR_SIZE == 0
    }

    ghost predicate Holds(sect: nat) {
      (sect + 1) * SECTOR_SIZE <= disk.Length
    }

    /** The disk as it will be once the buffer is written back to `sect`. */
    ghost function View(sect: nat): (v: seq<byte>)
      requires Valid() && Holds(sect)
      reads disk, fsbuf
      ensures |v| == disk.Length
    {
      seq(disk.Length, y requires 0 <= y < disk.Length reads disk, fsbuf =>
        if sect * SECTOR_SIZE <= y < (sect + 1) * SECTOR_SIZE then fsbuf[y - sect * SECTOR_SIZE] else disk[y])
    }

    constructor (image: seq<byte>)
      requires |image| % SECTOR_SIZE == 0
      ensures Valid() && fresh(disk) && fresh(fsbuf) && disk[..] == image
    {
      disk := new byte[|image|](i requires 0 <= i < |image| => image[i]);
      fsbuf := new byte[SECTOR_SIZE](i => 0);
      new;
      assert disk[..] == image;
    }

    /** RD_SECT: the buffer and the sector agree. */
    method RdSect(sect: nat)
      requires Valid() && Holds(sect)
      modifies fsbuf
      ensures View(sect) == disk[..]
    {
      forall i | 0 <= i < SECTOR_SIZE {
        fsbuf[i] := disk[sect * SECTOR_SIZE + i];
      }
    }

    /** WR_SECT: the disk becomes the pending view. */
    method WrSect(sect: nat)
      requires Valid() && Holds(sect)
      modifies disk
      ensures disk[..] == old(View(sect)) && View(sect) == disk[..]
    {
      forall i | 0 <= i < SECTOR_SIZE {
        disk[sect * SECTOR_SIZE + i] := fsbuf[i];
      }
    }

    /** The innermost loop of alloc_sect_map_bit: sets bits `k0`, `k0 + 1`, ... of byte `j`
        until the byte ends or enough bits are set; fails on a bit already set. */
    method FillByte(j: nat, k0: nat, left: nat) returns (ok: bool, left': nat)
      requires Valid() && j < SECTOR_SIZE && k0 < 8 && left > 0
      modifies fsbuf
      ensures forall x :: 0 <= x < SECTOR_SIZE && x != j ==> fsbuf[x] == old(fsbuf[x])
      ensures left' <= left && left - left' <= 8 - k0 && (left' == 0 || left - left' == 8 - k0 || !ok)
      ensures ok ==> forall k :: 0 <= k < 8 ==>
            Bit(fsbuf[j], k) == (k0 <= k < k0 + left - left' || Bit(old(fsbuf[j]), k))
      ensures ok ==> forall k :: k0 <= k < k0 + left - left' ==> !Bit(old(fsbuf[j]), k)
      ensures !ok ==> k0 + left - left' < 8 && left' > 0 && Bit(old(fsbuf[j]), k0 + left - left')
      ensures ok ==> left' < left
    {
      left' := left;
      var k := k0;
      while k < 8
        invariant k0 <= k <= 8 && 0 < left' == left - (k - k0)
        invariant forall x :: 0 <= x < SECTOR_SIZE && x != j ==> fsbuf[x] == old(fsbuf[x])
        invariant forall q :: 0 <= q < 8 ==> Bit(fsbuf[j], q) == (k0 <= q < k || Bit(old(fsbuf[j]), q))
        invariant forall q :: k0 <= q < k ==> !Bit(old(fsbuf[j]), q)
      {
        if Bit(fsbuf[j], k) {
          return false, left';
        }
        OrBit(j, k);
        left' := left' - 1;
        if left' == 0 {
          return true, 0;
        }
        k := k + 1;
      }
      ok := true;
    }

    /** The lowest clear bit of a byte that is not 0xFF. */
    method LowestClear(b: byte) returns (k: nat)
      requires b != 255
      ensures k < 8 && !Bit(b, k) && forall q :: 0 <= q < k ==> Bit(b, q)
    {
      FullByte(b);
      k := 0;
      while Bit(b, k)
        invariant k < 8 && forall q :: 0 <= q < k ==> Bit(b, q)
        decreases 8 - k
      {
        k := k + 1;
      }
    }

    /** One round of the byte loop of alloc_sect_map_bit. */
    method ScanByte(lay: Layout, n: nat, sect: nat, j: nat, alloc: nat, left: nat, ghost d: seq<byte>, ghost b: int)
      returns (ok: bool, alloc': nat, left': nat, ghost b': int)
      requires Valid() && Holds(sect) && lay.mapSect <= sect < lay.mapSect + lay.mapSects
      requires lay.End() <= |d| == disk.Length && j < SECTOR_SIZE && 0 < left && 2 <= lay.firstData
      requires Progress(d, View(sect), lay, n, Pos(lay, sect * SECTOR_SIZE + j, 0), b, left)
      requires alloc == if b < 0 then 0 else b - 1 + lay.firstData
      modifies fsbuf
      ensures !ok ==> !CanAlloc(d, lay, n)
      ensures ok ==> Progress(d, View(sect), lay, n, Pos(lay, sect * SECTOR_SIZE + j, 0) + 8, b', left')
      ensures ok ==> alloc' == if b' < 0 then 0 else b' - 1 + lay.firstData
      ensures ok && b >= 0 ==> b' == b
    {
      ghost var y := sect * SECTOR_SIZE + j;
      ghost var cur := View(sect);
      assert cur[y] == fsbuf[j];
      ok, alloc', left', b' := true, alloc, left, b;
      var k := 0;
      if alloc == 0 {
        if fsbuf[j] == 255 {
          SkipFullByte(d, lay, n, y);
          return;
        }
        k := LowestClear(fsbuf[j]);
        FoundFirstClear(d, lay, y, k);
        NothingTaken(d, lay, Pos(lay, y, k));
        b' := Pos(lay, y, k);
        alloc' := ((sect - lay.mapSect) * SECTOR_SIZE + j) * 8 + k - 1 + lay.firstData;
      }
      ok, left' := FillFrom(lay, n, sect, j, k, left, d, b');
    }

    /** Takes bits of byte `j` from `k` on for the run that starts at the first clear bit `b`. */
    method FillFrom(lay: Layout, n: nat, sect: nat, j: nat, k: nat, left: nat, ghost d: seq<byte>, ghost b: nat)
      returns (ok: bool, left': nat)
      requires Valid() && Holds(sect) && lay.mapSect <= sect < lay.mapSect + lay.mapSects
      requires lay.End() <= |d| == disk.Length && j < SECTOR_SIZE && k < 8 && 0 < left <= n
      requires FirstClear(d, lay, b) && b + n - left == Pos(lay, sect * SECTOR_SIZE + j, k)
      requires RangeIs(d, lay, b, b + n - left, false) && RangeSet(d, View(sect), lay, b, b + n - left, true)
      modifies fsbuf
      ensures !ok ==> !CanAlloc(d, lay, n)
      ensures ok ==> Progress(d, View(sect), lay, n, Pos(lay, sect * SECTOR_SIZE + j, 0) + 8, b, left')
    {
      ghost var y := sect * SECTOR_SIZE + j;
      ghost var cur := View(sect);
      ok, left' := FillView(sect, j, k, left);
      if ok {
        FillProgress(d, cur, View(sect), lay, n, y, k, k + left - left', b, left, left');
      } else {
        BlockedBit(d, cur, lay, n, b, n - left, y, k + left - left');
      }
    }

    /** FillByte, seen on the disk as it will be. */
    method FillView(sect: nat, j: nat, k: nat, left: nat) returns (ok: bool, left': nat)
      requires Valid() && Holds(sect) && j < SECTOR_SIZE && k < 8 && 0 < left
      modifies fsbuf
      ensures left' <= left && k + left - left' <= 8
      ensures ok ==> left' < left && (left' == 0 || k + left - left' == 8)
      ensures ok ==> ByteFilled(old(View(sect)), View(sect), sect * SECTOR_SIZE + j, k, k + left - left')
      ensures !ok ==> left' > 0 && k + left - left' < 8
      ensures !ok ==> Bit(old(View(sect))[sect * SECTOR_SIZE + j], k + left - left')
    {
      ghost var cur := View(sect);
      assert cur[sect * SECTOR_SIZE + j] == fsbuf[j];
      ok, left' := FillByte(j, k, left);
    }

    /** The byte loop of alloc_sect_map_bit over the sector in the buffer. */
    method ScanSector(lay: Layout, n: nat, sect: nat, alloc: nat, left: nat, ghost d: seq<byte>, ghost b: int)
      returns (ok: bool, alloc': nat, left': nat, ghost b': int)
      requires Valid() && Holds(sect) && lay.mapSect <= sect < lay.mapSect + lay.mapSects
      requires lay.End() <= |d| == disk.Length && 0 < left && 2 <= lay.firstData
      requires Progress(d, View(sect), lay, n, Pos(lay, sect * SECTOR_SIZE, 0), b, left)
      requires alloc == if b < 0 then 0 else b - 1 + lay.firstData
      modifies fsbuf
      ensures !ok ==> !CanAlloc(d, lay, n)
      ensures ok ==> Progress(d, View(sect), lay, n, Pos(lay, (sect + 1) * SECTOR_SIZE, 0), b', left')
      ensures ok ==> alloc' == if b' < 0 then 0 else b' - 1 + lay.firstData
      ensures ok && b >= 0 ==> b' == b
    {
      ok, alloc', left', b' := true, alloc, left, b;
      var j := 0;
      while j < SECTOR_SIZE && left' > 0
        invariant 0 <= j <= SECTOR_SIZE
        invariant Progress(d, View(sect), lay, n, Pos(lay, sect * SECTOR_SIZE + j, 0), b', left')
        invariant alloc' == if b' < 0 then 0 else b' - 1 + lay.firstData
        invariant b >= 0 ==> b' == b
        decreases SECTOR_SIZE - j
      {
        ok, alloc', left', b' := ScanByte(lay, n, sect, j, alloc', left', d, b');
        if !ok { return; }
        j := j + 1;
      }
      ok := true;
    }

    /** One round of the sector loop: read, scan, and write back once bits have been taken. */
    method ScanMapSector(lay: Layout, n: nat, sect: nat, alloc: nat, left: nat, ghost d: seq<byte>, ghost b: int)
      returns (ok: bool, alloc': nat, left': nat, ghost b': int)
      requires Valid() && lay.mapSect <= sect < lay.mapSect + lay.mapSects
      requires lay.End() <= |d| == disk.Length && 0 < left && 2 <= lay.firstData
      requires Progress(d, disk[..], lay, n, Pos(lay, sect * SECTOR_SIZE, 0), b, left)
      requires alloc == if b < 0 then 0 else b - 1 + lay.firstData
      modifies disk, fsbuf
      ensures !ok ==> !CanAlloc(d, lay, n)
      ensures ok ==> Progress(d, disk[..], lay, n, Pos(lay, (sect + 1) * SECTOR_SIZE, 0), b', left')
      ensures ok ==> alloc' == if b' < 0 then 0 else b' - 1 + lay.firstData
    {
      RdSect(sect);
      ok, alloc', left', b' := ScanSector(lay, n, sect, alloc, left, d, b);
      if ok && alloc' != 0 {
        WrSect(sect);
      }
    }

    /** alloc_sect_map_bit: succeeds exactly when `n` bits are clear from the first clear bit
        `b` on, and then sets exactly those bits and returns `b - 1 + firstData`. */
    method AllocSectMapBit(lay: Layout, n: nat) returns (ok: bool, sect: nat)
      requires Valid() && lay.End() <= disk.Length && 1 <= n && 2 <= lay.firstData
      modifies disk, fsbuf
      ensures ok == CanAlloc(old(disk[..]), lay, n)
      ensures ok ==> sect + 1 >= lay.firstData && FirstClear(old(disk[..]), lay, sect + 1 - lay.firstData)
      ensures ok ==> var b := sect + 1 - lay.firstData; RangeSet(old(disk[..]), disk[..], lay, b, b + n, true)
    {
      ghost var d := disk[..];
      ghost var b := -1;
      var left := n;
      sect := 0;
      var i := 0;
      while i < lay.mapSects && left > 0
        invariant 0 <= i <= lay.mapSects && 0 <= left
        invariant Progress(d, disk[..], lay, n, Pos(lay, (lay.mapSect + i) * SECTOR_SIZE, 0), b, left)
        invariant sect == if b < 0 then 0 else b - 1 + lay.firstData
        decreases lay.mapSects - i
      {
        ok, sect, left, b := ScanMapSector(lay, n, lay.mapSect + i, sect, left, d, b);
        if !ok { return; }
        i := i + 1;
      }
      if left > 0 {
        MapExhausted(d, disk[..], lay, n, b, left);
      } else {
        AllocDone(d, disk[..], lay, n, Pos(lay, (lay.mapSect + i) * SECTOR_SIZE, 0), b);
      }
      ok := left == 0;
    }

    /** The first loop of clear_sector_map_bits: clears bits of one byte from `k0` on. */
    method ClearBitsInByte(j: nat, k0: nat, n: nat) returns (ok: bool, left: nat)
      requires Valid() && j < SECTOR_SIZE && k0 < 8
      modifies fsbuf
      ensures forall x :: 0 <= x < SECTOR_SIZE && x != j ==> fsbuf[x] == old(fsbuf[x])
      ensures left <= n && n - left <= 8 - k0
      ensures ok ==> left == 0 || n - left == 8 - k0
      ensures ok ==> forall k :: 0 <= k < 8 ==>
            Bit(fsbuf[j], k) == (!(k0 <= k < k0 + n - left) && Bit(old(fsbuf[j]), k))
      ensures ok ==> forall k :: k0 <= k < k0 + n - left ==> Bit(old(fsbuf[j]), k)
      ensures !ok ==> k0 + n - left < 8 && left > 0 && !Bit(old(fsbuf[j]), k0 + n - left)
    {
      left := n;
      var k := k0;
      while k < 8 && left > 0
        invariant k0 <= k <= 8 && left == n - (k - k0)
        invariant forall x :: 0 <= x < SECTOR_SIZE && x != j ==> fsbuf[x] == old(fsbuf[x])
        invariant forall q :: 0 <= q < 8 ==> Bit(fsbuf[j], q) == (!(k0 <= q < k) && Bit(old(fsbuf[j]), q))
        invariant forall q :: k0 <= q < k ==> Bit(old(fsbuf[j]), q)
        decreases 8 - k
      {
        if !Bit(fsbuf[j], k) {
          return false, left;
        }
        AndNotBit(j, k);
        k := k + 1;
        left := left - 1;
      }
      ok := true;
    }

    /** Moves on to the next sector when the byte index has run off the buffer. */
    method TurnPage(sect: nat, j: nat) returns (sect': nat, j': nat)
      requires Valid() && Holds(sect) && j <= SECTOR_SIZE
      requires j == SECTOR_SIZE ==> Holds(sect + 1)
      modifies disk, fsbuf
      ensures Holds(sect') && View(sect') == old(View(sect))
      ensures j' < SECTOR_SIZE && sect' * SECTOR_SIZE + j' == sect * SECTOR_SIZE + j
    {
      sect', j' := sect, j;
      if j == SECTOR_SIZE {
        WrSect(sect);
        RdSect(sect + 1);
        sect', j' := sect + 1, 0;
      }
    }

    /** The middle loop of clear_sector_map_bits: clears `count` whole bytes. */
    method ClearWholeBytes(lay: Layout, sect: nat, j: nat, count: nat, ghost d: seq<byte>, ghost a: nat, ghost e: nat)
      returns (ok: bool, sect': nat, j': nat)
      requires Valid() && Holds(sect) && lay.mapSect <= sect && j <= SECTOR_SIZE && lay.End() <= |d| == disk.Length
      requires lay.Start() <= sect * SECTOR_SIZE + j && sect * SECTOR_SIZE + j + count <= lay.End()
      requires a <= Pos(lay, sect * SECTOR_SIZE + j, 0) && Pos(lay, sect * SECTOR_SIZE + j + count, 0) <= e
      requires ClearedTo(d, View(sect), lay, a, Pos(lay, sect * SECTOR_SIZE + j, 0))
      modifies disk, fsbuf
      ensures !ok ==> !RangeIs(d, lay, a, e, true)
      ensures ok ==> Holds(sect') && j' <= SECTOR_SIZE && sect' * SECTOR_SIZE + j' == sect * SECTOR_SIZE + j + count
      ensures ok ==> ClearedTo(d, View(sect'), lay, a, Pos(lay, sect' * SECTOR_SIZE + j', 0))
    {
      sect', j' := sect, j;
      var i := 0;
      while i < count
        invariant 0 <= i <= count && Holds(sect') && j' <= SECTOR_SIZE
        invariant sect' * SECTOR_SIZE + j' == sect * SECTOR_SIZE + j + i
        invariant ClearedTo(d, View(sect'), lay, a, Pos(lay, sect' * SECTOR_SIZE + j', 0))
      {
        ok, sect', j' := ClearNextByte(lay, sect', j', d, a, e);
        if !ok { return; }
        i := i + 1;
      }
      ok := true;
    }

    /** One round: the next sector is fetched when the cursor has passed the last byte. */
    method ClearNextByte(lay: Layout, sect: nat, j: nat, ghost d: seq<byte>, ghost a: nat, ghost e: nat)
      returns (ok: bool, sect': nat, j': nat)
      requires Valid() && Holds(sect) && j <= SECTOR_SIZE && lay.End() <= |d| == disk.Length
      requires lay.Start() <= sect * SECTOR_SIZE + j < lay.End()
      requires a <= Pos(lay, sect * SECTOR_SIZE + j, 0) && Pos(lay, sect * SECTOR_SIZE + j, 0) + 8 <= e
      requires ClearedTo(d, View(sect), lay, a, Pos(lay, sect * SECTOR_SIZE + j, 0))
      modifies disk, fsbuf
      ensures !ok ==> !RangeIs(d, lay, a, e, true)
      ensures ok ==> Holds(sect') && j' <= SECTOR_SIZE && sect' * SECTOR_SIZE + j' == sect * SECTOR_SIZE + j + 1
      ensures ok ==> ClearedTo(d, View(sect'), lay, a, Pos(lay, sect' * SECTOR_SIZE + j', 0))
    {
      sect', j' := TurnPage(sect, j);
      ok := ClearFullByte(lay, sect', j', d, a, e);
      j' := j' + 1;
    }

    method ClearFullByte(lay: Layout, sect: nat, j: nat, ghost d: seq<byte>, ghost a: nat, ghost e: nat)
      returns (ok: bool)
      requires Valid() && Holds(sect) && j < SECTOR_SIZE && lay.End() <= |d| == disk.Length
      requires lay.Start() <= sect * SECTOR_SIZE + j < lay.End()
      requires a <= Pos(lay, sect * SECTOR_SIZE + j, 0) && Pos(lay, sect * SECTOR_SIZE + j, 0) + 8 <= e
      requires ClearedTo(d, View(sect), lay, a, Pos(lay, sect * SECTOR_SIZE + j, 0))
      modifies fsbuf
      ensures !ok ==> !RangeIs(d, lay, a, e, true)
      ensures ok ==> ClearedTo(d, View(sect), lay, a, Pos(lay, sect * SECTOR_SIZE + j + 1, 0))
    {
      ghost var y := sect * SECTOR_SIZE + j;
      ghost var cur := View(sect);
      assert cur[y] == fsbuf[j];
      FullByte(fsbuf[j]);
      if fsbuf[j] != 255 {
        ghost var k :| 0 <= k < 8 && !Bit(cur[y], k);
        ClearBitSeen(d, cur, lay, a, e, y, 0, k);
        return false;
      }
      fsbuf[j] := 0;
      forall k: nat | k < 8 ensures !Bit(0, k) { ZeroByte(k); }
      assert ByteCleared(cur, View(sect), y, 0, 8);
      ClearMore(d, cur, View(sect), lay, a, y, 0, 8);
      ok := true;
    }

    /** The tail of clear_sector_map_bits: clears the low `left` bits of the byte under the cursor. */
    method ClearLastByte(lay: Layout, sect: nat, j: nat, left: nat, ghost d: seq<byte>, ghost a: nat,
                         ghost pos: nat) returns (ok: bool)
      requires Valid() && Holds(sect) && j < SECTOR_SIZE && lay.End() <= |d| == disk.Length && left < 8
      requires left > 0 ==>
            lay.Start() <= sect * SECTOR_SIZE + j < lay.End() && pos == Pos(lay, sect * SECTOR_SIZE + j, 0)
      requires a <= pos && ClearedTo(d, View(sect), lay, a, pos)
      modifies fsbuf
      ensures !ok ==> !RangeIs(d, lay, a, pos + left, true)
      ensures ok ==> ClearedTo(d, View(sect), lay, a, pos + left)
    {
      ghost var y := sect * SECTOR_SIZE + j;
      ghost var cur := View(sect);
      var was := fsbuf[j];
      assert cur[y] == was;
      LowOnes(was, left);
      if was & !HighMask(left) != !HighMask(left) {
        ghost var k :| 0 <= k < left && !Bit(was, k);
        ClearBitSeen(d, cur, lay, a, pos + left, y, 0, k);
        return false;
      }
      var now := was & HighMask(left);
      forall k: nat | k < 8 ensures Bit(now, k) == (k >= left && Bit(was, k)) { ClearLow(was, left, k); }
      fsbuf[j] := now;
      if left > 0 {
        assert ByteCleared(cur, View(sect), y, 0, left);
        ClearMore(d, cur, View(sect), lay, a, y, 0, left);
      } else {
        SameBits(now, was);
        assert View(sect) == cur;
      }
      ok := true;
    }

    /** The head of clear_sector_map_bits, on the map as read from disk. */
    method ClearFirstByte(lay: Layout, sect: nat, j: nat, bit: nat, n: nat, ghost d: seq<byte>)
      returns (ok: bool, left: nat)
      requires Valid() && Holds(sect) && j < SECTOR_SIZE && lay.End() <= |d| == disk.Length && View(sect) == d
      requires lay.Start() <= sect * SECTOR_SIZE + j < lay.End() && Pos(lay, sect * SECTOR_SIZE + j, bit % 8) == bit
      modifies fsbuf
      ensures !ok ==> !RangeIs(d, lay, bit, bit + n, true)
      ensures left <= n && n - left <= 8 - bit % 8
      ensures ok ==> (left == 0 || n - left == 8 - bit % 8) && ClearedTo(d, View(sect), lay, bit, bit + n - left)
    {
      ghost var y := sect * SECTOR_SIZE + j;
      assert d[y] == fsbuf[j];
      ok, left := ClearBitsInByte(j, bit % 8, n);
      if ok {
        assert ByteCleared(d, View(sect), y, bit % 8, bit % 8 + n - left);
        ClearMore(d, d, View(sect), lay, bit, y, bit % 8, bit % 8 + n - left);
      } else {
        ClearBitSeen(d, d, lay, bit, bit + n, y, bit % 8, bit % 8 + n - left);
      }
    }

    /** clear_sector_map_bits for the extent of `n` sectors at `start`: succeeds exactly when
        all its bits are set, and then clears exactly those bits. */
    method ClearSectorMapBits(lay: Layout, start: nat, n: nat) returns (ok: bool)
      requires Valid() && lay.End() + SECTOR_SIZE <= disk.Length && lay.firstData <= start + 1
      requires start + 1 - lay.firstData < lay.NumBits() && start + 1 - lay.firstData + n <= lay.NumBits()
      modifies disk, fsbuf
      ensures var a := start + 1 - lay.firstData;
              && ok == RangeIs(old(disk[..]), lay, a, a + n, true)
              && (ok ==> RangeSet(old(disk[..]), disk[..], lay, a, a + n, false))
    {
      ghost var d := disk[..];
      var bit := start + 1 - lay.firstData;
      var startByte := bit / 8;
      var count := if n >= 8 - bit % 8 then (n - (8 - bit % 8)) / 8 else 0;
      var sect := lay.mapSect + startByte / SECTOR_SIZE;
      var j := startByte % SECTOR_SIZE;
      assert sect * SECTOR_SIZE + j == lay.Start() + startByte;
      RdSect(sect);
      var left;
      ok, left := ClearFirstByte(lay, sect, j, bit, n, d);
      if ok {
        ok := ClearRest(lay, sect, j + 1, count, left, d, bit, bit + n);
      }
    }

    /** What follows the first byte: whole bytes, then the last bits, then the write back. */
    method ClearRest(lay: Layout, sect0: nat, j0: nat, count: nat, left: nat, ghost d: seq<byte>, ghost a: nat,
                     ghost e: nat)
      returns (ok: bool)
      requires Valid() && Holds(sect0) && lay.mapSect <= sect0 && 0 < j0 <= SECTOR_SIZE
      requires lay.End() + SECTOR_SIZE <= |d| == disk.Length
      requires left < 8 * (count + 1) && (left > 0 ==> left >= 8 * count) && (left == 0 ==> count == 0)
      requires a <= e - left && e <= lay.NumBits() && sect0 * SECTOR_SIZE + j0 <= lay.End()
      requires left > 0 ==> Pos(lay, sect0 * SECTOR_SIZE + j0, 0) == e - left
      requires ClearedTo(d, View(sect0), lay, a, e - left)
      modifies disk, fsbuf
      ensures ok == RangeIs(d, lay, a, e, true)
      ensures ok ==> RangeSet(d, disk[..], lay, a, e, false)
    {
      var sect, j := sect0, j0;
      if count > 0 {
        ok, sect, j := ClearWholeBytes(lay, sect, j, count, d, a, e);
        if !ok { return; }
      }
      sect, j := TurnPage(sect, j);
      ok := ClearLastByte(lay, sect, j, left - 8 * count, d, a, e - left + 8 * count);
      if ok { WrSect(sect); }
    }

    /** create_cmd_dot_tar: marks the `n` sectors at `start` as used. */
    method CreateCmdDotTar(lay: Layout, start: nat, n: nat)
      requires Valid() && lay.End() + SECTOR_SIZE <= disk.Length && lay.firstData <= start + 1
      requires start + 1 - lay.firstData + n <= lay.NumBits()
      modifies disk, fsbuf
      ensures var a := start + 1 - lay.firstData; RangeSet(old(disk[..]), disk[..], lay, a, a + n, true)
    {
      ghost var d := disk[..];
      var a := start + 1 - lay.firstData;
      var off := a % (SECTOR_SIZE * 8);
      var sect: nat := lay.mapSect + a / (SECTOR_SIZE * 8);
      RdSect(sect);
      var left := n;
      while left > 0
        invariant 0 <= left <= n && 0 <= off < SECTOR_SIZE * 8 && Holds(sect)
        invariant (sect - lay.mapSect) * SECTOR_SIZE * 8 + off == a + n - left
        invariant RangeSet(d, View(sect), lay, a, a + n - left, true)
      {
        ghost var cur := View(sect);
        ghost var y := sect * SECTOR_SIZE + off / 8;
        assert cur[y] == fsbuf[off / 8];
        OrBit(off / 8, off % 8);
        assert InMap(lay, y, off % 8) && Pos(lay, y, off % 8) == a + n - left;
        SetNext(d, cur, View(sect), lay, a, y, off % 8);
        left := left - 1;
        off := off + 1;
        if off == SECTOR_SIZE * 8 {
          WrSect(sect);
          sect := sect + 1;
          RdSect(sect);
          off := 0;
        }
      }
      WrSect(sect);
    }

    /** fsbuf[j] |= 1 << k */
    method OrBit(j: nat, k: nat)
      requires Valid() && j < SECTOR_SIZE && k < 8
      modifies fsbuf
      ensures forall x :: 0 <= x < SECTOR_SIZE && x != j ==> fsbuf[x] == old(fsbuf[x])
      ensures forall q: nat :: q < 8 ==> Bit(fsbuf[j], q) == (q == k || Bit(old(fsbuf[j]), q))
    {
      var was := fsbuf[j];
      var now := was | Mask(k);
      forall q: nat | q < 8 ensures Bit(now, q) == (q == k || Bit(was, q)) { SetBit(was, k, q); }
      fsbuf[j] := now;
    }

    /** The buffer of create_sector_map: bits below `e` set, the others clear. */
    method LowBitsBuffer(e: nat)
      requires Valid() && e / 8 < SECTOR_SIZE
      modifies fsbuf
      ensures forall j: nat, k: nat :: j < SECTOR_SIZE && k < 8 ==> (Bit(fsbuf[j], k) <==> j * 8 + k < e)
    {
      forall j | 0 <= j < SECTOR_SIZE { fsbuf[j] := 0; }
      var i := 0;
      while i < e / 8
        invariant 0 <= i <= e / 8
        invariant forall j :: 0 <= j < SECTOR_SIZE ==> fsbuf[j] == if j < i then 255 else 0
      {
        fsbuf[i] := 255;
        i := i + 1;
      }
      FullByte(255);
      forall k: nat | k < 8 ensures !Bit(0, k) { ZeroByte(k); }
      var q := 0;
      while q < e % 8
        invariant 0 <= q <= e % 8
        invariant forall j :: 0 <= j < SECTOR_SIZE && j != i ==> fsbuf[j] == if j < i then 255 else 0
        invariant forall k: nat :: k < 8 ==> Bit(fsbuf[i], k) == (k < q)
      {
        OrBit(i, q);
        q := q + 1;
      }
    }

    /** create_sector_map with NR_FILE_SECTS = `nr`: bit 0 and the root's extent, nothing else. */
    method CreateSectorMap(lay: Layout, nr: nat)
      requires Valid() && lay.End() <= disk.Length && 0 < lay.mapSects && (nr + 1) / 8 < SECTOR_SIZE
      modifies disk, fsbuf
      ensures LowBitsOnly(old(disk[..]), disk[..], lay, lay.mapSects * SECTOR_SIZE, nr + 1)
    {
      ghost var d := disk[..];
      LowBitsBuffer(nr + 1);
      ghost var buf := fsbuf[..];
      WrSect(lay.mapSect);
      forall y: nat, k: nat | InMap(lay, y, k) && y < lay.Start() + SECTOR_SIZE
        ensures Bit(disk[y], k) <==> Pos(lay, y, k) < nr + 1
      {
        assert disk[y] == buf[y - lay.Start()];
      }
      forall j | 0 <= j < SECTOR_SIZE { fsbuf[j] := 0; }
      forall k: nat | k < 8 ensures !Bit(0, k) { ZeroByte(k); }
      var i := 1;
      while i < lay.mapSects
        invariant 1 <= i <= lay.mapSects
        invariant forall j :: 0 <= j < SECTOR_SIZE ==> fsbuf[j] == 0
        invariant LowBitsOnly(d, disk[..], lay, i * SECTOR_SIZE, nr + 1)
      {
        ghost var before := disk[..];
        WrSect(lay.mapSect + i);
        forall y: nat, k: nat | InMap(lay, y, k) && y < |d| && y < lay.Start() + (i + 1) * SECTOR_SIZE
          ensures Bit(disk[y], k) <==> Pos(lay, y, k) < nr + 1
        {
          if y < lay.Start() + i * SECTOR_SIZE { assert disk[y] == before[y]; } else { assert disk[y] == 0; }
        }
        i := i + 1;
      }
    }

    // ---- the inode map ----

    /** create_inode_map: the numbers below `e` are taken. */
    method CreateInodeMap(e: nat)
      requires Valid() && INODE_MAP.End() <= disk.Length && e < 8
      modifies disk, fsbuf
      ensures LowBitsOnly(old(disk[..]), disk[..], INODE_MAP, SECTOR_SIZE, e)
    {
      LowBitsBuffer(e);
      ghost var buf := fsbuf[..];
      WrSect(INODE_MAP.mapSect);
      forall y: nat, k: nat | InMap(INODE_MAP, y, k) ensures Bit(disk[y], k) <==> Pos(INODE_MAP, y, k) < e {
        assert disk[y] == buf[y - INODE_MAP.Start()];
      }
    }

    /** alloc_inode_map_bit: takes the first clear bit; in a full map it returns 0, which is no inode. */
    method AllocInodeMapBit() returns (nr: nat)
      requires Valid() && INODE_MAP.End() <= disk.Length
      modifies disk, fsbuf
      ensures var d := old(disk[..]);
              if CanAlloc(d, INODE_MAP, 1) then
                FirstClear(d, INODE_MAP, nr) && RangeSet(d, disk[..], INODE_MAP, nr, nr + 1, true)
              else nr == 0 && disk[..] == d
    {
      ghost var d := disk[..];
      RdSect(INODE_MAP.mapSect);
      var j := 0;
      while j < SECTOR_SIZE && fsbuf[j] == 255
        invariant j <= SECTOR_SIZE && View(INODE_MAP.mapSect) == d == disk[..]
        invariant Progress(d, d, INODE_MAP, 1, j * 8, -1, 1)
        decreases SECTOR_SIZE - j
      {
        assert d[INODE_MAP.Start() + j] == fsbuf[j];
        SkipFullByte(d, INODE_MAP, 1, INODE_MAP.Start() + j);
        j := j + 1;
      }
      if j == SECTOR_SIZE {
        MapExhausted(d, d, INODE_MAP, 1, -1, 1);
        return 0;
      }
      nr := TakeInodeBit(j, d);
      WrSect(INODE_MAP.mapSect);
    }

    /** Sets the lowest clear bit of byte `j`, the first byte with one. */
    method TakeInodeBit(j: nat, ghost d: seq<byte>) returns (nr: nat)
      requires Valid() && INODE_MAP.End() <= |d| == disk.Length && j < SECTOR_SIZE && fsbuf[j] != 255
      requires View(INODE_MAP.mapSect) == d && RangeIs(d, INODE_MAP, 0, j * 8, true)
      modifies fsbuf
      ensures CanAlloc(d, INODE_MAP, 1) && FirstClear(d, INODE_MAP, nr)
      ensures RangeSet(d, View(INODE_MAP.mapSect), INODE_MAP, nr, nr + 1, true)
    {
      ghost var y := INODE_MAP.Start() + j;
      assert d[y] == fsbuf[j];
      var k := LowestClear(fsbuf[j]);
      nr := j * 8 + k;
      assert InMap(INODE_MAP, y, k) && Pos(INODE_MAP, y, k) == nr;
      FoundFirstClear(d, INODE_MAP, y, k);
      FirstIsClear(d, INODE_MAP, nr);
      NothingTaken(d, INODE_MAP, nr);
      OrBit(j, k);
      SetNext(d, d, View(INODE_MAP.mapSect), INODE_MAP, nr, y, k);
    }

    /** clear_inode_map_bit: succeeds exactly when the bit lies in the map and is set, and then clears
        that bit alone. */
    method ClearInodeMapBit(nr: nat) returns (ok: bool)
      requires Valid() && INODE_MAP.End() <= disk.Length
      modifies disk, fsbuf
      ensures ok == (nr < INODE_MAP.NumBits() && MapBit(old(disk[..]), INODE_MAP, nr))
      ensures ok ==> RangeSet(old(disk[..]), disk[..], INODE_MAP, nr, nr + 1, false)
    {
      ghost var d := disk[..];
      var j, k := nr / 8, nr % 8;
      if j >= SECTOR_SIZE { return false; }
      RdSect(INODE_MAP.mapSect);
      ghost var y := INODE_MAP.Start() + j;
      assert d[y] == fsbuf[j];
      if !Bit(fsbuf[j], k) { return false; }
      AndNotBit(j, k);
      assert ByteCleared(d, View(INODE_MAP.mapSect), y, k, k + 1);
      NothingCleared(d, INODE_MAP, nr);
      ClearMore(d, d, View(INODE_MAP.mapSect), INODE_MAP, nr, y, k, k + 1);
      WrSect(INODE_MAP.mapSect);
      ok := true;
    }

    /** fsbuf[j] &= ~(1 << k) */
    method AndNotBit(j: nat, k: nat)
      requires Valid() && j < SECTOR_SIZE && k < 8
      modifies fsbuf
      ensures forall x :: 0 <= x < SECTOR_SIZE && x != j ==> fsbuf[x] == old(fsbuf[x])
      ensures forall q: nat :: q < 8 ==> Bit(fsbuf[j], q) == (q != k && Bit(old(fsbuf[j]), q))
    {
      var was := fsbuf[j];
      var now := was & !Mask(k);
      forall q: nat | q < 8 ensures Bit(now, q) == (q != k && Bit(was, q)) { ClearBit(was, k, q); }
      fsbuf[j] := now;
    }

    /** Releasing an extent that was just allocated restores the whole disk. */
    method AllocThenClear(lay: Layout, n: nat) returns (ok: bool)
      requires Valid() && lay.End() + SECTOR_SIZE <= disk.Length && 1 <= n && 2 <= lay.firstData
      modifies disk, fsbuf
      ensures ok == CanAlloc(old(disk[..]), lay, n)
      ensures ok ==> disk[..] == old(disk[..])
    {
      var sect;
      ghost var d := disk[..];
      ok, sect := AllocSectMapBit(lay, n);
      if ok {
        ghost var d1 := disk[..];
        ghost var b := sect + 1 - lay.firstData;
        AllocatedAt(d, lay, b, n);
        SetIsSet(d, d1, lay, b, n);
        var done := ClearSectorMapBits(lay, sect, n);
        SetThenClear(d, d1, disk[..], lay, b, n);
      }
    }
  }

  lemma AllocatedAt(d: seq<byte>, lay: Layout, b: nat, n: nat)
    requires CanAlloc(d, lay, n) && FirstClear(d, lay, b)
    ensures b + n <= lay.NumBits() && RangeIs(d, lay, b, b + n, false)
  {
    var a: nat :| FirstClear(d, lay, a) && a + n <= lay.NumBits() && RangeIs(d, lay, a, a + n, false);
    FirstClearUnique(d, lay, a, b);
  }

  lemma SetIsSet(d: seq<byte>, d1: seq<byte>, lay: Layout, b: nat, n: nat)
    requires RangeSet(d, d1, lay, b, b + n, true)
    ensures RangeIs(d1, lay, b, b + n, true)
  {}

  /** A first clear bit is a clear run of length one. */
  lemma FirstIsClear(d: seq<byte>, lay: Layout, b: nat)
    requires FirstClear(d, lay, b)
    ensures CanAlloc(d, lay, 1)
  {
    forall y: nat, k: nat | InMap(lay, y, k) && y < |d| && b <= Pos(lay, y, k) < b + 1 ensures !Bit(d[y], k) {
      assert b / 8 == y - lay.Start() && b % 8 == k;
    }
  }

  lemma NothingCleared(d: seq<byte>, lay: Layout, b: int)
    ensures ClearedTo(d, d, lay, b, b)
  {}
}
