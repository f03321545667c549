/** The bitmap on disk and the set of used bits in the file system state are two views of
    one thing; and the state made by mkfs is well formed. */
module FsMap {
  import opened Common
  import opened Bits
  import opened FsModel
  import D = DirectoryModel
  import FsSteps
  import FsFrames
  import FsCalls
  import FsRuns
  import RW = ReadWrite
  import SM = SectorMap

  /** The set bits of the sector map stored in the disk image. */
  function UsedBits(d: seq<byte>, lay: SM.Layout, n: nat): (s: set<nat>)
    requires lay.End() <= |d| && n <= lay.NumBits()
    ensures forall i: nat :: i in s <==> i < n && SM.MapBit(d, lay, i)
  {
    if n == 0 then {} else UsedBits(d, lay, n - 1) + if SM.MapBit(d, lay, n - 1) then {n - 1} else {}
  }

  function Used(d: seq<byte>, lay: SM.Layout): set<nat>
    requires lay.End() <= |d|
  {
    UsedBits(d, lay, lay.NumBits())
  }

  lemma BitPlace(lay: SM.Layout, n: nat)
    requires n < lay.NumBits()
    ensures SM.InMap(lay, lay.Start() + n / 8, n % 8) && SM.Pos(lay, lay.Start() + n / 8, n % 8) == n
  {}

  lemma PlaceBit(d: seq<byte>, lay: SM.Layout, y: nat, k: nat)
    requires lay.End() <= |d| && SM.InMap(lay, y, k)
    ensures 0 <= SM.Pos(lay, y, k) < lay.NumBits() && SM.MapBit(d, lay, SM.Pos(lay, y, k)) == Bit(d[y], k)
  {
    var n := SM.Pos(lay, y, k);
    assert n / 8 == y - lay.Start() && n % 8 == k;
  }

  /** Setting a range of bits adds that range to the used set; clearing removes it. */
  lemma RangeSetUsed(d: seq<byte>, d': seq<byte>, lay: SM.Layout, a: nat, n: nat, v: bool)
    requires lay.End() <= |d| && a + n <= lay.NumBits() && SM.RangeSet(d, d', lay, a, a + n, v)
    ensures Used(d', lay) == if v then Used(d, lay) + FsSteps.Range(a, n) else Used(d, lay) - FsSteps.Range(a, n)
  {
    forall i: nat | i < lay.NumBits()
      ensures SM.MapBit(d', lay, i) == if a <= i < a + n then v else SM.MapBit(d, lay, i)
    {
      BitPlace(lay, i);
    }
  }

  lemma RangeIsUsed(d: seq<byte>, lay: SM.Layout, a: nat, n: nat)
    requires lay.End() <= |d| && a + n <= lay.NumBits()
    ensures SM.RangeIs(d, lay, a, a + n, true) <==> FsSteps.Range(a, n) <= Used(d, lay)
    ensures SM.RangeIs(d, lay, a, a + n, false) <==> Used(d, lay) * FsSteps.Range(a, n) == {}
  {
    RangeIsBits(d, lay, a, n, true);
    RangeIsBits(d, lay, a, n, false);
    assert (forall i: nat :: a <= i < a + n ==> i in Used(d, lay)) <==> FsSteps.Range(a, n) <= Used(d, lay);
    if Used(d, lay) * FsSteps.Range(a, n) == {} {
      forall i: nat | a <= i < a + n ensures i !in Used(d, lay) {
        assert i in FsSteps.Range(a, n) && i !in Used(d, lay) * FsSteps.Range(a, n);
      }
    }
  }

  /** A range of bits seen byte by byte and seen by number. */
  lemma RangeIsBits(d: seq<byte>, lay: SM.Layout, a: nat, n: nat, v: bool)
    requires lay.End() <= |d| && a + n <= lay.NumBits()
    ensures SM.RangeIs(d, lay, a, a + n, v) <==> forall i: nat :: a <= i < a + n ==> (i in Used(d, lay) <==> v)
  {
    forall i: nat | a <= i < a + n ensures SM.RangeIs(d, lay, a, a + n, v) ==> (i in Used(d, lay) <==> v) {
      BitPlace(lay, i);
    }
    if forall i: nat :: a <= i < a + n ==> (i in Used(d, lay) <==> v) {
      forall y: nat, k: nat | SM.InMap(lay, y, k) && y < |d| && a <= SM.Pos(lay, y, k) < a + n
        ensures Bit(d[y], k) == v
      {
        PlaceBit(d, lay, y, k);
        assert SM.Pos(lay, y, k) in Used(d, lay) <==> v;
      }
    }
  }

  /** The first clear bit on disk is the first number missing from the used set. */
  lemma FirstClearUsed(d: seq<byte>, lay: SM.Layout, b: nat)
    requires lay.End() <= |d|
    ensures SM.FirstClear(d, lay, b) <==> FsSteps.FirstClear(Used(d, lay), 0, lay.NumBits()) == Some(b)
  {
    if b < lay.NumBits() {
      RangeIsUsed(d, lay, 0, b);
      assert (FsSteps.Range(0, b) <= Used(d, lay)) <==> (forall i: nat :: i < b ==> i in Used(d, lay)) by {
        forall i: nat | i < b ensures i in FsSteps.Range(0, b) {}
      }
    }
  }

  /** The allocator's condition on the disk is the condition of the file system model, and
      its effect there is the model's effect on the used set. */
  lemma AllocRefines(d: seq<byte>, lay: SM.Layout, n: nat)
    requires lay.End() <= |d|
    ensures var r := FsSteps.FirstClear(Used(d, lay), 0, lay.NumBits());
            SM.CanAlloc(d, lay, n) <==>
              r.Some? && r.value + n <= lay.NumBits() && Used(d, lay) * FsSteps.Range(r.value, n) == {}
  {
    var r := FsSteps.FirstClear(Used(d, lay), 0, lay.NumBits());
    if r.Some? {
      FirstClearUsed(d, lay, r.value);
      if r.value + n <= lay.NumBits() { RangeIsUsed(d, lay, r.value, n); }
    }
    forall b: nat | SM.FirstClear(d, lay, b) ensures r == Some(b) { FirstClearUsed(d, lay, b); }
  }

  // ---- mkfs ----

  const INODES_PER_SECTOR := 16 // SECTOR_SIZE / INODE_SIZE

  /** The sizes a file system is made with. mkfs writes one sector of the inode array; `oldInodes`
      is what the others happened to hold. */
  datatype Geometry = Geometry(
    firstData: nat, fileSects: nat, installStart: nat, installSects: nat, oldInodes: seq<DiskInode>, nbits: nat,
    ncache: nat, ndescs: nat, nslots: nat, nfiles: nat)
  {
    /** The install image lies behind the root's extent and inside the map. */
    predicate Fits() {
      && ncache >= 1 && firstData + fileSects <= installStart
      && installStart + 1 - firstData + installSects <= nbits
    }
  }

  /** create_inode_array: there is no inode 0; 1 is the root, 2 to 4 are the terminals, 5 is
      cmd.tar, and the rest of the first sector is zero. */
  function MkfsInodes(g: Geometry): seq<DiskInode>
    requires g.Fits()
  {
    [CLEARED, DiskInode(Directory, 5 * D.DIR_ENTRY_SIZE, g.firstData, g.fileSects),
     DiskInode(CharSpecial, 0, 0x400, 0), DiskInode(CharSpecial, 0, 0x401, 0), DiskInode(CharSpecial, 0, 0x402, 0),
     DiskInode(Regular, g.installSects * SECTOR_SIZE, g.installStart, g.installSects)]
    + seq(INODES_PER_SECTOR - 5, _ => CLEARED) + g.oldInodes
  }

  /** create_root_directory: the first sector of the root. */
  function MkfsEntries(): (es: seq<D.Entry>)
    ensures |es| == D.PER_SECTOR
  {
    [D.Entry(1, D.Pad(".")), D.Entry(2, D.Pad("dev_tty0")), D.Entry(3, D.Pad("dev_tty1")),
     D.Entry(4, D.Pad("dev_tty2")), D.Entry(5, D.Pad("cmd.tar"))] + seq(27, _ => D.ZERO)
  }

  /** The state after mkfs and init_fs: no process has a file open, and the root's inode sits in
      the first cache slot. mkfs writes the root's first sector only; `rest` is what the others
      happened to hold. */
  function Mkfs(g: Geometry, rest: seq<D.Entry>, procs: set<nat>): Fs
    requires g.Fits()
  {
    var inodes := MkfsInodes(g);
    Fs(inodes, {0, 1, 2, 3, 4, 5},
       FsSteps.Range(0, g.fileSects + 1) + FsSteps.Range(g.installStart + 1 - g.firstData, g.installSects),
       MkfsEntries() + rest,
       [CacheSlot(1, ROOT_INODE_NR, inodes[1])] + seq(g.ncache - 1, _ => CacheSlot(0, 0, CLEARED)),
       seq(g.ndescs, _ => Desc(0, 0, None)), seq(g.nslots, _ => -1), procs, multiset{0},
       0, g.nfiles, g.firstData, g.nbits, g.fileSects)
  }

  /** A map whose low bits alone are set. */
  lemma LowBitsUsed(d: seq<byte>, d1: seq<byte>, lay: SM.Layout, e: nat)
    requires lay.End() <= |d| && e <= lay.NumBits() && SM.LowBitsOnly(d, d1, lay, lay.mapSects * SECTOR_SIZE, e)
    ensures Used(d1, lay) == FsSteps.Range(0, e)
  {
    forall i: nat | i < lay.NumBits() ensures SM.MapBit(d1, lay, i) <==> i < e { BitPlace(lay, i); }
  }

  /** The disk bits written by create_sector_map and create_cmd_dot_tar are those of Mkfs. */
  lemma MkfsBits(d: seq<byte>, d1: seq<byte>, d2: seq<byte>, lay: SM.Layout, nr: nat, a: nat, n: nat)
    requires lay.End() <= |d| && nr + 1 <= lay.NumBits() && a + n <= lay.NumBits()
    requires SM.LowBitsOnly(d, d1, lay, lay.mapSects * SECTOR_SIZE, nr + 1)
    requires SM.RangeSet(d1, d2, lay, a, a + n, true)
    ensures Used(d2, lay) == FsSteps.Range(0, nr + 1) + FsSteps.Range(a, n)
  {
    LowBitsUsed(d, d1, lay, nr + 1);
    RangeSetUsed(d1, d2, lay, a, n, true);
  }

  lemma MkfsTables(fs: Fs)
    requires |fs.inodes| >= 6 && |fs.cache| >= 1 && fs.cache[0] == CacheSlot(1, ROOT_INODE_NR, fs.inodes[1])
    requires fs.root == 0 && fs.held == multiset{0}
    requires forall c :: 1 <= c < |fs.cache| ==> fs.cache[c].cnt == 0
    requires forall d :: 0 <= d < |fs.descs| ==> fs.descs[d] == Desc(0, 0, None)
    requires forall i :: 0 <= i < |fs.slots| ==> fs.slots[i] == -1
    ensures FsSteps.TablesOk(fs) && FsSteps.RowsOk(fs)
  {
    var reach := Reach(fs.slots, fs.descs);
    forall d | 0 <= d < |fs.descs| ensures DescOk(fs.descs, fs.slots, |fs.cache|, d) {
      assert d as int !in fs.slots;
    }
    forall c | 0 <= c < |fs.cache| ensures InodeCountOk(fs.cache, fs.descs, fs.slots, fs.held, c) {
      assert c as int !in reach;
    }
  }

  lemma MkfsNumbers(fs: Fs)
    requires fs.live == {0, 1, 2, 3, 4, 5} && |fs.inodes| >= 6
    requires forall c :: 0 <= c < |fs.cache| && fs.cache[c].cnt > 0 ==> fs.cache[c].nr == 1
    requires forall nr :: 1 <= nr < 6 ==> fs.inodes[nr].kind != Unused && (fs.inodes[nr].kind == Directory <==> nr == 1)
    ensures FsSteps.InodesOk(fs)
  {
    forall nr: nat | nr in fs.live && 0 < nr < |fs.inodes| ensures FsSteps.KindOk(fs, nr) {}
    forall c | 0 <= c < |fs.cache| ensures FsSteps.CachedLive(fs, c) {}
  }

  /** The extents of the root, of the install image and of the terminals. */
  predicate MkfsExtents(fs: Fs, a: nat, n: nat)
    requires |fs.inodes| >= 6
  {
    && FsSteps.Extent(fs.inodes[1], fs.firstData) == FsSteps.Range(1, fs.fileSects)
    && FsSteps.Extent(fs.inodes[5], fs.firstData) == FsSteps.Range(a, n)
    && (forall x :: 2 <= x <= 4 ==> fs.inodes[x].kind == CharSpecial)
    && fs.inodes[1].start >= fs.firstData && fs.inodes[5].start >= fs.firstData
  }

  lemma MkfsSectors(fs: Fs, a: nat, n: nat)
    requires fs.live == {0, 1, 2, 3, 4, 5} && |fs.inodes| >= 6 && fs.fileSects < a && a + n <= fs.nbits
    requires fs.used == FsSteps.Range(0, fs.fileSects + 1) + FsSteps.Range(a, n) && MkfsExtents(fs, a, n)
    ensures FsSteps.SectorsOk(fs)
  {
    forall x: nat, y: nat | x in fs.live && y in fs.live && 0 < x < |fs.inodes| && 0 < y < |fs.inodes| && x != y
      ensures FsSteps.Apart(fs, x, y)
    {
      MkfsExtent(fs, a, n, x);
      MkfsExtent(fs, a, n, y);
    }
    forall x: nat | x in fs.live && 0 < x < |fs.inodes| ensures FsSteps.Mapped(fs, x) { MkfsExtent(fs, a, n, x); }
    forall i: nat | i in fs.used && i != 0 ensures FsSteps.Owned(fs, i) { MkfsOwned(fs, a, n, i); }
  }

  lemma MkfsExtent(fs: Fs, a: nat, n: nat, x: nat)
    requires |fs.inodes| >= 6 && 0 < x <= 5 && MkfsExtents(fs, a, n)
    ensures forall i: nat :: i in FsSteps.Extent(fs.inodes[x], fs.firstData) <==>
                               (x == 1 && 1 <= i < 1 + fs.fileSects) || (x == 5 && a <= i < a + n)
  {
  }

  lemma MkfsOwned(fs: Fs, a: nat, n: nat, i: nat)
    requires |fs.inodes| >= 6 && MkfsExtents(fs, a, n) && fs.live == {0, 1, 2, 3, 4, 5}
    requires i != 0 && i in FsSteps.Range(0, fs.fileSects + 1) + FsSteps.Range(a, n)
    ensures FsSteps.Owned(fs, i)
  {
    var nr: nat := if i <= fs.fileSects then 1 else 5;
    assert nr in fs.live && i in FsSteps.Extent(fs.inodes[nr], fs.firstData);
  }

  /** The five names of a new file system, told apart by their first or eighth character. */
  lemma MkfsFields()
    ensures var a, b, c, d, e := D.Pad("."), D.Pad("dev_tty0"), D.Pad("dev_tty1"), D.Pad("dev_tty2"), D.Pad("cmd.tar");
            a[0] == '.' && b[0] == c[0] == d[0] == 'd' && e[0] == 'c' && b[7] == '0' && c[7] == '1' && d[7] == '2'
  {
  }

  lemma MkfsNames()
    ensures var es := MkfsEntries();
            && (forall i :: 0 <= i < |es| ==> D.EntryOk(es[i]) && es[i].ino == if i < 5 then i + 1 else 0)
            && (forall i, j {:trigger D.Distinct(es, i, j)} :: 0 <= i < |es| && 0 <= j < |es| && i != j ==>
                  D.Distinct(es, i, j))
  {
    MkfsFields();
    var es := MkfsEntries();
    assert forall i :: 5 <= i < |es| ==> es[i] == D.ZERO;
    forall i, j | 0 <= i < |es| && 0 <= j < |es| && i != j ensures D.Distinct(es, i, j) {
      if i < 5 && j < 5 { MkfsDiffer(i, j); }
    }
  }

  lemma MkfsDiffer(i: nat, j: nat)
    requires i < 5 && j < 5 && i != j
    ensures D.Distinct(MkfsEntries(), i, j)
  {
    MkfsFields();
  }

  /** The new directory is well formed exactly when the root's other sectors are zero. */
  lemma MkfsListed(rest: seq<D.Entry>)
    requires |rest| % D.PER_SECTOR == 0
    ensures FsSteps.Listed(MkfsEntries() + rest, 5 * D.DIR_ENTRY_SIZE, {0, 1, 2, 3, 4, 5}) <==>
            forall i :: 0 <= i < |rest| ==> rest[i] == D.ZERO
  {
    MkfsNames();
    ListedFirst(MkfsEntries(), rest);
  }

  lemma ListedFirst(first: seq<D.Entry>, rest: seq<D.Entry>)
    requires |first| == D.PER_SECTOR && |rest| % D.PER_SECTOR == 0
    requires forall i :: 0 <= i < |first| ==> D.EntryOk(first[i]) && first[i].ino == if i < 5 then i + 1 else 0
    requires forall i, j {:trigger D.Distinct(first, i, j)} ::
               0 <= i < |first| && 0 <= j < |first| && i != j ==> D.Distinct(first, i, j)
    ensures FsSteps.Listed(first + rest, 5 * D.DIR_ENTRY_SIZE, {0, 1, 2, 3, 4, 5}) <==>
            forall i :: 0 <= i < |rest| ==> rest[i] == D.ZERO
  {
    var es := first + rest;
    if forall i :: 0 <= i < |rest| ==> rest[i] == D.ZERO {
      forall i | 0 <= i < |es| ensures D.EntryOk(es[i]) && (i >= 5 ==> es[i] == D.ZERO) {
        if i < |first| { assert es[i] == first[i]; }
      }
      forall i, j | 0 <= i < |es| && 0 <= j < |es| && i != j ensures D.Distinct(es, i, j) {
        if i < |first| && j < |first| { assert D.Distinct(first, i, j); }
      }
      MkfsInos(es);
    } else {
      var i :| 0 <= i < |rest| && rest[i] != D.ZERO;
      assert es[|first| + i] == rest[i];
    }
  }

  lemma MkfsInos(es: seq<D.Entry>)
    requires |es| >= 5 && forall i :: 0 <= i < |es| ==> es[i].ino == if i < 5 then i + 1 else 0
    ensures {0, 1, 2, 3, 4, 5} == {0} + D.Inos(es)
  {
    assert es[0] in es && es[1] in es && es[2] in es && es[3] in es && es[4] in es;
    forall e | e in es ensures e.ino in {0, 1, 2, 3, 4, 5} {
      var i :| 0 <= i < |es| && es[i] == e;
    }
  }

  /** The file system made by mkfs satisfies the whole invariant if and only if the root's sectors
      behind the first were zero before: mkfs does not clear them. */
  lemma MkfsOk(g: Geometry, rest: seq<D.Entry>, procs: set<nat>)
    requires g.Fits() && |rest| % D.PER_SECTOR == 0
    ensures FsSteps.FsOk(Mkfs(g, rest, procs)) <==> forall i :: 0 <= i < |rest| ==> rest[i] == D.ZERO
  {
    MkfsCore(g, rest, procs);
    MkfsListed(rest);
    assert FsSteps.DirBytes(Mkfs(g, rest, procs)) == 5 * D.DIR_ENTRY_SIZE;
  }

  /** For cache, counts and maps it is enough that no entry there was in use. */
  lemma MkfsSafe(g: Geometry, rest: seq<D.Entry>, procs: set<nat>)
    requires g.Fits() && |rest| % D.PER_SECTOR == 0
    ensures FsSteps.SafeOk(Mkfs(g, rest, procs)) <==> forall i :: 0 <= i < |rest| ==> rest[i].ino == 0
  {
    MkfsCore(g, rest, procs);
    MkfsNames();
    MkfsNamesSafe(MkfsEntries(), rest);
    assert FsSteps.DirBytes(Mkfs(g, rest, procs)) == 5 * D.DIR_ENTRY_SIZE;
  }

  lemma MkfsNamesSafe(first: seq<D.Entry>, rest: seq<D.Entry>)
    requires |first| == D.PER_SECTOR && forall i :: 0 <= i < |first| ==> first[i].ino == if i < 5 then i + 1 else 0
    ensures FsSteps.NamesSafe(first + rest, {0, 1, 2, 3, 4, 5}) <==> forall i :: 0 <= i < |rest| ==> rest[i].ino == 0
  {
    var es, live := first + rest, {0, 1, 2, 3, 4, 5};
    if i :| 0 <= i < |rest| && rest[i].ino != 0 {
      var k := |first| + i;
      assert es[k].ino == rest[i].ino;
      if es[k].ino <= 5 {
        assert !FsSteps.NamesApart(es, k, es[k].ino - 1);
      } else {
        assert !FsSteps.NamesLive(es, live, k);
      }
    } else {
      forall i | 0 <= i < |es| ensures es[i].ino == (if i < 5 then i + 1 else 0) && FsSteps.NamesLive(es, live, i) {}
    }
  }

  lemma MkfsCore(g: Geometry, rest: seq<D.Entry>, procs: set<nat>)
    requires g.Fits()
    ensures FsSteps.CoreOk(Mkfs(g, rest, procs))
  {
    var fs := Mkfs(g, rest, procs);
    MkfsTables(fs);
    MkfsNumbers(fs);
    MkfsPlaces(g, rest, procs);
    MkfsSectors(fs, g.installStart + 1 - g.firstData, g.installSects);
  }

  lemma MkfsPlaces(g: Geometry, rest: seq<D.Entry>, procs: set<nat>)
    requires g.Fits()
    ensures MkfsExtents(Mkfs(g, rest, procs), g.installStart + 1 - g.firstData, g.installSects)
  {
  }

  // ---- runs and the disk ----

  /** The sector map is the same; anything else on disk may differ. */
  predicate SameMap(d: seq<byte>, d': seq<byte>, lay: SM.Layout) {
    |d'| == |d| && lay.End() <= |d| && forall y: nat :: lay.Start() <= y < lay.End() ==> d'[y] == d[y]
  }

  lemma SameMapUsed(d: seq<byte>, d': seq<byte>, lay: SM.Layout)
    requires SameMap(d, d', lay)
    ensures Used(d', lay) == Used(d, lay)
  {
    forall i: nat | i < lay.NumBits() ensures SM.MapBit(d', lay, i) == SM.MapBit(d, lay, i) { BitPlace(lay, i); }
  }

  /** The inode map comes before the sector map, the inode array and the data area behind it. */
  predicate InOrder(lay: SM.Layout) {
    SM.INODE_MAP.End() <= lay.Start() && lay.mapSect + lay.mapSects <= lay.firstData
  }

  /** Writing one of the maps leaves the other alone. */
  lemma MapsApart(d: seq<byte>, d': seq<byte>, lay: SM.Layout, other: SM.Layout, a: int, e: int, v: bool)
    requires SM.RangeSet(d, d', lay, a, e, v) && other.End() <= |d|
    requires lay.End() <= other.Start() || other.End() <= lay.Start()
    ensures |d'| == |d| && Used(d', other) == Used(d, other)
  {
    SameMapUsed(d, d', other);
  }

  lemma LowBitsApart(d: seq<byte>, d': seq<byte>, lay: SM.Layout, other: SM.Layout, e: nat)
    requires SM.LowBitsOnly(d, d', lay, lay.mapSects * SECTOR_SIZE, e) && other.End() <= |d|
    requires lay.End() <= other.Start() || other.End() <= lay.Start()
    ensures |d'| == |d| && Used(d', other) == Used(d, other)
  {
    SameMapUsed(d, d', other);
  }

  /** Bit `nr` of the inode map gets the value `v`. */
  ghost predicate NumberSet(d: seq<byte>, d': seq<byte>, nr: nat, v: bool) {
    SM.RangeSet(d, d', SM.INODE_MAP, nr, nr + 1, v)
  }

  lemma NumberSetUsed(d: seq<byte>, d': seq<byte>, lay: SM.Layout, nr: nat, v: bool)
    requires InOrder(lay) && lay.End() <= |d| && nr < SM.INODE_MAP.NumBits() && NumberSet(d, d', nr, v)
    ensures |d'| == |d| && Used(d', lay) == Used(d, lay)
    ensures Used(d', SM.INODE_MAP) == if v then Used(d, SM.INODE_MAP) + {nr} else Used(d, SM.INODE_MAP) - {nr}
  {
    MapsApart(d, d', SM.INODE_MAP, lay, nr, nr + 1, v);
    RangeSetUsed(d, d', SM.INODE_MAP, nr, 1, v);
    assert FsSteps.Range(nr, 1) == {nr};
  }

  /** The sectors that a call writes besides those of the two maps: the inode array, and sectors from
      the start of a live file on. */
  ghost predicate WrittenSector(lay: SM.Layout, fs: Fs, sect: nat) {
    || (exists nr: nat :: nr > 0 && sect == InodeSector(lay, nr))
    || (exists nr: nat :: nr in fs.live && 0 < nr < |fs.inodes| && StartsBy(fs.inodes[nr], sect))
  }

  /** Where get_file_inode and write_inode find inode `nr`. */
  function InodeSector(lay: SM.Layout, nr: nat): nat
    requires nr > 0
  {
    lay.mapSect + lay.mapSects + (nr - 1) / INODES_PER_SECTOR
  }

  predicate StartsBy(node: DiskInode, sect: nat) {
    (node.kind == Regular || node.kind == Directory) && node.start <= sect
  }

  ghost predicate OnlySectors(d: seq<byte>, d': seq<byte>, lay: SM.Layout, fs: Fs) {
    |d'| == |d| && forall y: nat :: y < |d| && d'[y] != d[y] ==> WrittenSector(lay, fs, y / SECTOR_SIZE)
  }

  /** Such writes miss both maps. */
  lemma WritesMissMap(d: seq<byte>, d': seq<byte>, lay: SM.Layout, bits: SM.Layout, fs: Fs)
    requires FsSteps.SectorsOk(fs) && OnlySectors(d, d', lay, fs) && lay.End() <= |d|
    requires InOrder(lay) && lay.firstData == fs.firstData && (bits == lay || bits == SM.INODE_MAP)
    ensures SameMap(d, d', bits)
  {
    forall y: nat | bits.Start() <= y < bits.End() ensures d'[y] == d[y] {
      assert y / SECTOR_SIZE < lay.mapSect + lay.mapSects;
      forall nr: nat | nr in fs.live && 0 < nr < |fs.inodes| ensures !StartsBy(fs.inodes[nr], y / SECTOR_SIZE) {
        assert FsSteps.Mapped(fs, nr);
      }
      assert !WrittenSector(lay, fs, y / SECTOR_SIZE);
    }
  }

  /** The data part of a read or write through slot `i`: do_read_write_regular moves bytes at or
      behind the start of the file; a terminal has no data on disk. */
  ghost predicate DataMoved(d: seq<byte>, m: seq<byte>, fs: Fs, i: nat) {
    && i < |fs.slots| && 0 <= fs.slots[i] < |fs.descs| && fs.descs[fs.slots[i]].inode.Some?
    && var c := fs.descs[fs.slots[i]].inode.value;
       c < |fs.cache| &&
       if fs.cache[c].node.kind == CharSpecial then m == d
       else exists write: bool, base: nat, buf: seq<byte>, out: seq<byte>, done: nat ::
              RW.Moved(write, d, m, base, buf, out, done) && base >= fs.cache[c].node.start * SECTOR_SIZE
  }

  /** A transfer writes only sectors of its file, or behind it. */
  lemma TransferMissesMap(d: seq<byte>, m: seq<byte>, lay: SM.Layout, fs: Fs, i: nat)
    requires FsSteps.StateOk(fs) && DataMoved(d, m, fs, i) && fs.slots[i] != -1
    requires InOrder(lay) && lay.firstData == fs.firstData && lay.End() <= |d|
    ensures SameMap(d, m, lay) && SameMap(d, m, SM.INODE_MAP)
  {
    SlotIsCounted(fs.cache, fs.descs, fs.slots, fs.held, i);
    var c := fs.descs[fs.slots[i]].inode.value;
    var nr := fs.cache[c].nr;
    assert SlotOk(fs.cache, fs.inodes, c) && FsSteps.CachedLive(fs, c);
    assert FsSteps.KindOk(fs, nr) && FsSteps.Mapped(fs, nr);
    if fs.cache[c].node.kind != CharSpecial {
      var write: bool, base: nat, buf: seq<byte>, out: seq<byte>, done: nat :|
        RW.Moved(write, d, m, base, buf, out, done) && base >= fs.cache[c].node.start * SECTOR_SIZE;
      assert lay.End() <= base;
    }
  }

  /** A create takes the first clear bit of the inode map and then `n` bits of the sector map, as
      alloc_inode_map_bit and alloc_sect_map_bit do. */
  ghost predicate BitsTaken(d: seq<byte>, m: seq<byte>, lay: SM.Layout, n: nat) {
    exists x: seq<byte>, nr: nat, b: nat ::
      && SM.FirstClear(d, SM.INODE_MAP, nr) && NumberSet(d, x, nr, true)
      && SM.FirstClear(x, lay, b) && SM.RangeSet(x, m, lay, b, b + n, true)
  }

  /** A removal clears the bit of the number and the bits of the extent, as clear_inode_map_bit and
      clear_sector_map_bits do. */
  ghost predicate BitsReleased(d: seq<byte>, m: seq<byte>, lay: SM.Layout, nr: nat, node: DiskInode) {
    var a := node.start + 1 - lay.firstData;
    exists x: seq<byte> :: NumberSet(d, x, nr, false) && SM.RangeSet(x, m, lay, a, a + node.nsects, false)
  }

  /** What a call does to the disk. First, to the image `m`: a create takes its bits, a removal
      releases them, a read or write moves its data. Then the other sectors are written. */
  ghost predicate DiskStep(d: seq<byte>, m: seq<byte>, d': seq<byte>, lay: SM.Layout, fs: Fs, step: FsSteps.Step)
    requires FsSteps.Readable(fs)
  {
    && OnlySectors(m, d', lay, fs)
    && if Creates(fs, step) then BitsTaken(d, m, lay, fs.fileSects)
       else if Removes(fs, step) then
         var nr := FsSteps.Lookup(fs, step.path).value; BitsReleased(d, m, lay, nr, fs.inodes[nr])
       else if step.TransferStep? then DataMoved(d, m, fs, FsSteps.RowAt(step.p, fs.nfiles) + step.fd)
       else m == d
  }

  /** The call creates a file. */
  predicate Creates(fs: Fs, step: FsSteps.Step)
    requires FsSteps.Readable(fs)
  {
    && step.OpenStep? && FsSteps.Lookup(fs, step.path).None?
    && !FsSteps.Refused(fs, step.path, step.creat, step.rdwr, step.trunc)
  }

  /** The call removes a file. */
  predicate Removes(fs: Fs, step: FsSteps.Step)
    requires FsSteps.Readable(fs)
  {
    && step.UnlinkStep? && step.path != "/" && !FsCalls.LeakingUnlink(fs, step.path)
    && match FsSteps.Lookup(fs, step.path) case None => false case Some(nr) => 0 < nr < |fs.inodes|
  }

  /** The first free number and the first run of free bits are taken. */
  predicate Taken(fs: Fs, fs': Fs) {
    && FsSteps.Allocate(fs).Ok?
    && var (nr, b) := FsSteps.Allocate(fs).value;
       fs'.live == fs.live + {nr} && fs'.used == fs.used + FsSteps.Range(b, fs.fileSects)
  }

  /** The number `nr` and the bits of its extent are free again. */
  predicate Released(fs: Fs, fs': Fs, nr: nat) {
    && nr < |fs.inodes| && fs'.live == fs.live - {nr}
    && fs'.used == fs.used - FsSteps.Extent(fs.inodes[nr], fs.firstData)
  }

  predicate SameGeometry(fs: Fs, fs': Fs) {
    fs'.firstData == fs.firstData && fs'.nbits == fs.nbits && fs'.fileSects == fs.fileSects
  }

  /** How a call changes the used bits and the live numbers: exactly by a create or a removal. */
  lemma UsedAfter(fs: Fs, step: FsSteps.Step)
    requires FsSteps.SafeOk(fs) && FsSteps.Enabled(fs, step) && FsSteps.Exec(fs, step).Ok?
    ensures var fs' := FsSteps.Exec(fs, step).value.0;
            && SameGeometry(fs, fs')
            && if Creates(fs, step) then Taken(fs, fs')
               else if Removes(fs, step) then Released(fs, fs', FsSteps.Lookup(fs, step.path).value)
               else fs'.used == fs.used && fs'.live == fs.live
  {
    match step
    case OpenStep(p, path, creat, rdwr, trunc) =>
      if !FsSteps.Refused(fs, path, creat, rdwr, trunc) {
        var i := FsCalls.OpenShape(fs, p, path, creat, rdwr, trunc);
        UsedAfterOpen(fs, i, path, trunc);
      }
    case UnlinkStep(path) => UsedAfterUnlink(fs, path);
    case ForkStep(parent, child) =>
      assert FsSteps.RowFree(fs, child);
      FsCalls.ForkShares(fs, parent, child);
    case ExitStep(p) => FsCalls.ExitDropsAll(fs, FsSteps.RowAt(p, fs.nfiles), FsSteps.RowAt(p, fs.nfiles) + fs.nfiles);
    case _ =>
  }

  lemma UsedAfterOpen(fs: Fs, i: nat, path: seq<char>, trunc: bool)
    requires FsSteps.Readable(fs) && i < |fs.slots| && FsSteps.OpenAt(fs, i, path, trunc).Ok?
    ensures var fs' := FsSteps.OpenAt(fs, i, path, trunc).value;
            && SameGeometry(fs, fs')
            && if FsSteps.Lookup(fs, path).None? then Taken(fs, fs') else fs'.used == fs.used && fs'.live == fs.live
  {
    var (fs1, c) := FsSteps.OpenTarget(fs, path).value;
    var fs2 := FsSteps.FinishOpen(fs1, i, c, trunc).value;
    assert fs2.used == fs1.used && fs2.live == fs1.live && SameGeometry(fs1, fs2);
  }

  lemma UsedAfterUnlink(fs: Fs, path: seq<char>)
    requires FsSteps.SafeOk(fs) && FsSteps.IsPath(path) && FsSteps.Unlink(fs, path).Ok?
    ensures var fs' := FsSteps.Unlink(fs, path).value.0;
            && SameGeometry(fs, fs')
            && if Removes(fs, FsSteps.UnlinkStep(path)) then Released(fs, fs', FsSteps.Lookup(fs, path).value)
               else fs'.used == fs.used && fs'.live == fs.live
  {
    var nr := FsSteps.Lookup(fs, path);
    if path != "/" && nr.Some? {
      FsFrames.LookupLive(fs, path);
      GetInodeAgrees(fs.cache, fs.inodes, nr.value);
    }
  }

  /** The extent of a regular live file lies in the data area and its bits in the map. */
  lemma LiveExtent(fs: Fs, nr: nat)
    requires FsSteps.SectorsOk(fs) && nr in fs.live && 0 < nr < |fs.inodes| && fs.inodes[nr].kind == Regular
    ensures var node := fs.inodes[nr]; var a := node.start + 1 - fs.firstData;
            && node.start >= fs.firstData
            && FsSteps.Extent(node, fs.firstData) == FsSteps.Range(a, node.nsects) <= fs.used
            && (node.nsects > 0 ==> a + node.nsects <= fs.nbits)
  {
    assert FsSteps.Mapped(fs, nr);
    var node := fs.inodes[nr];
    if node.nsects > 0 {
      var last := node.start + 1 - fs.firstData + node.nsects - 1;
      assert last in FsSteps.Extent(node, fs.firstData);
      assert last in fs.used;
    }
  }

  lemma ClearedUsed(d: seq<byte>, m: seq<byte>, lay: SM.Layout, a: nat, n: nat)
    requires lay.End() <= |d| && (n > 0 ==> a + n <= lay.NumBits()) && SM.RangeSet(d, m, lay, a, a + n, false)
    ensures Used(m, lay) == Used(d, lay) - FsSteps.Range(a, n)
  {
    if n == 0 {
      RangeSetUsed(d, m, lay, 0, 0, false);
    } else {
      RangeSetUsed(d, m, lay, a, n, false);
    }
  }

  /** Where the model creates or removes a file, the allocator and the clearing loop on disk
      succeed. */
  lemma DiskReady(d: seq<byte>, lay: SM.Layout, fs: Fs, step: FsSteps.Step)
    requires FsSteps.SafeOk(fs) && FsSteps.Enabled(fs, step) && FsSteps.Exec(fs, step).Ok?
    requires Mirrors(d, lay, fs)
    ensures Creates(fs, step) ==> SM.CanAlloc(d, SM.INODE_MAP, 1) && SM.CanAlloc(d, lay, fs.fileSects)
    ensures Removes(fs, step) ==>
              var nr := FsSteps.Lookup(fs, step.path).value;
              nr < SM.INODE_MAP.NumBits() && SM.MapBit(d, SM.INODE_MAP, nr)
    ensures Removes(fs, step) ==>
              var node := fs.inodes[FsSteps.Lookup(fs, step.path).value]; var a := node.start + 1 - lay.firstData;
              node.nsects > 0 ==> a >= 0 && SM.RangeIs(d, lay, a, a + node.nsects, true)
  {
    if Creates(fs, step) {
      UsedAfter(fs, step);
      AllocRefines(d, lay, fs.fileSects);
      var nr := FsSteps.Allocate(fs).value.0;
      FirstClearUsed(d, SM.INODE_MAP, nr);
      SM.FirstIsClear(d, SM.INODE_MAP, nr);
    } else if Removes(fs, step) {
      FsFrames.LookupLive(fs, step.path);
      var nr := FsSteps.Lookup(fs, step.path).value;
      LiveExtent(fs, nr);
      if fs.inodes[nr].nsects > 0 {
        RangeIsUsed(d, lay, fs.inodes[nr].start + 1 - lay.firstData, fs.inodes[nr].nsects);
      }
    }
  }

  /** The sector map on disk is the used set, the inode map on disk the set of live numbers, and the
      disk is laid out as the file system expects. */
  ghost predicate Mirrors(d: seq<byte>, lay: SM.Layout, fs: Fs) {
    && InOrder(lay) && lay.End() <= |d| && lay.firstData == fs.firstData && lay.NumBits() == fs.nbits
    && Used(d, lay) == fs.used && Used(d, SM.INODE_MAP) == fs.live
  }

  lemma BitsTakenUsed(d: seq<byte>, m: seq<byte>, lay: SM.Layout, n: nat) returns (nr: nat, b: nat)
    requires InOrder(lay) && lay.End() <= |d| && BitsTaken(d, m, lay, n)
    ensures FsSteps.FirstClear(Used(d, SM.INODE_MAP), 0, SM.INODE_MAP.NumBits()) == Some(nr) && |m| == |d|
    ensures FsSteps.FirstClear(Used(d, lay), 0, lay.NumBits()) == Some(b)
    ensures Used(m, SM.INODE_MAP) == Used(d, SM.INODE_MAP) + {nr}
    ensures b + n <= lay.NumBits() ==> Used(m, lay) == Used(d, lay) + FsSteps.Range(b, n)
  {
    var x: seq<byte>;
    x, nr, b :|
      && SM.FirstClear(d, SM.INODE_MAP, nr) && NumberSet(d, x, nr, true)
      && SM.FirstClear(x, lay, b) && SM.RangeSet(x, m, lay, b, b + n, true);
    NumberSetUsed(d, x, lay, nr, true);
    FirstClearUsed(d, SM.INODE_MAP, nr);
    FirstClearUsed(x, lay, b);
    MapsApart(x, m, lay, SM.INODE_MAP, b, b + n, true);
    if b + n <= lay.NumBits() { RangeSetUsed(x, m, lay, b, n, true); }
  }

  lemma CreateFollows(d: seq<byte>, m: seq<byte>, lay: SM.Layout, fs: Fs, fs': Fs)
    requires Mirrors(d, lay, fs) && BitsTaken(d, m, lay, fs.fileSects) && Taken(fs, fs')
    ensures |m| == |d| && Used(m, lay) == fs'.used && Used(m, SM.INODE_MAP) == fs'.live
  {
    var nr, b := BitsTakenUsed(d, m, lay, fs.fileSects);
  }

  lemma BitsReleasedUsed(d: seq<byte>, m: seq<byte>, lay: SM.Layout, nr: nat, node: DiskInode)
    requires InOrder(lay) && lay.End() <= |d| && nr < SM.INODE_MAP.NumBits() && BitsReleased(d, m, lay, nr, node)
    requires node.start + 1 >= lay.firstData
    requires node.nsects > 0 ==> node.start + 1 - lay.firstData + node.nsects <= lay.NumBits()
    ensures |m| == |d| && Used(m, SM.INODE_MAP) == Used(d, SM.INODE_MAP) - {nr}
    ensures Used(m, lay) == Used(d, lay) - FsSteps.Range(node.start + 1 - lay.firstData, node.nsects)
  {
    var a, n := node.start + 1 - lay.firstData, node.nsects;
    var x: seq<byte> :| NumberSet(d, x, nr, false) && SM.RangeSet(x, m, lay, a, a + n, false);
    NumberSetUsed(d, x, lay, nr, false);
    MapsApart(x, m, lay, SM.INODE_MAP, a, a + n, false);
    ClearedUsed(x, m, lay, a, n);
  }

  lemma RemovalFollows(d: seq<byte>, m: seq<byte>, lay: SM.Layout, fs: Fs, fs': Fs, nr: nat)
    requires FsSteps.SectorsOk(fs) && Mirrors(d, lay, fs)
    requires nr in fs.live && 0 < nr < |fs.inodes| && fs.inodes[nr].kind == Regular
    requires BitsReleased(d, m, lay, nr, fs.inodes[nr]) && Released(fs, fs', nr)
    ensures |m| == |d| && Used(m, lay) == fs'.used && Used(m, SM.INODE_MAP) == fs'.live
  {
    LiveExtent(fs, nr);
    assert nr in Used(d, SM.INODE_MAP);
    BitsReleasedUsed(d, m, lay, nr, fs.inodes[nr]);
  }

  /** The bitmap code of a call, or its data transfer, makes the bits on disk the new used set. */
  lemma BitsFollow(d: seq<byte>, m: seq<byte>, d': seq<byte>, lay: SM.Layout, fs: Fs, step: FsSteps.Step)
    requires FsSteps.SafeOk(fs) && FsSteps.Enabled(fs, step) && FsSteps.Exec(fs, step).Ok?
    requires Mirrors(d, lay, fs) && DiskStep(d, m, d', lay, fs, step)
    ensures var fs' := FsSteps.Exec(fs, step).value.0;
            |m| == |d| && Used(m, lay) == fs'.used && Used(m, SM.INODE_MAP) == fs'.live
  {
    UsedAfter(fs, step);
    var fs' := FsSteps.Exec(fs, step).value.0;
    if Creates(fs, step) {
      CreateFollows(d, m, lay, fs, fs');
    } else if Removes(fs, step) {
      FsFrames.LookupLive(fs, step.path);
      RemovalFollows(d, m, lay, fs, fs', FsSteps.Lookup(fs, step.path).value);
    } else if step.TransferStep? {
      TransferMissesMap(d, m, lay, fs, FsSteps.RowAt(step.p, fs.nfiles) + step.fd);
      SameMapUsed(d, m, lay);
      SameMapUsed(d, m, SM.INODE_MAP);
    }
  }

  /** One call keeps the bits of both maps on disk equal to the used set and the live numbers. */
  lemma DiskFollows(d: seq<byte>, m: seq<byte>, d': seq<byte>, lay: SM.Layout, fs: Fs, step: FsSteps.Step)
    requires FsSteps.SafeOk(fs) && FsSteps.Enabled(fs, step) && FsSteps.Exec(fs, step).Ok?
    requires Mirrors(d, lay, fs) && DiskStep(d, m, d', lay, fs, step)
    ensures Mirrors(d', lay, FsSteps.Exec(fs, step).value.0)
  {
    UsedAfter(fs, step);
    BitsFollow(d, m, d', lay, fs, step);
    WritesMissMap(m, d', lay, lay, fs);
    WritesMissMap(m, d', lay, SM.INODE_MAP, fs);
    SameMapUsed(m, d', lay);
    SameMapUsed(m, d', SM.INODE_MAP);
  }

  ghost predicate DiskRunStep(states: seq<Fs>, steps: seq<FsSteps.Step>, disks: seq<seq<byte>>, mids: seq<seq<byte>>,
                              lay: SM.Layout, j: nat) {
    && FsRuns.RunStep(states, steps, j) && j + 1 < |disks| && j < |mids|
    && DiskStep(disks[j], mids[j], disks[j + 1], lay, states[j], steps[j])
  }

  /** A run of the file system with the disk images between its calls; `mids[j]` is the image
      right after the bitmap code or the data transfer of call `j`. */
  ghost predicate DiskRun(states: seq<Fs>, steps: seq<FsSteps.Step>, disks: seq<seq<byte>>, mids: seq<seq<byte>>,
                          lay: SM.Layout) {
    && |states| == |steps| + 1 == |disks| == |mids| + 1
    && forall j :: 0 <= j < |steps| ==> DiskRunStep(states, steps, disks, mids, lay, j)
  }

  /** mkfs writes the inode map, from `d0` to `d1`, and then the sector map in two passes, by way of
      `d2` to `d`. */
  ghost predicate MapsMade(d0: seq<byte>, d1: seq<byte>, d2: seq<byte>, d: seq<byte>, lay: SM.Layout, g: Geometry)
    requires g.Fits()
  {
    var a := g.installStart + 1 - g.firstData;
    && InOrder(lay) && lay.End() <= |d0| && lay.firstData == g.firstData && lay.NumBits() == g.nbits
    && SM.LowBitsOnly(d0, d1, SM.INODE_MAP, SECTOR_SIZE, 6)
    && SM.LowBitsOnly(d1, d2, lay, lay.mapSects * SECTOR_SIZE, g.fileSects + 1)
    && SM.RangeSet(d2, d, lay, a, a + g.installSects, true)
  }

  lemma MkfsNumbersMade(d0: seq<byte>, d1: seq<byte>, d2: seq<byte>, d: seq<byte>, lay: SM.Layout, g: Geometry)
    requires g.Fits() && MapsMade(d0, d1, d2, d, lay, g)
    ensures |d1| == |d| && Used(d, SM.INODE_MAP) == {0, 1, 2, 3, 4, 5}
  {
    LowBitsUsed(d0, d1, SM.INODE_MAP, 6);
    LowBitsApart(d1, d2, lay, SM.INODE_MAP, g.fileSects + 1);
    var a := g.installStart + 1 - g.firstData;
    MapsApart(d2, d, lay, SM.INODE_MAP, a, a + g.installSects, true);
    assert FsSteps.Range(0, 6) == {0, 1, 2, 3, 4, 5};
  }

  lemma MkfsSectorsMade(d0: seq<byte>, d1: seq<byte>, d2: seq<byte>, d: seq<byte>, lay: SM.Layout, g: Geometry)
    requires g.Fits() && MapsMade(d0, d1, d2, d, lay, g)
    ensures |d0| == |d|
    ensures Used(d, lay) ==
            FsSteps.Range(0, g.fileSects + 1) + FsSteps.Range(g.installStart + 1 - g.firstData, g.installSects)
  {
    MkfsBits(d1, d2, d, lay, g.fileSects, g.installStart + 1 - g.firstData, g.installSects);
  }

  lemma MkfsMirrors(d0: seq<byte>, d1: seq<byte>, d2: seq<byte>, d: seq<byte>, lay: SM.Layout, g: Geometry,
                    rest: seq<D.Entry>, procs: set<nat>)
    requires g.Fits() && MapsMade(d0, d1, d2, d, lay, g)
    ensures Mirrors(d, lay, Mkfs(g, rest, procs))
  {
    MkfsNumbersMade(d0, d1, d2, d, lay, g);
    MkfsSectorsMade(d0, d1, d2, d, lay, g);
  }

  /** Every run that starts with the maps on disk equal to the used set and the live numbers keeps
      them so. */
  lemma {:induction false} RunMirrors(
    states: seq<Fs>, steps: seq<FsSteps.Step>, disks: seq<seq<byte>>, mids: seq<seq<byte>>, lay: SM.Layout, i: nat)
    requires DiskRun(states, steps, disks, mids, lay) && i < |states|
    requires FsRuns.IsRun(states, steps) && Mirrors(disks[0], lay, states[0])
    ensures Mirrors(disks[i], lay, states[i])
  {
    if i > 0 {
      RunMirrors(states, steps, disks, mids, lay, i - 1);
      RunStepMirrors(states, steps, disks, mids, lay, i - 1);
    }
  }

  lemma RunStepMirrors(
    states: seq<Fs>, steps: seq<FsSteps.Step>, disks: seq<seq<byte>>, mids: seq<seq<byte>>, lay: SM.Layout, j: nat)
    requires FsRuns.IsRun(states, steps) && DiskRun(states, steps, disks, mids, lay) && j < |steps|
    requires Mirrors(disks[j], lay, states[j])
    ensures Mirrors(disks[j + 1], lay, states[j + 1])
  {
    FsRuns.RunSafe(states, steps, j);
    assert DiskRunStep(states, steps, disks, mids, lay, j);
    DiskFollows(disks[j], mids[j], disks[j + 1], lay, states[j], steps[j]);
  }

  /** From mkfs on, through every run of calls that trip no assertion and are not wild: cache, counts
      and maps are right in every state; the set bits of the sector map on disk are the used set, that
      is, exactly bit 0 and the disjoint extents of the live files, and those of the inode map the
      live numbers; the references held are the root's own and those that refused unlinks left
      behind. */
  lemma RunFromMkfs(
    states: seq<Fs>, steps: seq<FsSteps.Step>, disks: seq<seq<byte>>, mids: seq<seq<byte>>, lay: SM.Layout,
    d0: seq<byte>, d1: seq<byte>, d2: seq<byte>, g: Geometry, rest: seq<D.Entry>, procs: set<nat>, i: nat)
    requires g.Fits() && |rest| % D.PER_SECTOR == 0 && forall j :: 0 <= j < |rest| ==> rest[j].ino == 0
    requires DiskRun(states, steps, disks, mids, lay) && i < |states|
    requires states[0] == Mkfs(g, rest, procs) && MapsMade(d0, d1, d2, disks[0], lay, g)
    ensures FsSteps.SafeOk(states[i]) && Mirrors(disks[i], lay, states[i])
    ensures states[i].held == multiset{0} + FsRuns.LeakedBy(states, steps, i)
  {
    MkfsSafe(g, rest, procs);
    MkfsMirrors(d0, d1, d2, disks[0], lay, g, rest, procs);
    DiskRunIsRun(states, steps, disks, mids, lay);
    FsRuns.RunSafe(states, steps, i);
    FsRuns.RunHeld(states, steps, i);
    RunMirrors(states, steps, disks, mids, lay, i);
  }

  /** From mkfs on, the directory names exactly the live files in every state if and only if no call
      has damaged it. */
  lemma NamesFromMkfs(states: seq<Fs>, steps: seq<FsSteps.Step>, g: Geometry, rest: seq<D.Entry>, procs: set<nat>,
                      i: nat)
    requires g.Fits() && |rest| % D.PER_SECTOR == 0 && forall j :: 0 <= j < |rest| ==> rest[j] == D.ZERO
    requires FsRuns.IsRun(states, steps) && i <= |steps| && states[0] == Mkfs(g, rest, procs)
    ensures (forall j :: 0 <= j <= i ==> FsRuns.Orderly(states, j)) <==>
            (forall j :: 0 <= j < i ==> !FsRuns.Damaged(states, steps, j))
  {
    MkfsOk(g, rest, procs);
    FsRuns.RunNames(states, steps, i);
  }

  lemma DiskRunIsRun(
    states: seq<Fs>, steps: seq<FsSteps.Step>, disks: seq<seq<byte>>, mids: seq<seq<byte>>, lay: SM.Layout)
    requires DiskRun(states, steps, disks, mids, lay) && FsSteps.SafeOk(states[0])
    ensures FsRuns.IsRun(states, steps)
  {
    forall j | 0 <= j < |steps| ensures FsRuns.RunStep(states, steps, j) {
      assert DiskRunStep(states, steps, disks, mids, lay, j);
    }
  }
}
