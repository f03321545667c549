/** Each file system call on tables in order and a safe directory: it keeps cache, counts and maps,
    and it is said exactly when it keeps the directory safe. */
module FsCalls {
  import opened Common
  import opened FsModel
  import opened FsSteps
  import opened FsFrames
  import D = DirectoryModel

  // ---- creating ----

  lemma NewNumberNotCached(fs: Fs, nr: nat)
    requires InodesOk(fs) && nr !in fs.live && 0 < nr < |fs.inodes|
    ensures FindCached(fs.cache, nr, 0).None?
  {
    forall c | 0 <= c < |fs.cache| ensures !(fs.cache[c].cnt > 0 && fs.cache[c].nr == nr) { assert CachedLive(fs, c); }
  }

  lemma CreateSectors(fs: Fs, fs': Fs, nr: nat, b: nat)
    requires SectorsOk(fs) && nr !in fs.live && 0 < nr < |fs.inodes| && 0 < b && b + fs.fileSects <= fs.nbits
    requires fs.used * Range(b, fs.fileSects) == {}
    requires fs'.inodes == fs.inodes[nr := DiskInode(Regular, 0, b - 1 + fs.firstData, fs.fileSects)]
    requires fs'.live == fs.live + {nr} && fs'.used == fs.used + Range(b, fs.fileSects)
    requires fs'.firstData == fs.firstData && fs'.nbits == fs.nbits
    ensures SectorsOk(fs')
  {
    assert Extent(fs'.inodes[nr], fs'.firstData) == Range(b, fs.fileSects);
    forall x: nat, y: nat | x in fs'.live && y in fs'.live && 0 < x < |fs.inodes| && 0 < y < |fs.inodes| && x != y
      ensures Apart(fs', x, y)
    {
      if x != nr { assert Mapped(fs, x); }
      if y != nr { assert Mapped(fs, y); }
      if x != nr && y != nr { assert Apart(fs, x, y); }
    }
    forall x: nat | x in fs'.live && 0 < x < |fs.inodes| ensures Mapped(fs', x) { if x != nr { assert Mapped(fs, x); } }
    forall n: nat | n in fs'.used && n != 0 ensures Owned(fs', n) {
      if n in fs.used {
        assert Owned(fs, n);
        var e: nat :| e in fs.live && 0 < e < |fs.inodes| && n in Extent(fs.inodes[e], fs.firstData);
        assert n in Extent(fs'.inodes[e], fs'.firstData);
      } else {
        assert n in Extent(fs'.inodes[nr], fs'.firstData);
      }
    }
  }

  /** What create_file has found to be free. */
  lemma AllocateFree(fs: Fs)
    requires 0 in fs.used && Allocate(fs).Ok?
    ensures var (nr, b) := Allocate(fs).value;
            && nr !in fs.live && 0 < b && b + fs.fileSects <= fs.nbits && fs.used * Range(b, fs.fileSects) == {}
  {
  }

  /** The inode and sector part of create_file. */
  lemma NewFileHolds(fs: Fs)
    requires StateOk(fs) && Allocate(fs).Ok? && GetInode(fs.cache, fs.inodes, Allocate(fs).value.0).Ok?
    ensures var (nr, b) := Allocate(fs).value; var (cache', c) := GetInode(fs.cache, fs.inodes, nr).value;
            var fs1 := NewFile(fs, cache', nr, b, c);
            && nr !in fs.live && Holding(fs, fs1, c) && fs1.cache[c].nr == nr && c != fs.root
            && fs1.cache[fs.root] == fs.cache[fs.root]
  {
    AllocateFree(fs);
    NewFileAt(fs, Allocate(fs).value.0, Allocate(fs).value.1);
  }

  lemma NewFileAt(fs: Fs, nr: nat, b: nat)
    requires StateOk(fs) && nr !in fs.live && 0 < nr < |fs.inodes| && GetInode(fs.cache, fs.inodes, nr).Ok?
    requires 0 < b && b + fs.fileSects <= fs.nbits && fs.used * Range(b, fs.fileSects) == {}
    ensures var (cache', c) := GetInode(fs.cache, fs.inodes, nr).value; var fs1 := NewFile(fs, cache', nr, b, c);
            && Holding(fs, fs1, c) && fs1.cache[c].nr == nr && c != fs.root && fs1.cache[fs.root] == fs.cache[fs.root]
  {
    var (cache', c) := GetInode(fs.cache, fs.inodes, nr).value;
    var fs1 := NewFile(fs, cache', nr, b, c);
    NewNumberNotCached(fs, nr);
    RootInUse(fs);
    assert fs1.cache == fs.cache[c := fs1.cache[c]];
    UpdateSlot(fs.cache, fs.inodes, c, fs1.cache[c], fs1.inodes);
    OneSlotLive(fs, fs1, c);
    NewFileNumbers(fs, fs1, nr);
    CreateSectors(fs, fs1, nr, b);
  }

  lemma NewFileNumbers(fs: Fs, fs1: Fs, nr: nat)
    requires InodesOk(fs) && 0 < nr < |fs.inodes| == |fs1.inodes| && nr != ROOT_INODE_NR && fs1.live == fs.live + {nr}
    requires fs1.inodes == fs.inodes[nr := fs1.inodes[nr]] && fs1.inodes[nr].kind == Regular
    requires forall e {:trigger CachedLive(fs1, e)} :: 0 <= e < |fs1.cache| ==> CachedLive(fs1, e)
    ensures InodesOk(fs1)
  {
    forall x: nat | x in fs1.live && 0 < x < |fs.inodes| ensures KindOk(fs1, x) { if x != nr { assert KindOk(fs, x); } }
  }

  /** The file `nr` is new and owns as many sectors as every file gets, none of which was in use. */
  predicate NewExtent(fs: Fs, fs': Fs, nr: nat) {
    && nr !in fs.live && fs'.live == fs.live + {nr} && nr < |fs'.inodes| && fs'.inodes[nr].nsects == fs.fileSects
    && fs'.inodes[nr].start + 1 >= fs'.firstData
    && var s := Extent(fs'.inodes[nr], fs'.firstData);
       s * fs.used == {} && fs'.used == fs.used + s
       && s == Range(fs'.inodes[nr].start + 1 - fs'.firstData, fs.fileSects)
  }

  /** create_file: the new file, under a free number, is held. */
  lemma CreateHolds(fs: Fs, name: seq<char>)
    requires StateOk(fs) && Readable(fs) && D.IsName(name) && Create(fs, name).Ok?
    ensures Allocate(fs).Ok? && Allocate(fs).value.0 !in fs.live
    ensures var (fs2, c) := Create(fs, name).value;
            && Holding(fs, fs2, c) && fs2.cache[c].nr == Allocate(fs).value.0 && c != fs.root
            && D.HasRoom(fs.entries, DirLen(fs)) && NewExtent(fs, fs2, Allocate(fs).value.0)
  {
    NewFileHolds(fs);
    AllocateFree(fs);
    var (nr, b) := Allocate(fs).value;
    var (cache', c) := GetInode(fs.cache, fs.inodes, nr).value;
    RootInUse(fs);
    AddEntryHolds(fs, NewFile(fs, cache', nr, b, c), c, nr, name);
  }

  lemma AddEntryHolds(fs: Fs, fs1: Fs, c: nat, nr: nat, name: seq<char>)
    requires Holding(fs, fs1, c) && fs1.cache[c].nr == nr && fs1.cache[fs1.root].cnt > 0
    requires D.HasRoom(fs1.entries, DirLen(fs1)) && |name| <= D.MAX_FILENAME_LEN
    ensures Holding(fs, AddEntry(fs1, nr, name), c) && AddEntry(fs1, nr, name).cache[c].nr == nr
  {
    var (es, n) := D.Insert(fs1.entries, DirLen(fs1), nr, name);
    var fs2 := SizeRoot(fs1, DirBytes(fs1) + (n - DirLen(fs1)) * D.DIR_ENTRY_SIZE);
    SizeRootKeeps(fs1, DirBytes(fs1) + (n - DirLen(fs1)) * D.DIR_ENTRY_SIZE);
    var fs3 := fs2.(entries := es);
    forall e | 0 <= e < |fs3.cache| ensures CachedLive(fs3, e) { assert CachedLive(fs2, e); }
    SameFilesOk(fs2, fs3);
  }

  // ---- opening ----

  /** What finding or creating the file has done; only a create touches the directory. */
  ghost predicate Targeted(fs: Fs, fs1: Fs, c: nat, path: seq<char>)
    requires Readable(fs)
  {
    var name := D.GetFileName(path);
    && Holding(fs, fs1, c)
    && match Lookup(fs, path)
       case Some(nr) => SameDirectory(fs, fs1) && (c == fs.root <==> nr == ROOT_INODE_NR) && fs1.cache[c].nr == nr
       case None => c != fs.root && name.Some? && D.IsName(name.value) && D.HasRoom(fs.entries, DirLen(fs))
  }

  lemma TargetHolds(fs: Fs, path: seq<char>)
    requires SafeOk(fs) && OpenTarget(fs, path).Ok?
    ensures Targeted(fs, OpenTarget(fs, path).value.0, OpenTarget(fs, path).value.1, path)
  {
    match Lookup(fs, path)
    case Some(nr) =>
      LookupLive(fs, path);
      GetHolds(fs, nr);
    case None => CreateHolds(fs, D.GetFileName(path).value);
  }

  lemma ConnectOk(fs: Fs, fs1: Fs, i: nat, c: nat)
    requires StateOk(fs) && Holding(fs, fs1, c) && i < |fs1.slots| && fs1.slots[i] == -1 && Connect(fs1, i, c).Ok?
    ensures StateOk(Connect(fs1, i, c).value)
  {
    var fs2 := Connect(fs1, i, c).value;
    var d := FirstFreeDesc(fs1.descs, 0).value;
    OpenCounts(fs.cache, fs.descs, fs.slots, fs.held, i, d, c, fs1.cache[c]);
    SameCounts(fs.cache[c := fs1.cache[c]], fs2.cache, fs2.descs, fs2.slots, fs2.held);
    forall e | 0 <= e < |fs2.cache| ensures CachedLive(fs2, e) { assert CachedLive(fs1, e); }
    SameFilesOk(fs1, fs2);
  }

  lemma ResizeHolds(fs: Fs, fs1: Fs, c: nat, size: nat)
    requires Holding(fs, fs1, c)
    ensures fs1.cache[c].nr < |fs1.inodes| && Holding(fs, Resize(fs1, c, size), c)
  {
    assert SlotOk(fs1.cache, fs1.inodes, c);
    var fs2 := Resize(fs1, c, size);
    WriteThrough(fs1.cache, fs1.inodes, c, fs2.cache[c].node);
    assert CachedLive(fs1, c);
    OneSlotLive(fs1, fs2, c);
    SameFilesOk(fs1, fs2);
  }

  /** What the end of an open leaves of the directory: O_TRUNC empties the root when it is the file. */
  predicate AfterFinish(fs1: Fs, fs2: Fs, i: nat, c: nat, trunc: bool) {
    && fs2.entries == fs1.entries && fs2.live == fs1.live && |fs2.inodes| == |fs1.inodes| && fs2.root == fs1.root
    && fs1.root < |fs1.cache| == |fs2.cache| && DirBytes(fs2) == (if trunc && c == fs1.root then 0 else DirBytes(fs1))
    && fs2.procs == fs1.procs && fs2.nfiles == fs1.nfiles && fs2.held == fs1.held
    && i < |fs1.slots| == |fs2.slots| && fs2.slots == fs1.slots[i := fs2.slots[i]]
  }

  lemma FinishOk(fs: Fs, fs1: Fs, i: nat, c: nat, trunc: bool)
    requires StateOk(fs) && Holding(fs, fs1, c) && i < |fs1.slots| && fs1.slots[i] == -1
    requires FinishOpen(fs1, i, c, trunc).Ok?
    ensures StateOk(FinishOpen(fs1, i, c, trunc).value)
    ensures AfterFinish(fs1, FinishOpen(fs1, i, c, trunc).value, i, c, trunc)
  {
    if trunc {
      ResizeHolds(fs, fs1, c, 0);
      ConnectOk(fs, Resize(fs1, c, 0), i, c);
    } else {
      ConnectOk(fs, fs1, i, c);
    }
  }

  /** The terminator of a 12-byte name takes the low byte of the next entry's number, which is 256 or
      more; what is left of it is the number of a dead inode, or of one with another entry. */
  predicate StrayTerminator(es: seq<D.Entry>, n: nat, live: set<nat>, name: seq<char>)
    requires D.HasRoom(es, n)
  {
    var k := D.FreeEntry(es, 0, n) + 1;
    && |name| == D.MAX_FILENAME_LEN && k < |es| && k % D.PER_SECTOR != 0 && es[k].ino >= 256
    && var left := es[k].ino - es[k].ino % 256;
       left !in live || exists i :: 0 <= i < |es| && i != k && i != k - 1 && es[i].ino == left
  }

  /** The open creates an entry that makes another one stray, or outgrows the directory's sectors. */
  predicate WildOpen(fs: Fs, path: seq<char>, creat: bool)
    requires Readable(fs)
  {
    var name := D.GetFileName(path);
    && Lookup(fs, path).None? && creat && name.Some? && D.HasRoom(fs.entries, DirLen(fs))
    && (StrayTerminator(fs.entries, DirLen(fs), fs.live, name.value) || Overgrows(fs.entries, DirBytes(fs)))
  }

  /** The entries after an insert: the new one, the next one less its low byte, and the others. */
  lemma InsertedEntries(es: seq<D.Entry>, n: nat, nr: nat, name: seq<char>)
    requires D.HasRoom(es, n) && |name| <= D.MAX_FILENAME_LEN
    ensures var es' := D.Insert(es, n, nr, name).0; var k := D.FreeEntry(es, 0, n);
            && |es'| == |es| && es'[k].ino == nr
            && forall i {:trigger es'[i]} :: 0 <= i < |es| && i != k ==>
                 es'[i].ino == if i == k + 1 && |name| == D.MAX_FILENAME_LEN && i % D.PER_SECTOR != 0
                               then es[i].ino - es[i].ino % 256 else es[i].ino
  {
  }

  lemma InsertSafe(es: seq<D.Entry>, n: nat, live: set<nat>, nr: nat, name: seq<char>)
    requires NamesSafe(es, live) && nr !in live && |name| <= D.MAX_FILENAME_LEN
    requires D.HasRoom(es, n) && !StrayTerminator(es, n, live, name)
    ensures NamesSafe(D.Insert(es, n, nr, name).0, live + {nr})
  {
    var es', live' := D.Insert(es, n, nr, name).0, live + {nr};
    InsertedEntries(es, n, nr, name);
    forall i | 0 <= i < |es'| ensures NamesLive(es', live', i) { assert NamesLive(es, live, i); }
    forall i, j | 0 <= i < |es'| && 0 <= j < |es'| && i != j ensures NamesApart(es', i, j) {
      assert NamesApart(es, i, j) && NamesLive(es, live, i) && NamesLive(es, live, j);
    }
  }

  lemma StrayIsUnsafe(es: seq<D.Entry>, n: nat, live: set<nat>, nr: nat, name: seq<char>)
    requires D.HasRoom(es, n) && StrayTerminator(es, n, live, name) && |name| <= D.MAX_FILENAME_LEN
    ensures !NamesSafe(D.Insert(es, n, nr, name).0, live + {nr})
  {
    var k, es' := D.FreeEntry(es, 0, n) + 1, D.Insert(es, n, nr, name).0;
    InsertedEntries(es, n, nr, name);
    var left := es[k].ino - es[k].ino % 256;
    assert es'[k].ino == left;
    if left == nr {
      assert !NamesApart(es', k, k - 1);
    } else if left in live {
      var i :| 0 <= i < |es| && i != k && i != k - 1 && es[i].ino == left;
      assert !NamesApart(es', k, i);
    } else {
      assert !NamesLive(es', live + {nr}, k);
    }
  }

  /** A new entry keeps the directory safe exactly when it makes no other stray and stays inside
      the directory's sectors. */
  lemma AddSafe(es: seq<D.Entry>, bytes: nat, live: set<nat>, nr: nat, name: seq<char>)
    requires Safe(es, bytes, live) && nr !in live && |name| <= D.MAX_FILENAME_LEN
    requires D.HasRoom(es, bytes / D.DIR_ENTRY_SIZE)
    ensures var n := bytes / D.DIR_ENTRY_SIZE; var (es', n') := D.Insert(es, n, nr, name);
            Safe(es', bytes + (n' - n) * D.DIR_ENTRY_SIZE, live + {nr}) <==>
            !StrayTerminator(es, n, live, name) && !Overgrows(es, bytes)
  {
    var n := bytes / D.DIR_ENTRY_SIZE;
    if StrayTerminator(es, n, live, name) {
      StrayIsUnsafe(es, n, live, nr, name);
    } else {
      InsertSafe(es, n, live, nr, name);
    }
    D.ScanLimit(bytes, |es|);
    D.ScanLimit(bytes + D.DIR_ENTRY_SIZE, |es|);
  }

  lemma CreateSafe(fs: Fs, name: seq<char>)
    requires SafeOk(fs) && D.IsName(name) && Create(fs, name).Ok? && D.HasRoom(fs.entries, DirLen(fs))
    ensures SafeDir(Create(fs, name).value.0) <==>
            !StrayTerminator(fs.entries, DirLen(fs), fs.live, name) && !Overgrows(fs.entries, DirBytes(fs))
  {
    NewFileHolds(fs);
    var (nr, b) := Allocate(fs).value;
    var (cache', c) := GetInode(fs.cache, fs.inodes, nr).value;
    var fs1 := NewFile(fs, cache', nr, b, c);
    assert fs1.entries == fs.entries && DirBytes(fs1) == DirBytes(fs) && fs1.live == fs.live + {nr};
    CreatedSafe(fs1, fs.live, nr, name);
  }

  lemma CreatedSafe(fs1: Fs, live: set<nat>, nr: nat, name: seq<char>)
    requires fs1.root < |fs1.cache| && ROOT_INODE_NR < |fs1.inodes| && fs1.live == live + {nr}
    requires Safe(fs1.entries, DirBytes(fs1), live) && nr !in live && |name| <= D.MAX_FILENAME_LEN
    requires D.HasRoom(fs1.entries, DirLen(fs1))
    ensures SafeDir(AddEntry(fs1, nr, name)) <==>
            !StrayTerminator(fs1.entries, DirLen(fs1), live, name) && !Overgrows(fs1.entries, DirBytes(fs1))
  {
    AddSafe(fs1.entries, DirBytes(fs1), live, nr, name);
    AddEntryDir(fs1, nr, name);
  }

  lemma AddEntryDir(fs1: Fs, nr: nat, name: seq<char>)
    requires fs1.root < |fs1.cache| && ROOT_INODE_NR < |fs1.inodes|
    requires D.HasRoom(fs1.entries, DirLen(fs1)) && |name| <= D.MAX_FILENAME_LEN
    ensures var fs2 := AddEntry(fs1, nr, name); var (es', n') := D.Insert(fs1.entries, DirLen(fs1), nr, name);
            var bytes' := DirBytes(fs1) + (n' - DirLen(fs1)) * D.DIR_ENTRY_SIZE;
            && |fs2.inodes| == |fs1.inodes| && fs2.root == fs1.root < |fs2.cache| && fs2.live == fs1.live
            && fs2.entries == es' && DirBytes(fs2) == bytes'
  {
  }

  /** Every completed open keeps cache, counts and maps; and it keeps the directory safe unless it
      makes an entry stray or outgrows the root's sectors. */
  lemma OpenCore(fs: Fs, p: nat, path: seq<char>, creat: bool, rdwr: bool, trunc: bool)
    requires SafeOk(fs) && p in fs.procs && ValidRow(fs, p) && Open(fs, p, path, creat, rdwr, trunc).Ok?
    ensures var fs' := Open(fs, p, path, creat, rdwr, trunc).value.0;
            CoreOk(fs') && fs'.held == fs.held && (SafeDir(fs') <==> !WildOpen(fs, path, creat))
  {
    if !Refused(fs, path, creat, rdwr, trunc) {
      var i := OpenShape(fs, p, path, creat, rdwr, trunc);
      TargetOpened(fs, p, i, path, creat, rdwr, trunc);
    } else {
      OpenRefused(fs, p, path, creat, rdwr, trunc);
    }
  }

  lemma OpenRefused(fs: Fs, p: nat, path: seq<char>, creat: bool, rdwr: bool, trunc: bool)
    requires Readable(fs) && ValidRow(fs, p) && Open(fs, p, path, creat, rdwr, trunc).Ok?
    requires Refused(fs, path, creat, rdwr, trunc)
    ensures Open(fs, p, path, creat, rdwr, trunc) == Ok((fs, -1))
  {
  }

  /** A completed open that is not refused takes the first null slot of its caller. */
  lemma OpenShape(fs: Fs, p: nat, path: seq<char>, creat: bool, rdwr: bool, trunc: bool) returns (i: nat)
    requires Readable(fs) && ValidRow(fs, p) && Open(fs, p, path, creat, rdwr, trunc).Ok?
    requires !Refused(fs, path, creat, rdwr, trunc)
    ensures RowAt(p, fs.nfiles) <= i < RowAt(p, fs.nfiles) + fs.nfiles && i < |fs.slots| && fs.slots[i] == -1
    ensures OpenAt(fs, i, path, trunc).Ok?
    ensures Open(fs, p, path, creat, rdwr, trunc) == Ok((OpenAt(fs, i, path, trunc).value, i - RowAt(p, fs.nfiles)))
  {
    var free := FreeSlot(fs, p);
    assert free.Some?;
    i := free.value;
    OpenIsInto(fs, p, i, path, creat, rdwr, trunc);
    IntoIsAt(fs, i, i - RowAt(p, fs.nfiles), path, creat, rdwr, trunc);
  }

  lemma OpenIsInto(fs: Fs, p: nat, i: nat, path: seq<char>, creat: bool, rdwr: bool, trunc: bool)
    requires Readable(fs) && ValidRow(fs, p) && FreeSlot(fs, p) == Some(i) && i < |fs.slots|
    ensures Open(fs, p, path, creat, rdwr, trunc) == OpenInto(fs, i, i - RowAt(p, fs.nfiles), path, creat, rdwr, trunc)
  {
  }

  lemma IntoIsAt(fs: Fs, i: nat, fd: int, path: seq<char>, creat: bool, rdwr: bool, trunc: bool)
    requires Readable(fs) && i < |fs.slots| && !Refused(fs, path, creat, rdwr, trunc)
    ensures OpenInto(fs, i, fd, path, creat, rdwr, trunc) == WithResult(OpenAt(fs, i, path, trunc), fd)
  {
  }

  lemma TargetOpened(fs: Fs, p: nat, i: nat, path: seq<char>, creat: bool, rdwr: bool, trunc: bool)
    requires SafeOk(fs) && p in fs.procs && !Refused(fs, path, creat, rdwr, trunc)
    requires RowAt(p, fs.nfiles) <= i < RowAt(p, fs.nfiles) + fs.nfiles && i < |fs.slots| && fs.slots[i] == -1
    requires OpenAt(fs, i, path, trunc).Ok?
    ensures var fs2 := OpenAt(fs, i, path, trunc).value;
            CoreOk(fs2) && fs2.held == fs.held && (SafeDir(fs2) <==> !WildOpen(fs, path, creat))
  {
    var (fs1, c) := OpenTarget(fs, path).value;
    var fs2 := FinishOpen(fs1, i, c, trunc).value;
    TargetHolds(fs, path);
    FinishOk(fs, fs1, i, c, trunc);
    RowsStay(fs, fs2, p);
    if Lookup(fs, path).None? { CreateSafe(fs, D.GetFileName(path).value); } else { SameDirectoryOk(fs, fs1); }
    FinishSafe(fs1, fs2, i, c, trunc);
  }

  /** Emptying the root leaves its entries where they are: safe, if lost. */
  lemma FinishSafe(fs1: Fs, fs2: Fs, i: nat, c: nat, trunc: bool)
    requires AfterFinish(fs1, fs2, i, c, trunc) && ROOT_INODE_NR < |fs1.inodes|
    requires trunc && c == fs1.root ==> SafeDir(fs1)
    ensures SafeDir(fs2) <==> SafeDir(fs1)
  {
  }

  // ---- dropping and sharing descriptors ----

  /** Counts, descriptors and slots may change; files, names and cached inodes do not. */
  predicate OnlyCounts(fs: Fs, fs': Fs) {
    && fs' == fs.(cache := fs'.cache, descs := fs'.descs, slots := fs'.slots) && |fs'.cache| == |fs.cache|
    && |fs'.slots| == |fs.slots| && |fs'.descs| == |fs.descs|
    && forall c :: 0 <= c < |fs.cache| ==> fs'.cache[c] == fs.cache[c].(cnt := fs'.cache[c].cnt)
  }

  lemma DropSlotOk(fs: Fs, i: nat)
    requires StateOk(fs) && i < |fs.slots| && fs.slots[i] != -1
    ensures DropSlot(fs, i).Ok? && StateOk(DropSlot(fs, i).value) && OnlyCounts(fs, DropSlot(fs, i).value)
  {
    DropCounts(fs.cache, fs.descs, fs.slots, fs.held, i);
    var fs' := DropSlot(fs, i).value;
    var c := fs.descs[fs.slots[i]].inode.value;
    PutKeepsCache(fs.cache, fs.inodes, c);
    assert CachedLive(fs, c);
    OneSlotLive(fs, fs', c);
    SameFilesOk(fs, fs');
  }

  lemma CloseOk(fs: Fs, p: nat, fd: nat)
    requires CoreOk(fs) && p in fs.procs && ValidRow(fs, p) && fd < fs.nfiles
    requires DropSlot(fs, RowAt(p, fs.nfiles) + fd).Ok?
    ensures var fs' := DropSlot(fs, RowAt(p, fs.nfiles) + fd).value;
            && CoreOk(fs') && fs'.held == fs.held && SameDirectory(fs, fs') && OnlyCounts(fs, fs')
            && fs'.slots == fs.slots[RowAt(p, fs.nfiles) + fd := -1]
  {
    var i := RowAt(p, fs.nfiles) + fd;
    DropSlotOk(fs, i);
    RowsStay(fs, DropSlot(fs, i).value, p);
  }

  predicate MaskAt(m: seq<int>, slots: seq<int>, i: nat, e: nat, j: nat)
    requires j < |m| == |slots|
  {
    m[j] == if i <= j < e then -1 else slots[j]
  }

  /** `m` is `slots` with the entries from `i` up to `e` masked out. */
  predicate Masks(m: seq<int>, slots: seq<int>, i: nat, e: nat) {
    |m| == |slots| && forall j {:trigger MaskAt(m, slots, i, e, j)} :: 0 <= j < |m| ==> MaskAt(m, slots, i, e, j)
  }

  /** fs_exit trips no assertion and empties exactly these slots; files and names stay. */
  lemma {:induction false} ExitDropsAll(fs: Fs, i: nat, e: nat)
    requires StateOk(fs) && i <= e <= |fs.slots|
    ensures ExitFrom(fs, i, e).Ok? && StateOk(ExitFrom(fs, i, e).value)
    ensures OnlyCounts(fs, ExitFrom(fs, i, e).value) && Masks(ExitFrom(fs, i, e).value.slots, fs.slots, i, e)
    decreases e - i
  {
    if i < e {
      if fs.slots[i] == -1 {
        ExitDropsAll(fs, i + 1, e);
        MaskMore(ExitFrom(fs, i, e).value.slots, fs.slots, fs.slots, i, e);
      } else {
        DropSlotOk(fs, i);
        var fs1 := DropSlot(fs, i).value;
        ExitDropsAll(fs1, i + 1, e);
        MaskMore(ExitFrom(fs, i, e).value.slots, fs1.slots, fs.slots, i, e);
      }
    }
  }

  lemma MaskMore(m: seq<int>, mid: seq<int>, slots: seq<int>, i: nat, e: nat)
    requires i < e <= |slots| && Masks(m, mid, i + 1, e) && mid == slots[i := -1]
    ensures Masks(m, slots, i, e)
  {
    forall j | 0 <= j < |m| ensures MaskAt(m, slots, i, e, j) { assert MaskAt(m, mid, i + 1, e, j); }
  }

  lemma ExitOk(fs: Fs, p: nat)
    requires CoreOk(fs) && p in fs.procs && ValidRow(fs, p)
    ensures Exit(fs, p).Ok? && CoreOk(Exit(fs, p).value)
    ensures Exit(fs, p).value.held == fs.held && SameDirectory(fs, Exit(fs, p).value)
    ensures var x, a := Exit(fs, p).value, RowAt(p, fs.nfiles);
            x.procs == fs.procs - {p} && Masks(x.slots, fs.slots, a, a + fs.nfiles)
  {
    var a := RowAt(p, fs.nfiles);
    ExitDropsAll(fs, a, a + fs.nfiles);
    var fs1 := ExitFrom(fs, a, a + fs.nfiles).value;
    var fs2 := Exit(fs, p).value;
    ProcsOnly(fs1, fs2);
    RowMasked(fs, fs2, p, a, a + fs.nfiles);
  }

  lemma RowMasked(fs: Fs, fs': Fs, p: nat, a: nat, e: nat)
    requires RowsOk(fs) && fs'.nfiles == fs.nfiles && fs.procs <= fs'.procs + {p}
    requires a == RowAt(p, fs.nfiles) && e == a + fs.nfiles && Masks(fs'.slots, fs.slots, a, e)
    ensures RowsOk(fs')
  {
    forall j | 0 <= j < |fs.slots| ensures fs'.slots[j] == if a <= j < e then -1 else fs.slots[j] {
      assert MaskAt(fs'.slots, fs.slots, a, e, j);
    }
    RowsStay(fs, fs', p);
  }

  /** The invariant on tables and files does not speak of the processes in use. */
  lemma ProcsOnly(fs: Fs, fs': Fs)
    requires StateOk(fs) && fs' == fs.(procs := fs'.procs)
    ensures StateOk(fs')
  {
    forall e | 0 <= e < |fs'.cache| ensures CachedLive(fs', e) { assert CachedLive(fs, e); }
    SameFilesOk(fs, fs');
  }

  /** Counting one copied entry; `m` is the slot table without the entries not yet counted. */
  lemma CountSlotOk(fs: Fs, m: seq<int>, i: nat)
    requires StateOk(fs.(slots := m)) && i < |m| == |fs.slots| && m[i] == -1
    requires fs.slots[i] != -1 && fs.slots[i] in m
    ensures CountSlot(fs, i).Ok? && StateOk(CountSlot(fs, i).value.(slots := m[i := fs.slots[i]]))
    ensures OnlyCounts(fs, CountSlot(fs, i).value) && Shared(fs.descs, CountSlot(fs, i).value.descs)
  {
    var d := fs.slots[i];
    var j :| 0 <= j < |m| && m[j] == d;
    SlotIsCounted(fs.cache, fs.descs, m, fs.held, j);
    ShareCounts(fs.cache, fs.descs, m, fs.held, i, d);
    var c := fs.descs[d].inode.value;
    var fs' := CountSlot(fs, i).value;
    var a, b := fs.(slots := m), fs'.(slots := m[i := d]);
    assert CachedLive(a, c) && SlotOk(fs.cache, fs.inodes, c);
    forall e | 0 <= e < |fs.cache| && e != c ensures fs.cache[e].cnt > 0 ==> fs.cache[e].nr != fs.cache[c].nr {
      assert SlotsDiffer(fs.cache, c, e);
    }
    UpdateSlot(fs.cache, fs.inodes, c, b.cache[c], fs.inodes);
    OneSlotLive(a, b, c);
    SameFilesOk(a, b);
  }

  /** Every descriptor keeps its inode and its position. */
  predicate Shared(a: seq<Desc>, b: seq<Desc>) {
    |a| == |b| && forall d :: 0 <= d < |a| ==> b[d].inode == a[d].inode && b[d].pos == a[d].pos
  }

  /** fs_fork from slot `i` up to `e`; `m` is the slot table without the entries not yet counted. */
  lemma {:induction false} ForkCounts(fs: Fs, m: seq<int>, i: nat, e: nat)
    requires i <= e <= |fs.slots| && Masks(m, fs.slots, i, e) && StateOk(fs.(slots := m))
    requires forall j :: i <= j < e ==> fs.slots[j] == -1 || fs.slots[j] in m
    ensures ForkFrom(fs, i, e).Ok? && StateOk(ForkFrom(fs, i, e).value)
    ensures OnlyCounts(fs, ForkFrom(fs, i, e).value) && ForkFrom(fs, i, e).value.slots == fs.slots
    ensures Shared(fs.descs, ForkFrom(fs, i, e).value.descs)
    decreases e - i
  {
    if i == e {
      forall j | 0 <= j < |m| ensures m[j] == fs.slots[j] { assert MaskAt(m, fs.slots, i, e, j); }
      assert m == fs.slots;
    } else {
      Unmask(m, fs.slots, i, e);
      if fs.slots[i] == -1 {
        assert m[i := fs.slots[i]] == m;
        ForkCounts(fs, m, i + 1, e);
      } else {
        CountSlotOk(fs, m, i);
        ForkCounts(CountSlot(fs, i).value, m[i := fs.slots[i]], i + 1, e);
      }
    }
  }

  lemma Unmask(m: seq<int>, slots: seq<int>, i: nat, e: nat)
    requires i < e <= |slots| && Masks(m, slots, i, e)
    requires forall j :: i <= j < e ==> slots[j] == -1 || slots[j] in m
    ensures m[i] == -1 && Masks(m[i := slots[i]], slots, i + 1, e)
    ensures forall j :: i + 1 <= j < e ==> slots[j] == -1 || slots[j] in m[i := slots[i]]
  {
    var m1, i1 := m[i := slots[i]], i + 1;
    assert MaskAt(m, slots, i, e, i);
    forall j | 0 <= j < |m1| ensures MaskAt(m1, slots, i1, e, j) { assert MaskAt(m, slots, i, e, j); }
    forall j | i + 1 <= j < e && slots[j] != -1 ensures slots[j] in m1 {
      var k :| 0 <= k < |m| && m[k] == slots[j];
      assert m1[k] == m[k];
    }
  }

  /** Masking the copied row gives back the old table, and every copied entry occurs in it. */
  lemma CopiedRow(slots: seq<int>, a: nat, b: nat, n: nat)
    requires a + n <= |slots| && b + n <= |slots|
    requires forall i :: b <= i < b + n ==> slots[i] == -1
    ensures Masks(slots, Copied(slots, a, b, n), b, b + n)
    ensures forall j :: b <= j < b + n ==> Copied(slots, a, b, n)[j] in slots
  {
  }

  /** The child is in use, its row is the parent's, entry by entry, and no other row has changed. */
  predicate Inherits(fs: Fs, f: Fs, parent: nat, child: nat) {
    && f.procs == fs.procs + {child} && |f.slots| == |fs.slots| && ValidRow(fs, parent) && ValidRow(fs, child)
    && var a, b := RowAt(parent, fs.nfiles), RowAt(child, fs.nfiles);
       forall j {:trigger f.slots[j]} :: 0 <= j < |fs.slots| ==>
         f.slots[j] == if b <= j < b + fs.nfiles then fs.slots[a + (j - b)] else fs.slots[j]
  }

  /** After a fork the child has its parent's row and shares every descriptor: descriptors keep inode
      and position, and nothing but the row and the counts has changed. */
  lemma ForkShares(fs: Fs, parent: nat, child: nat)
    requires StateOk(fs) && RowFree(fs, child) && ValidRow(fs, parent) && ValidRow(fs, child)
    ensures Fork(fs, parent, child).Ok? && StateOk(Fork(fs, parent, child).value)
    ensures var f := Fork(fs, parent, child).value;
            && Inherits(fs, f, parent, child) && Shared(fs.descs, f.descs)
            && OnlyCounts(fs.(slots := f.slots, procs := fs.procs + {child}), f)
  {
    var c, b := CopyRow(fs, parent, child), RowAt(child, fs.nfiles);
    CopiedRow(fs.slots, RowAt(parent, fs.nfiles), b, fs.nfiles);
    ProcsOnly(fs, c.(slots := fs.slots));
    ForkCounts(c, fs.slots, b, b + fs.nfiles);
  }

  lemma ForkOk(fs: Fs, parent: nat, child: nat)
    requires CoreOk(fs) && child !in fs.procs && ValidRow(fs, parent) && ValidRow(fs, child)
    ensures Fork(fs, parent, child).Ok? && CoreOk(Fork(fs, parent, child).value)
    ensures Fork(fs, parent, child).value.held == fs.held && SameDirectory(fs, Fork(fs, parent, child).value)
    ensures Inherits(fs, Fork(fs, parent, child).value, parent, child)
  {
    assert RowFree(fs, child);
    ForkShares(fs, parent, child);
    var f := Fork(fs, parent, child).value;
    RowsStay(fs, f, child);
  }

  // ---- stat ----

  lemma StatOk(fs: Fs, path: seq<char>)
    requires SafeOk(fs) && Stat(fs, path).Ok?
    ensures var fs' := Stat(fs, path).value.0; CoreOk(fs') && fs'.held == fs.held && SameDirectory(fs, fs')
  {
    if Lookup(fs, path).Some? {
      LookupLive(fs, path);
      GetPutOk(fs, Lookup(fs, path).value);
    }
  }

  lemma GetPutOk(fs: Fs, nr: nat)
    requires CoreOk(fs) && nr in fs.live && 0 < nr < |fs.inodes| && GetInode(fs.cache, fs.inodes, nr).Ok?
    ensures var (cache', c) := GetInode(fs.cache, fs.inodes, nr).value;
            && cache'[c].cnt > 0 && CoreOk(fs.(cache := PutInode(cache', c)))
            && SameDirectory(fs, fs.(cache := PutInode(cache', c)))
  {
    GetHolds(fs, nr);
    GetInodeAgrees(fs.cache, fs.inodes, nr);
    var (cache', c) := GetInode(fs.cache, fs.inodes, nr).value;
    var fs' := fs.(cache := PutInode(cache', c));
    PutKeepsCache(cache', fs.inodes, c);
    OneSlotLive(fs, fs', c);
    SameFilesOk(fs, fs');
    SameCounts(fs.cache, fs'.cache, fs.descs, fs.slots, fs.held);
    SameRows(fs, fs');
  }

  // ---- unlink ----

  /** The file is not a regular one, or some process has it open. */
  predicate InUse(fs: Fs, nr: nat)
    requires nr < |fs.inodes|
  {
    fs.inodes[nr].kind != Regular || FindCached(fs.cache, nr, 0).Some?
  }

  lemma UnlinkSectors(fs: Fs, fs': Fs, nr: nat)
    requires SectorsOk(fs) && nr in fs.live && 0 < nr < |fs.inodes|
    requires fs'.inodes == fs.inodes[nr := CLEARED] && fs'.live == fs.live - {nr}
    requires fs'.used == fs.used - Extent(fs.inodes[nr], fs.firstData)
    requires fs'.firstData == fs.firstData && fs'.nbits == fs.nbits
    ensures SectorsOk(fs')
  {
    forall x: nat, y: nat | x in fs'.live && y in fs'.live && 0 < x < |fs.inodes| && 0 < y < |fs.inodes| && x != y
      ensures Apart(fs', x, y)
    {
      assert Apart(fs, x, y);
    }
    forall x: nat | x in fs'.live && 0 < x < |fs.inodes| ensures Mapped(fs', x) {
      assert Mapped(fs, x) && Apart(fs, x, nr);
    }
    forall n: nat | n in fs'.used && n != 0 ensures Owned(fs', n) {
      assert Owned(fs, n);
      var e: nat :| e in fs.live && 0 < e < |fs.inodes| && n in Extent(fs.inodes[e], fs.firstData);
      assert n in Extent(fs'.inodes[e], fs'.firstData);
    }
  }

  /** Everything do_unlink does to an idle regular file before it clears the directory entry. */
  lemma ClearFileOk(fs: Fs, nr: nat, cache: seq<CacheSlot>, c: nat)
    requires StateOk(fs) && nr in fs.live && 0 < nr < |fs.inodes| && !InUse(fs, nr)
    requires GetInode(fs.cache, fs.inodes, nr) == Ok((cache, c))
    ensures c < |cache| && cache[c].cnt == 1 && cache[c].node == fs.inodes[nr]
    ensures var fs1 := ClearFile(fs, cache, nr, c);
            StateOk(fs1) && fs1.cache[fs.root] == fs.cache[fs.root]
  {
    assert KindOk(fs, nr);
    GetInodeAgrees(fs.cache, fs.inodes, nr);
    var fs1 := ClearFile(fs, cache, nr, c);
    assert fs1.cache == fs.cache[c := CacheSlot(0, nr, CLEARED)];
    forall e | 0 <= e < |fs.cache| ensures CachedLive(fs1, e) { assert CachedLive(fs, e); }
    UpdateSlot(fs.cache, fs.inodes, c, fs1.cache[c], fs1.inodes);
    SameCounts(fs.cache, fs1.cache, fs.descs, fs.slots, fs.held);
    RootInUse(fs);
    forall x: nat | x in fs1.live && 0 < x < |fs.inodes| ensures KindOk(fs1, x) { assert KindOk(fs, x); }
    UnlinkSectors(fs, fs1, nr);
  }

  /** The directory entries are no part of the tables; the root's size is kept coherent. */
  lemma RemovedState(fs1: Fs, fs2: Fs)
    requires StateOk(fs1) && fs1.cache[fs1.root].cnt > 0 && fs2.root < |fs2.cache|
    requires fs2 == fs1.(entries := fs2.entries) || fs2 == SizeRoot(fs1, DirBytes(fs2)).(entries := fs2.entries)
    ensures StateOk(fs2)
  {
    var fs3 := if fs2 == fs1.(entries := fs2.entries) then fs1 else SizeRoot(fs1, DirBytes(fs2));
    SizeRootKeeps(fs1, DirBytes(fs2));
    SameCounts(fs1.cache, fs2.cache, fs1.descs, fs1.slots, fs1.held);
    forall e | 0 <= e < |fs2.cache| ensures CachedLive(fs2, e) { assert CachedLive(fs3, e); }
    SameFilesOk(fs3, fs2);
  }

  /** do_unlink finds a file that it will refuse: the reference it has taken stays. */
  predicate LeakingUnlink(fs: Fs, path: seq<char>)
    requires Readable(fs)
  {
    path != "/" && match Lookup(fs, path) case None => false case Some(nr) => nr < |fs.inodes| && InUse(fs, nr)
  }

  /** A refused unlink keeps cache and maps, and holds one more reference to the file's slot. */
  lemma UnlinkLeaks(fs: Fs, path: seq<char>)
    requires SafeOk(fs) && Unlink(fs, path).Ok? && LeakingUnlink(fs, path)
    ensures var (fs', ret) := Unlink(fs, path).value; var c := LeakedSlot(fs, path);
            && ret == -1 && CoreOk(fs') && SameDirectory(fs, fs') && fs'.inodes == fs.inodes && fs'.used == fs.used
            && c < |fs.cache| && fs'.held == fs.held + multiset{c} && fs'.cache[c].nr == Lookup(fs, path).value
  {
    LookupLive(fs, path);
    var nr := Lookup(fs, path).value;
    GetHolds(fs, nr);
    GetInodeAgrees(fs.cache, fs.inodes, nr);
    var (cache', c) := GetInode(fs.cache, fs.inodes, nr).value;
    var fs' := Unlink(fs, path).value.0;
    HoldCounts(fs.cache, fs.descs, fs.slots, fs.held, c, cache'[c]);
    forall e | 0 <= e < |fs'.cache| ensures CachedLive(fs', e) { assert CachedLive(fs.(cache := cache'), e); }
    SameFilesOk(fs, fs');
    SameRows(fs, fs');
  }

  /** The cache slot whose reference a refused unlink keeps. */
  function LeakedSlot(fs: Fs, path: seq<char>): nat
    requires Readable(fs)
  {
    match Lookup(fs, path)
    case None => 0
    case Some(nr) =>
      if !(0 < nr < |fs.inodes|) then 0 else
      match GetInode(fs.cache, fs.inodes, nr) case Panic => 0 case Ok((_, c)) => c
  }

  /** Clearing the entry of `nr` keeps a safe directory safe. */
  lemma RemoveSafe(es: seq<D.Entry>, bytes: nat, live: set<nat>, nr: nat, k: nat)
    requires Safe(es, bytes, live) && nr != 0 && D.FindIno(es, nr, 0, bytes / D.DIR_ENTRY_SIZE) == Some(k)
    ensures var n := bytes / D.DIR_ENTRY_SIZE; var (es', n') := D.RemoveAt(es, n, k);
            Safe(es', if k + 1 == n then n' * D.DIR_ENTRY_SIZE else bytes, live - {nr})
  {
    var n := bytes / D.DIR_ENTRY_SIZE;
    var (es', n') := D.RemoveAt(es, n, k);
    forall i | 0 <= i < |es'| ensures NamesLive(es', live - {nr}, i) {
      assert NamesLive(es, live, i) && (i == k || NamesApart(es, i, k));
    }
    forall i, j | 0 <= i < |es'| && 0 <= j < |es'| && i != j ensures NamesApart(es', i, j) {
      assert NamesApart(es, i, j);
    }
    D.ScanLimit(bytes, |es|);
    D.ScanLimit(n' * D.DIR_ENTRY_SIZE, |es|);
  }

  /** What clear_directory_entry does to the tables and to the directory. */
  lemma RemoveEntryShape(fs1: Fs, nr: nat)
    requires StateOk(fs1) && Readable(fs1) && RemoveEntry(fs1, nr).Ok?
    ensures var fs2 := RemoveEntry(fs1, nr).value; var k := D.FindIno(fs1.entries, nr, 0, DirLen(fs1));
            && k.Some? && StateOk(fs2) && fs2.slots == fs1.slots && fs2.procs == fs1.procs && fs2.nfiles == fs1.nfiles
            && fs2.held == fs1.held && fs2.live == fs1.live && |fs2.inodes| == |fs1.inodes| && fs2.used == fs1.used
            && fs2.root == fs1.root < |fs2.cache|
            && var (es', n') := D.RemoveAt(fs1.entries, DirLen(fs1), k.value);
               && fs2.entries == es'
               && DirBytes(fs2) == if k.value + 1 == DirLen(fs1) then n' * D.DIR_ENTRY_SIZE else DirBytes(fs1)
  {
    RootInUse(fs1);
    RemovedState(fs1, RemoveEntry(fs1, nr).value);
  }

  /** A successful unlink keeps cache, counts and maps, and keeps the directory safe. */
  lemma UnlinkClears(fs: Fs, path: seq<char>)
    requires SafeOk(fs) && Unlink(fs, path).Ok? && path != "/" && Lookup(fs, path).Some? && !LeakingUnlink(fs, path)
    ensures var (fs', ret) := Unlink(fs, path).value; ret == 0 && CoreOk(fs') && SafeDir(fs') && fs'.held == fs.held
  {
    LookupLive(fs, path);
    var nr := Lookup(fs, path).value;
    assert KindOk(fs, nr) && Mapped(fs, nr);
    var (cache', c) := GetInode(fs.cache, fs.inodes, nr).value;
    ClearFileOk(fs, nr, cache', c);
    var fs1 := ClearFile(fs, cache', nr, c);
    RemoveEntryShape(fs1, nr);
    var k := D.FindIno(fs1.entries, nr, 0, DirLen(fs1)).value;
    RemoveSafe(fs.entries, DirBytes(fs), fs.live, nr, k);
    SameRows(fs, RemoveEntry(fs1, nr).value);
  }

  /** Every completed unlink keeps cache and maps and a safe directory; it succeeds exactly for an
      idle regular file under a path that is found and is not "/", and when it refuses such a
      file, it holds one more reference. */
  lemma UnlinkCore(fs: Fs, path: seq<char>)
    requires SafeOk(fs) && Unlink(fs, path).Ok?
    ensures var (fs', ret) := Unlink(fs, path).value;
            && CoreOk(fs') && SafeDir(fs')
            && (ret == 0 <==> path != "/" && Lookup(fs, path).Some? && !LeakingUnlink(fs, path))
            && (path == "/" || Lookup(fs, path).None? ==> fs' == fs && ret == -1)
            && fs'.held == fs.held + (if LeakingUnlink(fs, path) then multiset{LeakedSlot(fs, path)} else multiset{})
  {
    if LeakingUnlink(fs, path) {
      UnlinkLeaks(fs, path);
      SameDirectoryOk(fs, Unlink(fs, path).value.0);
    } else if path != "/" && Lookup(fs, path).Some? {
      UnlinkClears(fs, path);
    }
  }

  // ---- reading and writing ----

  /** A read or write through a descriptor of the root ends past the directory and beyond its
      sectors. */
  predicate SpoilingTransfer(fs: Fs, i: nat, pos: nat)
    requires fs.root < |fs.cache|
  {
    && i < |fs.slots| && 0 <= fs.slots[i] < |fs.descs| && fs.descs[fs.slots[i]].inode == Some(fs.root)
    && pos > DirBytes(fs) && pos > |fs.entries| * D.DIR_ENTRY_SIZE
  }

  lemma ResizeState(fs: Fs, c: nat, size: nat)
    requires StateOk(fs) && c < |fs.cache| && fs.cache[c].cnt > 0
    ensures fs.cache[c].nr < |fs.inodes| && StateOk(Resize(fs, c, size))
  {
    assert SlotOk(fs.cache, fs.inodes, c);
    var fs' := Resize(fs, c, size);
    WriteThrough(fs.cache, fs.inodes, c, fs'.cache[c].node);
    assert CachedLive(fs, c);
    OneSlotLive(fs, fs', c);
    SameFilesOk(fs, fs');
    SameCounts(fs.cache, fs'.cache, fs.descs, fs.slots, fs.held);
  }

  lemma MoveState(fs: Fs, d: nat, pos: nat)
    requires StateOk(fs) && d < |fs.descs|
    ensures StateOk(fs.(descs := fs.descs[d := fs.descs[d].(pos := pos)]))
  {
    var fs' := fs.(descs := fs.descs[d := fs.descs[d].(pos := pos)]);
    MoveKeepsCounts(fs.cache, fs.descs, fs.slots, fs.held, d, pos);
    forall e | 0 <= e < |fs'.cache| ensures CachedLive(fs', e) { assert CachedLive(fs, e); }
    SameFilesOk(fs, fs');
  }

  /** Every read or write keeps cache, counts and maps; the root's size follows the position, and
      its directory stays safe within its sectors. */
  lemma TransferCore(fs: Fs, i: nat, pos: nat)
    requires SafeOk(fs) && i < |fs.slots| && Transfer(fs, i, pos).Ok?
    ensures var fs' := Transfer(fs, i, pos).value;
            CoreOk(fs') && fs'.held == fs.held && (SafeDir(fs') <==> !SpoilingTransfer(fs, i, pos))
  {
    SlotIsCounted(fs.cache, fs.descs, fs.slots, fs.held, i);
    var d := fs.slots[i];
    var c := fs.descs[d].inode.value;
    var fs1 := fs.(descs := fs.descs[d := fs.descs[d].(pos := pos)]);
    var fs' := Transfer(fs, i, pos).value;
    MoveState(fs, d, pos);
    ResizeState(fs1, c, pos);
    SameRows(fs, fs');
    TransferShape(fs, i, pos);
    SizedSafe(fs, fs');
  }

  /** What a transfer does to the directory: its entries stay, its size follows when the position
      passes it through a descriptor of the root. */
  lemma TransferShape(fs: Fs, i: nat, pos: nat)
    requires CoreOk(fs) && i < |fs.slots| && Transfer(fs, i, pos).Ok?
    ensures var fs' := Transfer(fs, i, pos).value; var d := fs.slots[i];
            && fs'.entries == fs.entries && fs'.live == fs.live && |fs'.inodes| == |fs.inodes|
            && fs'.root == fs.root < |fs'.cache| && 0 <= d < |fs.descs|
            && DirBytes(fs') ==
                 if fs.descs[d].inode == Some(fs.root) && pos > DirBytes(fs) then pos else DirBytes(fs)
  {
    SlotIsCounted(fs.cache, fs.descs, fs.slots, fs.held, i);
    RootInUse(fs);
    assert SlotOk(fs.cache, fs.inodes, fs.root) && KindOk(fs, ROOT_INODE_NR);
  }

  lemma SizedSafe(fs: Fs, fs': Fs)
    requires SafeDir(fs) && fs'.entries == fs.entries && fs'.live == fs.live && |fs'.inodes| == |fs.inodes|
    requires fs'.root == fs.root < |fs'.cache|
    ensures SafeDir(fs') <==> DirBytes(fs') <= |fs.entries| * D.DIR_ENTRY_SIZE
  {
    D.ScanLimit(DirBytes(fs'), |fs.entries|);
  }
}
