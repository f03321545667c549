/** Parts of the file system invariant that a call leaves alone, and what lookups find. */
module FsFrames {
  import opened Common
  import opened FsModel
  import opened FsSteps
  import D = DirectoryModel

  // ---- changes that move no file ----

  /** Inodes may differ in size only. */
  predicate SameShape(a: seq<DiskInode>, b: seq<DiskInode>) {
    |a| == |b| && forall i :: 0 <= i < |a| ==> b[i] == a[i].(size := b[i].size)
  }

  /** A change of sizes, cache entries, descriptors and slots that keeps every file in place. */
  predicate SameFiles(fs: Fs, fs': Fs) {
    && SameShape(fs.inodes, fs'.inodes) && fs'.live == fs.live && fs'.used == fs.used
    && fs'.firstData == fs.firstData && fs'.nbits == fs.nbits
    && (forall c {:trigger CachedLive(fs', c)} :: 0 <= c < |fs'.cache| ==> CachedLive(fs', c))
  }

  /** One cache slot changed, for a live inode. */
  lemma OneSlotLive(fs: Fs, fs': Fs, c: nat)
    requires InodesOk(fs) && c < |fs.cache| == |fs'.cache| && fs'.cache == fs.cache[c := fs'.cache[c]]
    requires fs'.cache[c].cnt > 0 ==> fs'.cache[c].nr in fs'.live
    requires fs.live <= fs'.live
    ensures forall e {:trigger CachedLive(fs', e)} :: 0 <= e < |fs'.cache| ==> CachedLive(fs', e)
  {
    forall e | 0 <= e < |fs'.cache| ensures CachedLive(fs', e) { assert CachedLive(fs, e); }
  }

  lemma SameFilesOk(fs: Fs, fs': Fs)
    requires InodesOk(fs) && SectorsOk(fs) && SameFiles(fs, fs')
    ensures InodesOk(fs') && SectorsOk(fs')
  {
    forall nr: nat | nr in fs.live && 0 < nr < |fs.inodes| ensures KindOk(fs', nr) { assert KindOk(fs, nr); }
    SameSectorsOk(fs, fs');
  }

  lemma SameSectorsOk(fs: Fs, fs': Fs)
    requires SectorsOk(fs) && SameShape(fs.inodes, fs'.inodes) && fs'.live == fs.live && fs'.used == fs.used
    requires fs'.firstData == fs.firstData && fs'.nbits == fs.nbits
    ensures SectorsOk(fs')
  {
    forall a: nat, b: nat | a in fs.live && b in fs.live && 0 < a < |fs.inodes| && 0 < b < |fs.inodes| && a != b
      ensures Apart(fs', a, b)
    {
      assert Apart(fs, a, b);
    }
    forall nr: nat | nr in fs.live && 0 < nr < |fs.inodes| ensures Mapped(fs', nr) { assert Mapped(fs, nr); }
    forall n: nat | n in fs'.used && n != 0 ensures Owned(fs', n) {
      assert Owned(fs, n);
      var nr: nat :| nr in fs.live && 0 < nr < |fs.inodes| && n in Extent(fs.inodes[nr], fs.firstData);
      assert n in Extent(fs'.inodes[nr], fs'.firstData);
    }
  }

  /** The directory, its size and the inode map are as they were. */
  predicate SameDirectory(fs: Fs, fs': Fs) {
    && fs'.entries == fs.entries && fs'.live == fs.live && |fs'.inodes| == |fs.inodes|
    && fs'.root == fs.root < |fs.cache| && fs.root < |fs'.cache| && DirBytes(fs') == DirBytes(fs)
  }

  lemma SameDirectoryOk(fs: Fs, fs': Fs)
    requires SameDirectory(fs, fs') && ROOT_INODE_NR < |fs.inodes|
    ensures DirectoryOk(fs') <==> DirectoryOk(fs)
    ensures SafeDir(fs') <==> SafeDir(fs)
  {
  }

  /** A directory in order is safe. */
  lemma OrderIsSafe(fs: Fs)
    requires DirectoryOk(fs)
    ensures SafeDir(fs)
  {
    var es := fs.entries;
    forall i | 0 <= i < |es| ensures NamesLive(es, fs.live, i) { assert es[i] in es; }
    forall i, j | 0 <= i < |es| && 0 <= j < |es| && i != j ensures NamesApart(es, i, j) { assert D.Distinct(es, i, j); }
  }

  // ---- rows of the slot table ----

  lemma {:induction false} RowsApart(p: nat, q: nat, nfiles: nat)
    requires p < q
    ensures RowAt(p, nfiles) + nfiles <= RowAt(q, nfiles)
    decreases q
  {
    if p < q - 1 { RowsApart(p, q - 1, nfiles); }
  }

  /** Slots change only in the row of `p`, or become null; then the other rows stay free. */
  lemma RowsStay(fs: Fs, fs': Fs, p: nat)
    requires RowsOk(fs) && |fs'.slots| == |fs.slots| && fs'.nfiles == fs.nfiles
    requires fs.procs <= fs'.procs + {p} && (p in fs'.procs || RowFree(fs', p))
    requires forall i :: 0 <= i < |fs.slots| && !(RowAt(p, fs.nfiles) <= i < RowAt(p, fs.nfiles) + fs.nfiles) ==>
               fs'.slots[i] == fs.slots[i]
    ensures RowsOk(fs')
  {
    forall q: nat | q !in fs'.procs ensures RowFree(fs', q) {
      if q != p {
        assert RowFree(fs, q);
        if q < p { RowsApart(q, p, fs.nfiles); } else { RowsApart(p, q, fs.nfiles); }
      }
    }
  }

  lemma SameRows(fs: Fs, fs': Fs)
    requires RowsOk(fs) && fs'.slots == fs.slots && fs'.procs == fs.procs && fs'.nfiles == fs.nfiles
    ensures RowsOk(fs')
  {
    forall q: nat | q !in fs'.procs ensures RowFree(fs', q) { assert RowFree(fs, q); }
  }

  // ---- looking up ----

  /** In a safe directory a lookup finds nothing but live files. */
  lemma LookupLive(fs: Fs, path: seq<char>)
    requires SafeOk(fs) && Lookup(fs, path).Some?
    ensures Lookup(fs, path).value in fs.live && 0 < Lookup(fs, path).value < |fs.inodes|
  {
    var name := D.GetFileName(path).value;
    if name != [] {
      var i := D.FindNameAt(fs.entries, D.Pad(name), 0, D.Scanned(DirBytes(fs)));
      assert NamesLive(fs.entries, fs.live, i);
    }
  }

  /** What a lookup finds is a live file, under that name unless it is the root; what it does
      not find has no binding. */
  lemma LookupFacts(fs: Fs, path: seq<char>)
    requires FsOk(fs) && IsPath(path)
    ensures Lookup(fs, path).Some? ==> Lookup(fs, path).value in fs.live && 0 < Lookup(fs, path).value < |fs.inodes|
    ensures D.GetFileName(path) == Some([]) ==> Lookup(fs, path) == Some(ROOT_INODE_NR)
    ensures D.GetFileName(path) == None ==> Lookup(fs, path) == None
    ensures var name := D.GetFileName(path); name.Some? && name.value != [] ==>
              D.IsName(name.value) && Lookup(fs, path) ==
                if D.Pad(name.value) in Names(fs) then Some(Names(fs)[D.Pad(name.value)]) else None
  {
    var name := D.GetFileName(path);
    if name.Some? && name.value != [] {
      var f := D.Pad(name.value);
      assert f[0] == name.value[0];
      D.LookupRefines(fs.entries, DirBytes(fs), f);
      if f in Names(fs) { BoundIsLive(fs, f); }
    }
  }

  lemma BoundIsLive(fs: Fs, f: D.Field)
    requires DirectoryOk(fs) && f in Names(fs)
    ensures Names(fs)[f] != 0 && Names(fs)[f] in fs.live
  {
    D.BindingsOnly(fs.entries, DirLen(fs), f);
    var i :| 0 <= i < DirLen(fs) && fs.entries[i].ino != 0 && fs.entries[i].name == f;
    D.BindingsHas(fs.entries, DirLen(fs), i);
    assert fs.entries[i] in fs.entries;
  }

  /** The tables during an open: inode slot `c` carries one reference that no process slot
      accounts for yet. */
  ghost predicate Holding(fs: Fs, fs1: Fs, c: nat) {
    && c < |fs.cache| == |fs1.cache| && fs1.cache[c].cnt == fs.cache[c].cnt + 1
    && (forall e :: 0 <= e < |fs.cache| && e != c ==> fs1.cache[e].cnt == fs.cache[e].cnt)
    && fs1.descs == fs.descs && fs1.slots == fs.slots && fs1.procs == fs.procs
    && fs1.root == fs.root && fs1.nfiles == fs.nfiles && fs1.held == fs.held && fs1.held[fs1.root] > 0
    && fs1.root < |fs1.cache| && fs1.cache[fs1.root].nr == ROOT_INODE_NR && ROOT_INODE_NR < |fs1.inodes|
    && CacheOk(fs1.cache, fs1.inodes) && InodesOk(fs1) && SectorsOk(fs1)
  }

  /** The slot of a number is the root's exactly when the number is. */
  lemma SlotOfNumber(fs: Fs, cache: seq<CacheSlot>, inodes: seq<DiskInode>, c: nat)
    requires CacheOk(cache, inodes) && c < |cache| && fs.root < |cache|
    requires cache[c].cnt > 0 && cache[fs.root].cnt > 0 && cache[fs.root].nr == ROOT_INODE_NR
    ensures c == fs.root <==> cache[c].nr == ROOT_INODE_NR
  {
    assert c == fs.root || SlotsDiffer(cache, c, fs.root);
  }

  lemma GetHolds(fs: Fs, nr: nat)
    requires StateOk(fs) && nr in fs.live && 0 < nr < |fs.inodes| && GetInode(fs.cache, fs.inodes, nr).Ok?
    ensures var (cache', c) := GetInode(fs.cache, fs.inodes, nr).value;
            && Holding(fs, fs.(cache := cache'), c) && cache'[c].nr == nr
            && SameDirectory(fs, fs.(cache := cache'))
            && (c == fs.root <==> nr == ROOT_INODE_NR)
  {
    var (cache', c) := GetInode(fs.cache, fs.inodes, nr).value;
    var fs' := fs.(cache := cache');
    GetInodeAgrees(fs.cache, fs.inodes, nr);
    OneSlotLive(fs, fs', c);
    SameFilesOk(fs, fs');
    RootInUse(fs);
    assert SlotOk(fs.cache, fs.inodes, fs.root);
    SlotOfNumber(fs, cache', fs.inodes, c);
  }

  // ---- the size of the root ----

  lemma SizeRootKeeps(fs: Fs, bytes: nat)
    requires CacheOk(fs.cache, fs.inodes) && InodesOk(fs) && SectorsOk(fs)
    requires fs.root < |fs.cache| && fs.cache[fs.root].cnt > 0 && fs.cache[fs.root].nr == ROOT_INODE_NR < |fs.inodes|
    ensures var fs' := SizeRoot(fs, bytes);
            && CacheOk(fs'.cache, fs'.inodes) && InodesOk(fs') && SectorsOk(fs')
            && forall e :: 0 <= e < |fs.cache| ==>
                  fs'.cache[e].cnt == fs.cache[e].cnt && fs'.cache[e].nr == fs.cache[e].nr
  {
    var fs' := SizeRoot(fs, bytes);
    WriteThrough(fs.cache, fs.inodes, fs.root, fs'.cache[fs.root].node);
    assert SlotOk(fs.cache, fs.inodes, fs.root) && CachedLive(fs, fs.root);
    OneSlotLive(fs, fs', fs.root);
    SameFilesOk(fs, fs');
  }
}
