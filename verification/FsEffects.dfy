/** What the file system calls do for their callers, beside keeping the invariant. */
module FsEffects {
  import opened Common
  import opened FsModel
  import opened FsSteps
  import opened FsFrames
  import opened FsCalls
  import opened FsNames
  import D = DirectoryModel

  // ---- open ----

  /** Process slot `i` leads, through a descriptor of its own at position 0, to the inode `nr`. */
  predicate LeadsTo(fs: Fs, i: nat, nr: nat) {
    && i < |fs.slots| && 0 <= fs.slots[i] < |fs.descs|
    && var d := fs.descs[fs.slots[i]];
       d.cnt == 1 && d.pos == 0 && d.inode.Some? && d.inode.value < |fs.cache|
       && fs.cache[d.inode.value].cnt > 0 && fs.cache[d.inode.value].nr == nr
  }

  /** No inode but `nr` and the size of the root has changed. */
  predicate OnlyInode(fs: Fs, fs': Fs, nr: nat) {
    && |fs'.inodes| == |fs.inodes| && 0 < nr < |fs.inodes|
    && forall x :: 0 <= x < |fs.inodes| && x != nr ==>
         fs'.inodes[x] == if x == ROOT_INODE_NR then fs.inodes[x].(size := fs'.inodes[x].size) else fs.inodes[x]
  }

  /** The names are those of `fs`, with the file `nr` under its own name if it was missing. */
  predicate NamesMeant(fs: Fs, fs': Fs, path: seq<char>, nr: nat)
    requires Readable(fs) && fs'.root < |fs'.cache| && DirLen(fs') <= |fs'.entries|
  {
    var names, name := D.Bindings(fs'.entries, DirLen(fs')), D.GetFileName(path);
    if Lookup(fs, path).Some? then names == Names(fs) else name.Some? && names == Names(fs)[D.Pad(name.value) := nr]
  }

  /** The file an open works on: found, or created empty under a number that was free. */
  ghost predicate Reached(fs: Fs, fs1: Fs, c: nat, path: seq<char>, nr: nat)
    requires Readable(fs)
  {
    && Holding(fs, fs1, c) && fs1.cache[c].nr == nr && OnlyInode(fs, fs1, nr)
    && (if Lookup(fs, path).Some? then Lookup(fs, path) == Some(nr) && fs1.inodes == fs.inodes
        else nr !in fs.live && fs1.inodes[nr].kind == Regular && fs1.inodes[nr].size == 0)
  }

  lemma TargetReached(fs: Fs, path: seq<char>) returns (nr: nat)
    requires FsOk(fs) && IsPath(path) && OpenTarget(fs, path).Ok?
    ensures Reached(fs, OpenTarget(fs, path).value.0, OpenTarget(fs, path).value.1, path, nr)
  {
    OrderIsSafe(fs);
    TargetHolds(fs, path);
    LookupFacts(fs, path);
    if Lookup(fs, path).Some? {
      nr := Lookup(fs, path).value;
    } else {
      nr := Allocate(fs).value.0;
      CreateReached(fs, D.GetFileName(path).value);
    }
  }

  lemma CreateReached(fs: Fs, name: seq<char>)
    requires StateOk(fs) && Readable(fs) && D.IsName(name) && Create(fs, name).Ok?
    ensures var (fs1, c) := Create(fs, name).value; var nr := Allocate(fs).value.0;
            && Allocate(fs).Ok? && nr !in fs.live && fs1.cache[c].nr == nr && OnlyInode(fs, fs1, nr)
            && fs1.inodes[nr].kind == Regular && fs1.inodes[nr].size == 0
  {
    NewFileHolds(fs);
    CreateHolds(fs, name);
    RootInUse(fs);
    assert SlotOk(fs.cache, fs.inodes, fs.root);
  }

  /** From `fs` to `fs'`, slot `i` was free and now leads to file `nr`, found under that path or
      created under a free number, and emptied if O_TRUNC asked for it; no other slot or inode
      has changed, but for the size of the root. */
  predicate Opened(fs: Fs, fs': Fs, i: nat, path: seq<char>, nr: nat, trunc: bool)
    requires Readable(fs)
  {
    && i < |fs.slots| && fs.slots[i] == -1 && LeadsTo(fs', i, nr) && fs'.slots == fs.slots[i := fs'.slots[i]]
    && OnlyInode(fs, fs', nr) && (if Lookup(fs, path).Some? then Lookup(fs, path) == Some(nr) else nr !in fs.live)
    && fs'.inodes[nr].size == (if trunc || Lookup(fs, path).None? then 0 else fs.inodes[nr].size)
  }

  lemma ConnectLeads(fs: Fs, fs1: Fs, i: nat, c: nat)
    requires Holding(fs, fs1, c) && i < |fs1.slots| && Connect(fs1, i, c).Ok?
    ensures var fs2 := Connect(fs1, i, c).value;
            LeadsTo(fs2, i, fs1.cache[c].nr) && fs2.slots == fs1.slots[i := fs2.slots[i]] && fs2.inodes == fs1.inodes
  {
  }

  lemma FinishOpened(fs: Fs, fs1: Fs, i: nat, c: nat, path: seq<char>, nr: nat, trunc: bool)
    requires Readable(fs) && Reached(fs, fs1, c, path, nr) && i < |fs.slots| && fs.slots[i] == -1
    requires FinishOpen(fs1, i, c, trunc).Ok?
    ensures Opened(fs, FinishOpen(fs1, i, c, trunc).value, i, path, nr, trunc)
  {
    assert SlotOk(fs1.cache, fs1.inodes, c);
    if trunc {
      ResizeHolds(fs, fs1, c, 0);
      ConnectLeads(fs, Resize(fs1, c, 0), i, c);
    } else {
      ConnectLeads(fs, fs1, i, c);
    }
  }

  /** The names after an open are as meant exactly when it does not damage the directory. */
  lemma OpenNames(fs: Fs, fs1: Fs, fs2: Fs, i: nat, c: nat, path: seq<char>, nr: nat, creat: bool, rdwr: bool,
                  trunc: bool)
    requires FsOk(fs) && IsPath(path) && !Refused(fs, path, creat, rdwr, trunc) && OpenTarget(fs, path) == Ok((fs1, c))
    requires AfterFinish(fs1, fs2, i, c, trunc) && fs1.cache[c].nr == nr
    ensures DirLen(fs2) <= |fs2.entries|
    ensures NamesMeant(fs, fs2, path, nr) <==> !LosingOpen(fs, path, creat, rdwr, trunc)
  {
    OrderIsSafe(fs);
    TargetHolds(fs, path);
    LookupFacts(fs, path);
    if Lookup(fs, path).None? {
      CreateHolds(fs, D.GetFileName(path).value);
      CreateDirectory(fs, D.GetFileName(path).value);
    } else if trunc && c == fs.root {
      RootIsNamed(fs);
    }
  }

  /** A well-formed directory names the root, so it is not empty. */
  lemma RootIsNamed(fs: Fs)
    requires FsOk(fs)
    ensures Names(fs) != map[]
  {
    assert ROOT_INODE_NR in D.Inos(fs.entries);
    var e :| e in fs.entries && e.ino == ROOT_INODE_NR;
    var i :| 0 <= i < |fs.entries| && fs.entries[i] == e;
    D.BindingsHas(fs.entries, DirLen(fs), i);
  }

  /** Slot `i` is opened for the file of that path, and the names come out as meant if and only
      if the open does not truncate the root or create a name that does not fit. */
  predicate OpenEffect(fs: Fs, fs': Fs, i: nat, path: seq<char>, nr: nat, creat: bool, rdwr: bool, trunc: bool)
    requires Readable(fs)
  {
    && Opened(fs, fs', i, path, nr, trunc) && fs'.root < |fs'.cache| && DirLen(fs') <= |fs'.entries|
    && (NamesMeant(fs, fs', path, nr) <==> !LosingOpen(fs, path, creat, rdwr, trunc))
  }

  /** What do_open does. It returns -1, and changes nothing, for a missing file without O_CREAT or
      under a path without a file name, and for an existing one without O_RDWR or with O_CREAT
      and no O_TRUNC. Otherwise the caller's slot `i` leads to the file of that name. */
  lemma OpenOpens(fs: Fs, p: nat, path: seq<char>, creat: bool, rdwr: bool, trunc: bool, fs': Fs, fd: int)
    returns (i: nat, nr: nat)
    requires FsOk(fs) && p in fs.procs && ValidRow(fs, p) && IsPath(path)
    requires Open(fs, p, path, creat, rdwr, trunc) == Ok((fs', fd))
    ensures var missing := Lookup(fs, path).None?;
            if (missing && (!creat || D.GetFileName(path).None?)) || (!missing && (!rdwr || (creat && !trunc)))
            then fd == -1 && fs' == fs
            else && 0 <= fd < fs.nfiles && i == RowAt(p, fs.nfiles) + fd
                 && OpenEffect(fs, fs', i, path, nr, creat, rdwr, trunc)
  {
    i, nr := 0, 0;
    if Refused(fs, path, creat, rdwr, trunc) {
      OpenRefused(fs, p, path, creat, rdwr, trunc);
    } else {
      i := OpenShape(fs, p, path, creat, rdwr, trunc);
      nr := OpenedAt(fs, i, path, creat, rdwr, trunc);
    }
  }

  lemma OpenedAt(fs: Fs, i: nat, path: seq<char>, creat: bool, rdwr: bool, trunc: bool) returns (nr: nat)
    requires FsOk(fs) && IsPath(path) && !Refused(fs, path, creat, rdwr, trunc)
    requires i < |fs.slots| && fs.slots[i] == -1 && OpenAt(fs, i, path, trunc).Ok?
    ensures OpenEffect(fs, OpenAt(fs, i, path, trunc).value, i, path, nr, creat, rdwr, trunc)
  {
    var (fs1, c) := OpenTarget(fs, path).value;
    nr := TargetReached(fs, path);
    FinishOpened(fs, fs1, i, c, path, nr, trunc);
    FinishOk(fs, fs1, i, c, trunc);
    OpenNames(fs, fs1, FinishOpen(fs1, i, c, trunc).value, i, c, path, nr, creat, rdwr, trunc);
  }

  /** In an empty directory no name is found, not even the root's own. */
  lemma EmptyLookups(fs: Fs, other: seq<char>)
    requires InodesOk(fs) && Readable(fs) && DirBytes(fs) == 0
    ensures !DirectoryOk(fs) && (D.GetFileName(other) != Some([]) ==> Lookup(fs, other) == None)
  {
    EmptyDirectory(fs);
  }

  /** Opening the root with O_RDWR and O_TRUNC, as "/", "", "." or "/.", completes and keeps cache,
      counts and maps; from then on no name is found any more. */
  lemma TruncatedRootLosesAll(fs: Fs, p: nat, path: seq<char>, creat: bool, other: seq<char>)
    requires SafeOk(fs) && p in fs.procs && ValidRow(fs, p) && Lookup(fs, path) == Some(ROOT_INODE_NR)
    requires Open(fs, p, path, creat, true, true).Ok?
    ensures var (fs', fd) := Open(fs, p, path, creat, true, true).value;
            && fd != -1 && SafeOk(fs') && !DirectoryOk(fs')
            && (D.GetFileName(other) != Some([]) ==> Lookup(fs', other) == None)
  {
    OpenCore(fs, p, path, creat, true, true);
    var i := OpenShape(fs, p, path, creat, true, true);
    RootEmptied(fs, i, path);
    EmptyLookups(Open(fs, p, path, creat, true, true).value.0, other);
  }

  lemma RootEmptied(fs: Fs, i: nat, path: seq<char>)
    requires SafeOk(fs) && Lookup(fs, path) == Some(ROOT_INODE_NR)
    requires i < |fs.slots| && fs.slots[i] == -1 && OpenAt(fs, i, path, true).Ok?
    ensures var fs' := OpenAt(fs, i, path, true).value; fs'.root < |fs'.cache| && DirBytes(fs') == 0
  {
    var (fs1, c) := OpenTarget(fs, path).value;
    TargetHolds(fs, path);
    FinishOk(fs, fs1, i, c, true);
  }

  // ---- unlink and stat ----

  /** A successful unlink frees the number and the sectors of the file and clears its inode; beside
      that only the directory and the size of the root have changed, and no count. */
  lemma UnlinkRemoves(fs: Fs, path: seq<char>)
    requires SafeOk(fs) && Unlink(fs, path).Ok? && Unlink(fs, path).value.1 == 0
    ensures Lookup(fs, path).Some?
    ensures var fs', nr := Unlink(fs, path).value.0, Lookup(fs, path).value;
            && nr in fs.live && OnlyInode(fs, fs', nr) && fs.inodes[nr].kind == Regular && fs'.inodes[nr] == CLEARED
            && fs'.live == fs.live - {nr} && fs'.used == fs.used - Extent(fs.inodes[nr], fs.firstData)
            && fs'.descs == fs.descs && fs'.slots == fs.slots && fs'.procs == fs.procs && fs'.held == fs.held
            && SameCnt(fs.cache, fs'.cache)
  {
    var cache', c := UnlinkParts(fs, path);
    var nr := Lookup(fs, path).value;
    ClearFileOk(fs, nr, cache', c);
    ClearedInodes(fs, ClearFile(fs, cache', nr, c), nr);
  }

  /** A successful unlink goes through all of do_unlink, on an idle regular file. */
  lemma UnlinkParts(fs: Fs, path: seq<char>) returns (cache': seq<CacheSlot>, c: nat)
    requires SafeOk(fs) && Unlink(fs, path).Ok? && Unlink(fs, path).value.1 == 0
    ensures Lookup(fs, path).Some? && Lookup(fs, path).value in fs.live && 0 < Lookup(fs, path).value < |fs.inodes|
    ensures var nr := Lookup(fs, path).value;
            && !InUse(fs, nr) && nr != ROOT_INODE_NR && GetInode(fs.cache, fs.inodes, nr) == Ok((cache', c))
            && c < |cache'| && cache'[c].cnt > 0
            && var fs1 := ClearFile(fs, cache', nr, c);
               Readable(fs1) && RemoveEntry(fs1, nr).Ok? && Unlink(fs, path) == Ok((RemoveEntry(fs1, nr).value, 0))
  {
    LookupLive(fs, path);
    var nr := Lookup(fs, path).value;
    cache', c := GetInode(fs.cache, fs.inodes, nr).value.0, GetInode(fs.cache, fs.inodes, nr).value.1;
    GetInodeAgrees(fs.cache, fs.inodes, nr);
    assert KindOk(fs, nr);
  }

  lemma ClearedInodes(fs: Fs, fs1: Fs, nr: nat)
    requires 0 < nr < |fs.inodes| && nr != ROOT_INODE_NR < |fs.inodes| && fs1.inodes == fs.inodes[nr := CLEARED]
    requires StateOk(fs1) && Readable(fs1) && RemoveEntry(fs1, nr).Ok?
    ensures var fs2 := RemoveEntry(fs1, nr).value; OnlyInode(fs, fs2, nr) && fs2.inodes[nr] == CLEARED
    ensures SameCnt(fs1.cache, RemoveEntry(fs1, nr).value.cache)
  {
    RootInUse(fs1);
    assert SlotOk(fs1.cache, fs1.inodes, fs1.root);
  }

  predicate SameCnt(a: seq<CacheSlot>, b: seq<CacheSlot>) {
    |b| == |a| && forall c :: 0 <= c < |a| ==> b[c].cnt == a[c].cnt
  }

  /** stat finds exactly the files that open finds, and changes no count and no other table. */
  lemma StatLeaves(fs: Fs, path: seq<char>)
    requires SafeOk(fs) && Stat(fs, path).Ok?
    ensures var (fs', ret) := Stat(fs, path).value;
            && ret == (if Lookup(fs, path).Some? then 0 else -1)
            && fs' == fs.(cache := fs'.cache) && SameCnt(fs.cache, fs'.cache)
  {
    if Lookup(fs, path).Some? {
      LookupLive(fs, path);
      GetInodeAgrees(fs.cache, fs.inodes, Lookup(fs, path).value);
    }
  }

  /** Why an entry must not lead to a dead inode: an unlink of that name that completes has cached
      it, refused to remove it, and left the dead inode referenced. */
  lemma DeadNameBreaksCache(fs: Fs, path: seq<char>)
    requires CoreOk(fs) && Readable(fs) && path != "/" && Unlink(fs, path).Ok?
    requires Lookup(fs, path).Some? && Lookup(fs, path).value !in fs.live
    ensures !InodesOk(Unlink(fs, path).value.0)
  {
    var nr := Lookup(fs, path).value;
    GetInodeAgrees(fs.cache, fs.inodes, nr);
    var c := GetInode(fs.cache, fs.inodes, nr).value.1;
    assert !CachedLive(Unlink(fs, path).value.0, c);
  }

  // ---- reading the root ----

  /** Inode `nr` has a new size, on disk and where it is cached; no other inode and no count has changed. */
  predicate OnlySize(fs: Fs, fs': Fs, c: nat, size: nat)
    requires c < |fs.cache| && fs.cache[c].nr < |fs.inodes|
  {
    var nr := fs.cache[c].nr;
    && fs'.inodes == fs.inodes[nr := fs.inodes[nr].(size := size)]
    && fs'.cache == fs.cache[c := fs.cache[c].(node := fs.inodes[nr].(size := size))]
  }

  /** A read or write that ends at position `pos` leaves the descriptor there and makes the file's
      size the larger of the old size and `pos`; on a terminal it changes nothing. No other
      descriptor, inode or table has changed. */
  lemma TransferMoves(fs: Fs, i: nat, pos: nat)
    requires CoreOk(fs) && i < |fs.slots| && fs.slots[i] != -1
    ensures Transfer(fs, i, pos).Ok?
    ensures var fs', d := Transfer(fs, i, pos).value, fs.slots[i];
            && 0 <= d < |fs.descs| && fs.descs[d].inode.Some? && fs.descs[d].inode.value < |fs.cache|
            && var c := fs.descs[d].inode.value;
               && 0 < fs.cache[c].nr < |fs.inodes|
               && var node := fs.inodes[fs.cache[c].nr];
                  if node.kind == CharSpecial then fs' == fs
                  else && fs' == fs.(descs := fs.descs[d := fs.descs[d].(pos := pos)], cache := fs'.cache,
                                     inodes := fs'.inodes)
                       && OnlySize(fs, fs', c, if pos > node.size then pos else node.size)
  {
    SlotIsCounted(fs.cache, fs.descs, fs.slots, fs.held, i);
    assert SlotOk(fs.cache, fs.inodes, fs.descs[fs.slots[i]].inode.value);
  }

  /** A read of the root that ends within its sectors, on an entry boundary or not, makes the
      directory larger but leaves every name and every lookup as it was. */
  lemma TransferKeepsLookups(fs: Fs, i: nat, pos: nat, path: seq<char>)
    requires FsOk(fs) && i < |fs.slots| && Transfer(fs, i, pos).Ok? && !SpoilingTransfer(fs, i, pos) && IsPath(path)
    ensures var fs' := Transfer(fs, i, pos).value;
            Readable(fs') && Names(fs') == Names(fs) && Lookup(fs', path) == Lookup(fs, path)
  {
    var fs' := Transfer(fs, i, pos).value;
    OrderIsSafe(fs);
    TransferCore(fs, i, pos);
    TransferDirectory(fs, i, pos);
    TransferShape(fs, i, pos);
    SameNames(fs, fs');
    LookupFacts(fs, path);
    LookupFacts(fs', path);
  }

  lemma SameNames(fs: Fs, fs': Fs)
    requires DirectoryOk(fs) && DirectoryOk(fs') && fs'.entries == fs.entries && DirBytes(fs') >= DirBytes(fs)
    ensures Names(fs') == Names(fs)
  {
    D.BindingsTail(fs.entries, DirLen(fs), DirLen(fs'));
  }

  /** A read of the root that ends beyond its sectors: the size follows, and from then on a lookup
      of a name that is not bound scans `foreign`, whatever lies on disk behind the directory; an
      entry there with that name is taken for the file. */
  lemma StretchedRootReadsForeign(fs: Fs, i: nat, pos: nat, path: seq<char>, foreign: seq<D.Entry>)
    requires FsOk(fs) && i < |fs.slots| && Transfer(fs, i, pos).Ok? && SpoilingTransfer(fs, i, pos) && IsPath(path)
    requires D.GetFileName(path).Some? && D.GetFileName(path).value != [] && Lookup(fs, path) == None
    requires foreign != [] && foreign[0].name == D.Pad(D.GetFileName(path).value)
    requires D.Scanned(pos) <= |fs.entries| + |foreign|
    ensures var fs' := Transfer(fs, i, pos).value;
            && fs'.root < |fs'.cache| && DirBytes(fs') == pos && fs'.entries == fs.entries
            && D.FindName(fs'.entries + foreign, foreign[0].name, 0, D.Scanned(DirBytes(fs'))) == foreign[0].ino
  {
    TransferShape(fs, i, pos);
    LookupFacts(fs, path);
    assert foreign[0].name[0] == D.GetFileName(path).value[0];
    D.ForeignEntryFound(fs.entries, DirLen(fs), foreign, pos, foreign[0].name);
  }

  // ---- the directory has room ----

  lemma {:induction false} InosCount(es: seq<D.Entry>, k: nat)
    requires k <= |es| && forall i :: 0 <= i < k ==> es[i].ino != 0
    requires forall i, j {:trigger D.Distinct(es, i, j)} :: 0 <= i < |es| && 0 <= j < |es| && i != j ==>
          D.Distinct(es, i, j)
    ensures |D.Inos(es[..k])| == k
  {
    if k > 0 {
      InosCount(es, k - 1);
      var a, b := D.Inos(es[..k - 1]), D.Inos(es[..k]);
      assert es[..k] == es[..k - 1] + [es[k - 1]];
      forall e | e in es[..k - 1] ensures e.ino != es[k - 1].ino {
        var i :| 0 <= i < k - 1 && es[i] == e;
        assert D.Distinct(es, i, k - 1);
      }
      assert b == a + {es[k - 1].ino};
    }
  }

  /** Numbers below `n` that miss one of them are fewer than `n`. */
  lemma {:induction false} Missing(s: set<nat>, n: nat, x: nat)
    requires x < n && x !in s && forall y :: y in s ==> y < n
    ensures |s| < n
    decreases n
  {
    if n - 1 in s {
      Missing(s - {n - 1}, n - 1, x);
    } else if x < n - 1 {
      Missing(s, n - 1, x);
    } else if s != {} {
      var y :| y in s;
      Missing(s - {y}, n - 1, y);
    }
  }

  /** With no more inodes than directory entries, a create that finds a free number finds room
      for its entry: the directory never outgrows its sectors. */
  lemma RoomForName(fs: Fs)
    requires FsOk(fs) && Allocate(fs).Ok? && |fs.inodes| <= |fs.entries|
    ensures D.HasRoom(fs.entries, DirLen(fs)) && !Overgrows(fs.entries, DirBytes(fs))
  {
    var nr, inos := Allocate(fs).value.0, D.Inos(fs.entries);
    forall y | y in inos + {0} ensures y < |fs.inodes| { assert y in fs.live; }
    assert nr !in fs.live;
    Missing(inos + {0}, |fs.inodes|, nr);
    FullDirectory(fs.entries, DirBytes(fs));
  }

  /** A directory without room, or about to outgrow its sectors, has all entries but one in use. */
  lemma FullDirectory(es: seq<D.Entry>, bytes: nat)
    requires D.DirOk(es, bytes / D.DIR_ENTRY_SIZE)
    ensures (D.HasRoom(es, bytes / D.DIR_ENTRY_SIZE) && !Overgrows(es, bytes)) || |D.Inos(es)| + 1 >= |es|
  {
    var n := bytes / D.DIR_ENTRY_SIZE;
    if D.FreeEntry(es, 0, n) == n && n + 1 >= |es| {
      InosCount(es, n);
      var a, b := D.Inos(es[..n]), D.Inos(es);
      assert a <= b && b == a + (b - a);
    }
  }

  // ---- fork and exit ----

  /** Fork then exit of the child gives back the slot table, the processes in use, the files and
      the directory, with exact counts. */
  lemma ForkThenExit(fs: Fs, parent: nat, child: nat)
    requires FsOk(fs) && child !in fs.procs && ValidRow(fs, parent) && ValidRow(fs, child)
    ensures Fork(fs, parent, child).Ok? && ValidRow(Fork(fs, parent, child).value, child)
    ensures Exit(Fork(fs, parent, child).value, child).Ok?
    ensures var g := Exit(Fork(fs, parent, child).value, child).value;
            FsOk(g) && g == fs.(cache := g.cache, descs := g.descs)
  {
    assert RowFree(fs, child);
    ForkOk(fs, parent, child);
    ForkShares(fs, parent, child);
    var f := Fork(fs, parent, child).value;
    ExitOk(f, child);
    SameDirectoryOk(fs, f);
    SameDirectoryOk(f, Exit(f, child).value);
    ForkUndone(fs, f, parent, child);
  }

  lemma ForkUndone(fs: Fs, f: Fs, parent: nat, child: nat)
    requires StateOk(f) && child !in fs.procs && ValidRow(fs, parent) && ValidRow(fs, child) && ValidRow(f, child)
    requires Inherits(fs, f, parent, child) && RowFree(fs, child)
    requires OnlyCounts(fs.(slots := f.slots, procs := fs.procs + {child}), f)
    ensures Exit(f, child).Ok?
    ensures var g := Exit(f, child).value; g == fs.(cache := g.cache, descs := g.descs)
  {
    var a := RowAt(child, fs.nfiles);
    ExitDropsAll(f, a, a + fs.nfiles);
    var g := Exit(f, child).value;
    var e := a + fs.nfiles;
    forall j | 0 <= j < |fs.slots| ensures MaskAt(fs.slots, f.slots, a, e, j) {
      assert f.slots[j] == fs.slots[j] || a <= j < e;
    }
    SameMask(g.slots, fs.slots, f.slots, a, a + fs.nfiles);
    assert f.procs - {child} == fs.procs;
  }

  lemma SameMask(m: seq<int>, m': seq<int>, slots: seq<int>, i: nat, e: nat)
    requires Masks(m, slots, i, e) && Masks(m', slots, i, e)
    ensures m == m'
  {
    forall j | 0 <= j < |m| ensures m[j] == m'[j] { assert MaskAt(m, slots, i, e, j) && MaskAt(m', slots, i, e, j); }
  }
}
