/** Which file system calls complete: exactly when the tables have room and, for a create, the maps. */
module FsCompletes {
  import opened Common
  import opened FsModel
  import opened FsSteps
  import opened FsFrames
  import opened FsCalls
  import opened FsNames
  import D = DirectoryModel

  // ---- room in the tables ----

  /** The cache has the inode or a slot for it. */
  predicate Cacheable(fs: Fs, nr: nat) {
    exists c :: 0 <= c < |fs.cache| && (fs.cache[c].cnt == 0 || fs.cache[c].nr == nr)
  }

  predicate DescFree(fs: Fs) {
    exists d :: 0 <= d < |fs.descs| && fs.descs[d].inode.None?
  }

  predicate FirstMissing(s: set<nat>, x: nat) {
    x !in s && forall y: nat :: y < x ==> y in s
  }

  /** The number `nr` and the sectors from bit `b` on are what a new file gets. */
  predicate FreeFor(fs: Fs, nr: nat, b: nat) {
    && FirstMissing(fs.live, nr) && nr < INODE_MAP_BITS && nr < |fs.inodes|
    && FirstMissing(fs.used, b) && b < fs.nbits && b + fs.fileSects <= fs.nbits
    && fs.used * Range(b, fs.fileSects) == {}
  }

  /** The first free number is an inode, and a file's sectors are free from the first free one on. */
  ghost predicate CanCreate(fs: Fs) {
    exists nr: nat, b: nat :: FreeFor(fs, nr, b)
  }

  /** There is a number, sectors, an entry and a cache slot for a new file. */
  ghost predicate RoomToCreate(fs: Fs)
    requires Readable(fs)
  {
    && CanCreate(fs) && D.HasRoom(fs.entries, DirLen(fs))
    && exists c :: 0 <= c < |fs.cache| && fs.cache[c].cnt == 0
  }

  lemma GetCompletes(fs: Fs, nr: nat)
    requires 0 < nr < |fs.inodes|
    ensures GetInode(fs.cache, fs.inodes, nr).Ok? <==> Cacheable(fs, nr)
  {
  }

  lemma FirstClearIs(s: set<nat>, n: nat, x: nat)
    ensures FirstClear(s, 0, n) == Some(x) <==> x < n && FirstMissing(s, x)
  {
  }

  lemma AllocateExactly(fs: Fs)
    requires 0 in fs.live && 0 in fs.used
    ensures Allocate(fs).Ok? <==> CanCreate(fs)
    ensures Allocate(fs).Ok? ==> FreeFor(fs, Allocate(fs).value.0, Allocate(fs).value.1)
  {
    if Allocate(fs).Ok? {
      var (nr, b) := Allocate(fs).value;
      FirstClearIs(fs.live, INODE_MAP_BITS, nr);
      FirstClearIs(fs.used, fs.nbits, b);
      assert FreeFor(fs, nr, b);
    }
    if nr: nat, b: nat :| FreeFor(fs, nr, b) {
      FirstClearIs(fs.live, INODE_MAP_BITS, nr);
      FirstClearIs(fs.used, fs.nbits, b);
    }
  }

  // ---- the calls ----

  /** stat stops only for want of a cache slot. */
  lemma StatCompletes(fs: Fs, path: seq<char>)
    requires SafeOk(fs)
    ensures Stat(fs, path).Ok? <==> Lookup(fs, path).None? || Cacheable(fs, Lookup(fs, path).value)
  {
    if Lookup(fs, path).Some? {
      LookupLive(fs, path);
      GetCompletes(fs, Lookup(fs, path).value);
    }
  }

  /** And so does unlink: with the directory in order its assertions hold. */
  lemma UnlinkCompletes(fs: Fs, path: seq<char>)
    requires FsOk(fs) && IsPath(path)
    ensures Unlink(fs, path).Ok? <==>
            path == "/" || Lookup(fs, path).None? || Cacheable(fs, Lookup(fs, path).value)
  {
    LookupFacts(fs, path);
    if path != "/" && Lookup(fs, path).Some? {
      var nr := Lookup(fs, path).value;
      GetCompletes(fs, nr);
      if Cacheable(fs, nr) { UnlinkGoesOn(fs, path, nr); }
    }
  }

  lemma UnlinkGoesOn(fs: Fs, path: seq<char>, nr: nat)
    requires FsOk(fs) && path != "/" && Lookup(fs, path) == Some(nr) && nr in fs.live && 0 < nr < |fs.inodes|
    requires GetInode(fs.cache, fs.inodes, nr).Ok?
    ensures Unlink(fs, path).Ok?
  {
    var (cache', c) := GetInode(fs.cache, fs.inodes, nr).value;
    GetInodeAgrees(fs.cache, fs.inodes, nr);
    assert KindOk(fs, nr) && Mapped(fs, nr);
    if !InUse(fs, nr) {
      ClearFileOk(fs, nr, cache', c);
      RemoveEntryDirectory(fs, ClearFile(fs, cache', nr, c), nr);
    }
  }

  /** What an open that is not refused needs. */
  ghost predicate RoomToOpen(fs: Fs, path: seq<char>)
    requires Readable(fs)
  {
    && DescFree(fs)
    && match Lookup(fs, path)
       case Some(nr) => Cacheable(fs, nr)
       case None => RoomToCreate(fs)
  }

  /** open stops exactly for want of a descriptor slot of the caller, of a descriptor or cache slot,
      or of a number, sectors or an entry for a new file; and on a bad path, which is an error
      with O_CREAT, for want of a descriptor or with O_TRUNC. */
  lemma OpenCompletes(fs: Fs, p: nat, path: seq<char>, creat: bool, rdwr: bool, trunc: bool)
    requires FsOk(fs) && ValidRow(fs, p) && IsPath(path)
    ensures var missing := Lookup(fs, path).None?;
            Open(fs, p, path, creat, rdwr, trunc).Ok? <==>
              && (exists i :: RowAt(p, fs.nfiles) <= i < RowAt(p, fs.nfiles) + fs.nfiles && fs.slots[i] == -1)
              && if missing && !creat then true
                 else if missing && D.GetFileName(path).None? then !trunc && DescFree(fs)
                 else if !missing && (!rdwr || (creat && !trunc)) then true
                 else RoomToOpen(fs, path)
  {
    var free := FreeSlot(fs, p);
    if free.Some? && !Refused(fs, path, creat, rdwr, trunc) {
      OpenIsInto(fs, p, free.value, path, creat, rdwr, trunc);
      OpenGoesOn(fs, free.value, path, trunc);
    }
  }

  lemma OpenGoesOn(fs: Fs, i: nat, path: seq<char>, trunc: bool)
    requires FsOk(fs) && IsPath(path) && i < |fs.slots| && (Lookup(fs, path).None? ==> D.GetFileName(path).Some?)
    ensures OpenAt(fs, i, path, trunc).Ok? <==> RoomToOpen(fs, path)
  {
    LookupFacts(fs, path);
    TargetCompletes(fs, path);
    if OpenTarget(fs, path).Ok? {
      OrderIsSafe(fs);
      TargetHolds(fs, path);
      var (fs1, c) := OpenTarget(fs, path).value;
      assert SlotOk(fs1.cache, fs1.inodes, c) && CachedLive(fs1, c) && KindOk(fs1, fs1.cache[c].nr);
    }
  }

  lemma TargetCompletes(fs: Fs, path: seq<char>)
    requires FsOk(fs) && IsPath(path) && (Lookup(fs, path).None? ==> D.GetFileName(path).Some?)
    ensures OpenTarget(fs, path).Ok? <==>
            match Lookup(fs, path)
            case Some(nr) => Cacheable(fs, nr)
            case None => RoomToCreate(fs)
  {
    LookupFacts(fs, path);
    match Lookup(fs, path)
    case Some(nr) => GetCompletes(fs, nr);
    case None => CreateCompletes(fs, D.GetFileName(path).value);
  }

  lemma CreateCompletes(fs: Fs, name: seq<char>)
    requires StateOk(fs) && Readable(fs) && D.IsName(name)
    ensures Create(fs, name).Ok? <==>
            RoomToCreate(fs)
  {
    AllocateExactly(fs);
    if Allocate(fs).Ok? {
      var nr := Allocate(fs).value.0;
      NewNumberNotCached(fs, nr);
      GetCompletes(fs, nr);
      if GetInode(fs.cache, fs.inodes, nr).Ok? { NewFileHolds(fs); }
    }
  }
}
