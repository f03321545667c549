/** The file system calls as steps over the tables of FsModel, and what every run keeps. */
module FsSteps {
  import opened Common
  import opened FsModel
  import D = DirectoryModel

  /** The bits that stand for the sectors of an inode. */
  function Extent(node: DiskInode, firstData: nat): (s: set<nat>) {
    if (node.kind == Regular || node.kind == Directory) && node.start >= firstData
    then Range(node.start + 1 - firstData, node.nsects) else {}
  }

  function Range(a: nat, n: nat): (s: set<nat>)
    ensures forall i: nat :: i in s <==> a <= i < a + n
  {
    if n == 0 then {} else Range(a, n - 1) + {a + n - 1}
  }

  /** The first number from `i` on, below `n`, that is not in `s`. */
  function FirstClear(s: set<nat>, i: nat, n: nat): (r: Option<nat>)
    requires i <= n
    ensures r.Some? ==> i <= r.value < n && r.value !in s && forall j: nat :: i <= j < r.value ==> j in s
    ensures r.None? ==> forall j: nat :: i <= j < n ==> j in s
    decreases n - i
  {
    if i == n then None else if i !in s then Some(i) else FirstClear(s, i + 1, n)
  }

  function FirstNull(slots: seq<int>, i: nat, e: nat): (r: Option<nat>)
    requires i <= e <= |slots|
    ensures r.Some? ==> i <= r.value < e && slots[r.value] == -1
    ensures r.None? ==> forall j :: i <= j < e ==> slots[j] != -1
    decreases e - i
  {
    if i == e then None else if slots[i] == -1 then Some(i) else FirstNull(slots, i + 1, e)
  }

  function FirstFreeDesc(descs: seq<Desc>, i: nat): (r: Option<nat>)
    requires i <= |descs|
    ensures r.Some? ==> i <= r.value < |descs| && descs[r.value].inode.None?
    ensures r.None? ==> forall j :: i <= j < |descs| ==> descs[j].inode.Some?
    decreases |descs| - i
  {
    if i == |descs| then None else if descs[i].inode.None? then Some(i) else FirstFreeDesc(descs, i + 1)
  }

  // ---- the root directory ----

  function DirBytes(fs: Fs): nat
    requires fs.root < |fs.cache|
  {
    fs.cache[fs.root].node.size
  }

  /** The number of entries that the size of the root's inode allows. */
  function DirLen(fs: Fs): nat
    requires fs.root < |fs.cache|
  {
    DirBytes(fs) / D.DIR_ENTRY_SIZE
  }

  predicate Readable(fs: Fs) {
    && fs.root < |fs.cache| && ROOT_INODE_NR < |fs.inodes|
    && DirLen(fs) <= |fs.entries| && D.Scanned(DirBytes(fs)) <= |fs.entries|
  }

  /** The map from padded names to inode numbers that the directory stands for. */
  function Names(fs: Fs): map<D.Field, nat>
    requires Readable(fs)
  {
    D.Bindings(fs.entries, DirLen(fs))
  }

  /** Paths are strings as C has them. */
  predicate IsPath(path: seq<char>) { '\0' !in path }

  /** get_file_inode_nr: the scan over the directory; a path without a name is the root itself. */
  function Lookup(fs: Fs, path: seq<char>): Option<nat>
    requires Readable(fs)
  {
    match D.GetFileName(path)
    case None => None
    case Some(name) =>
      if name == [] then Some(fs.cache[fs.root].nr) else
      var nr := D.FindName(fs.entries, D.Pad(name), 0, D.Scanned(DirBytes(fs)));
      if nr == 0 then None else Some(nr)
  }

  // ---- well-formed states ----

  /** The entries of a directory of that size are well formed and name exactly the live inodes. */
  predicate Listed(es: seq<D.Entry>, bytes: nat, live: set<nat>) {
    && |es| % D.PER_SECTOR == 0 && D.DirOk(es, bytes / D.DIR_ENTRY_SIZE) && D.Scanned(bytes) <= |es|
    && live == {0} + D.Inos(es)
  }

  predicate DirectoryOk(fs: Fs) {
    Readable(fs) && Listed(fs.entries, DirBytes(fs), fs.live)
  }

  /** A new entry would go behind all others and take the size past the directory's sectors. */
  predicate Overgrows(es: seq<D.Entry>, bytes: nat)
    requires bytes / D.DIR_ENTRY_SIZE <= |es|
  {
    && D.FreeEntry(es, 0, bytes / D.DIR_ENTRY_SIZE) == bytes / D.DIR_ENTRY_SIZE
    && bytes + D.DIR_ENTRY_SIZE > |es| * D.DIR_ENTRY_SIZE
  }

  /** Live numbers lie in the inode array, the root is live, cached inodes are live. */
  predicate InodesOk(fs: Fs) {
    && (forall nr: nat {:trigger nr in fs.live} :: nr in fs.live ==> nr < |fs.inodes|)
    && 0 in fs.live && ROOT_INODE_NR in fs.live
    && (forall c {:trigger CachedLive(fs, c)} :: 0 <= c < |fs.cache| ==> CachedLive(fs, c))
    && (forall nr: nat {:trigger KindOk(fs, nr)} :: nr in fs.live && 0 < nr < |fs.inodes| ==> KindOk(fs, nr))
  }

  predicate CachedLive(fs: Fs, c: nat)
    requires c < |fs.cache|
  {
    fs.cache[c].cnt > 0 ==> fs.cache[c].nr in fs.live
  }

  /** A live inode has a type, and only the root is a directory. */
  predicate KindOk(fs: Fs, nr: nat)
    requires nr < |fs.inodes|
  {
    fs.inodes[nr].kind != Unused && (fs.inodes[nr].kind == Directory <==> nr == ROOT_INODE_NR)
  }

  predicate Apart(fs: Fs, a: nat, b: nat)
    requires a < |fs.inodes| && b < |fs.inodes|
  {
    Extent(fs.inodes[a], fs.firstData) !! Extent(fs.inodes[b], fs.firstData)
  }

  /** The extent of a live file starts in the data area and all its bits are set. */
  predicate Mapped(fs: Fs, nr: nat)
    requires nr < |fs.inodes|
  {
    && (fs.inodes[nr].kind == Regular || fs.inodes[nr].kind == Directory ==> fs.firstData <= fs.inodes[nr].start)
    && Extent(fs.inodes[nr], fs.firstData) <= fs.used
  }

  /** Bit `n` stands for a sector of some live file. */
  ghost predicate Owned(fs: Fs, n: nat) {
    exists nr: nat :: nr in fs.live && 0 < nr < |fs.inodes| && n in Extent(fs.inodes[nr], fs.firstData)
  }

  /** The set bits of the sector map are bit 0 and the extents of the live files, which are
      pairwise disjoint, lie inside the map and start no lower than the first data sector. */
  ghost predicate SectorsOk(fs: Fs) {
    && (forall a: nat, b: nat {:trigger Apart(fs, a, b)} ::
          a in fs.live && b in fs.live && 0 < a < |fs.inodes| && 0 < b < |fs.inodes| && a != b ==> Apart(fs, a, b))
    && (forall nr: nat {:trigger Mapped(fs, nr)} :: nr in fs.live && 0 < nr < |fs.inodes| ==> Mapped(fs, nr))
    && (forall n: nat {:trigger Owned(fs, n)} :: n in fs.used && n != 0 ==> Owned(fs, n))
    && (forall n: nat {:trigger n in fs.used} :: n in fs.used ==> n < fs.nbits)
    && 0 in fs.used
  }

  ghost predicate TablesOk(fs: Fs) {
    && CacheOk(fs.cache, fs.inodes)
    && CountsOk(fs.cache, fs.descs, fs.slots, fs.held)
    && fs.root < |fs.cache| && fs.cache[fs.root].nr == ROOT_INODE_NR && fs.held[fs.root] > 0
    && ROOT_INODE_NR < |fs.inodes|
  }

  /** Where the row of process `p` starts: p * nfiles. */
  function RowAt(p: nat, nfiles: nat): nat {
    if p == 0 then 0 else RowAt(p - 1, nfiles) + nfiles
  }

  predicate ValidRow(fs: Fs, p: nat) {
    RowAt(p, fs.nfiles) + fs.nfiles <= |fs.slots|
  }

  /** The descriptor slots of `p` are all null. */
  predicate RowFree(fs: Fs, p: nat) {
    forall i :: RowAt(p, fs.nfiles) <= i < RowAt(p, fs.nfiles) + fs.nfiles && i < |fs.slots| ==> fs.slots[i] == -1
  }

  /** Only processes in use have descriptors. */
  ghost predicate RowsOk(fs: Fs) {
    forall p: nat {:trigger RowFree(fs, p)} :: p !in fs.procs ==> RowFree(fs, p)
  }

  ghost predicate StateOk(fs: Fs) {
    TablesOk(fs) && InodesOk(fs) && SectorsOk(fs)
  }

  /** Everything but the names: cache, counts, inode map, sector map and descriptor rows. */
  ghost predicate CoreOk(fs: Fs) {
    StateOk(fs) && RowsOk(fs)
  }

  ghost predicate FsOk(fs: Fs) {
    CoreOk(fs) && DirectoryOk(fs)
  }

  /** Entry `i` names no dead inode. */
  predicate NamesLive(es: seq<D.Entry>, live: set<nat>, i: nat)
    requires i < |es|
  {
    es[i].ino != 0 ==> es[i].ino in live
  }

  predicate NamesApart(es: seq<D.Entry>, i: nat, j: nat)
    requires i < |es| && j < |es|
  {
    es[i].ino != 0 ==> es[i].ino != es[j].ino
  }

  /** Entries in use name live inodes, each another one. */
  predicate NamesSafe(es: seq<D.Entry>, live: set<nat>) {
    && (forall i {:trigger NamesLive(es, live, i)} :: 0 <= i < |es| ==> NamesLive(es, live, i))
    && (forall i, j {:trigger NamesApart(es, i, j)} :: 0 <= i < |es| && 0 <= j < |es| && i != j ==>
          NamesApart(es, i, j))
  }

  /** What is left of the directory's order when names get lost: the scan stays inside its sectors,
      and no two entries in use lead to one file, and none to a dead one. */
  predicate Safe(es: seq<D.Entry>, bytes: nat, live: set<nat>) {
    && |es| % D.PER_SECTOR == 0 && bytes / D.DIR_ENTRY_SIZE <= |es| && D.Scanned(bytes) <= |es| && NamesSafe(es, live)
  }

  predicate SafeDir(fs: Fs) {
    Readable(fs) && Safe(fs.entries, DirBytes(fs), fs.live)
  }

  /** The invariant of all runs, lost names and leaked references included. */
  ghost predicate SafeOk(fs: Fs) {
    CoreOk(fs) && SafeDir(fs)
  }

  // ---- creating and removing files ----

  /** The inode and sector part of create_file: number `nr`, sectors from bit `b` on, slot `c`. */
  function NewFile(fs: Fs, cache: seq<CacheSlot>, nr: nat, b: nat, c: nat): Fs
    requires nr < |fs.inodes| && c < |cache| && b + fs.firstData > 0
  {
    var node := DiskInode(Regular, 0, b - 1 + fs.firstData, fs.fileSects);
    fs.(cache := cache[c := CacheSlot(1, nr, node)], inodes := fs.inodes[nr := node],
        live := fs.live + {nr}, used := fs.used + Range(b, fs.fileSects))
  }

  /** The root's inode gets a new size, in the cache and on disk. */
  function SizeRoot(fs: Fs, bytes: nat): Fs
    requires fs.root < |fs.cache| && ROOT_INODE_NR < |fs.inodes|
  {
    var node := fs.cache[fs.root].node.(size := bytes);
    fs.(cache := fs.cache[fs.root := fs.cache[fs.root].(node := node)], inodes := fs.inodes[ROOT_INODE_NR := node])
  }

  /** make_new_dir_entry. */
  function AddEntry(fs: Fs, nr: nat, name: seq<char>): Fs
    requires fs.root < |fs.cache| && ROOT_INODE_NR < |fs.inodes|
    requires D.HasRoom(fs.entries, DirLen(fs)) && |name| <= D.MAX_FILENAME_LEN
  {
    var (es, n) := D.Insert(fs.entries, DirLen(fs), nr, name);
    SizeRoot(fs, DirBytes(fs) + (n - DirLen(fs)) * D.DIR_ENTRY_SIZE).(entries := es)
  }

  const INODE_MAP_BITS := 4096 // the inode map is one sector

  /** The first free inode number and the first free bit, when create_file can go on with them. */
  function Allocate(fs: Fs): (r: Outcome<(nat, nat)>)
    ensures r.Ok? ==> 0 < r.value.0 < |fs.inodes| && r.value.1 + fs.firstData > 0
  {
    match FirstClear(fs.live, 0, INODE_MAP_BITS)
    case None => Panic
    case Some(nr) =>
      match FirstClear(fs.used, 0, fs.nbits)
      case None => Panic
      case Some(b) =>
        if !(0 < nr < |fs.inodes|) || b + fs.firstData == 0
           || b + fs.fileSects > fs.nbits || fs.used * Range(b, fs.fileSects) != {}
        then Panic else Ok((nr, b))
  }

  /** create_file: the caller gets the new file's cache slot, already counted once. */
  function Create(fs: Fs, name: seq<char>): (r: Outcome<(Fs, nat)>)
    requires Readable(fs) && D.IsName(name)
    ensures r.Ok? ==> r.value.1 < |r.value.0.cache| == |fs.cache| && |r.value.0.inodes| == |fs.inodes|
    ensures r.Ok? ==> r.value.0.slots == fs.slots
  {
    match Allocate(fs)
    case Panic => Panic
    case Ok((nr, b)) =>
      match GetInode(fs.cache, fs.inodes, nr)
      case Panic => Panic
      case Ok((cache', c)) =>
        var fs1 := NewFile(fs, cache', nr, b, c);
        if !D.HasRoom(fs1.entries, DirLen(fs1)) then Panic else Ok((AddEntry(fs1, nr, name), c))
  }

  /** clear_directory_entry; it asserts that there is an entry with this inode number. */
  function RemoveEntry(fs: Fs, nr: nat): Outcome<Fs>
    requires Readable(fs)
  {
    match D.FindIno(fs.entries, nr, 0, DirLen(fs))
    case None => Panic
    case Some(k) =>
      var (es, n) := D.RemoveAt(fs.entries, DirLen(fs), k);
      var fs1 := if k + 1 == DirLen(fs) then SizeRoot(fs, n * D.DIR_ENTRY_SIZE) else fs;
      Ok(fs1.(entries := es))
  }

  /** The rest of a successful unlink: bits, inode fields and the reference. */
  function ClearFile(fs: Fs, cache: seq<CacheSlot>, nr: nat, c: nat): Fs
    requires c < |cache| && cache[c].cnt > 0 && nr < |fs.inodes|
  {
    fs.(cache := PutInode(cache[c := cache[c].(node := CLEARED)], c), inodes := fs.inodes[nr := CLEARED],
        live := fs.live - {nr}, used := fs.used - Extent(cache[c].node, fs.firstData))
  }

  /** do_unlink. Only the path "/" itself is refused before the inode is looked up. */
  function Unlink(fs: Fs, path: seq<char>): Outcome<(Fs, int)>
    requires Readable(fs)
  {
    if path == "/" || Lookup(fs, path).None? then Ok((fs, -1)) else
    var nr := Lookup(fs, path).value;
    if !(0 < nr < |fs.inodes|) then Panic else
    match GetInode(fs.cache, fs.inodes, nr)
    case Panic => Panic
    case Ok((cache', c)) =>
      if cache'[c].node.kind != Regular || cache'[c].cnt > 1
      then Ok((fs.(cache := cache', held := fs.held + multiset{c}), -1))
      else if nr !in fs.live || cache'[c].node.start < fs.firstData || cache'[c].cnt == 0
              || !(Extent(cache'[c].node, fs.firstData) <= fs.used) then Panic
      else
        var fs1 := ClearFile(fs, cache', nr, c);
        if !Readable(fs1) then Panic else
        match RemoveEntry(fs1, nr)
        case Panic => Panic
        case Ok(fs2) => Ok((fs2, 0))
  }

  // ---- opening, closing, sharing ----

  /** The end of do_open: descriptor `d` for inode slot `c`, in process slot `i`. */
  function Connect(fs: Fs, i: nat, c: nat): Outcome<Fs>
    requires i < |fs.slots| && c < |fs.cache|
  {
    match FirstFreeDesc(fs.descs, 0)
    case None => Panic
    case Some(d) =>
      if fs.cache[c].node.kind == Unused || (fs.cache[c].node.kind == Directory && fs.cache[c].nr != ROOT_INODE_NR)
      then Panic
      else Ok(fs.(descs := fs.descs[d := Desc(1, 0, Some(c))], slots := fs.slots[i := d]))
  }

  /** Giving the inode in slot `c` a new size, in the cache and on disk. */
  function Resize(fs: Fs, c: nat, size: nat): Fs
    requires c < |fs.cache| && fs.cache[c].nr < |fs.inodes|
  {
    var node := fs.cache[c].node.(size := size);
    fs.(cache := fs.cache[c := fs.cache[c].(node := node)], inodes := fs.inodes[fs.cache[c].nr := node])
  }

  /** The end of do_open once the file's slot `c` is known. */
  function FinishOpen(fs: Fs, i: nat, c: nat, trunc: bool): Outcome<Fs>
    requires i < |fs.slots| && c < |fs.cache|
  {
    if trunc && fs.cache[c].nr >= |fs.inodes| then Panic else Connect(if trunc then Resize(fs, c, 0) else fs, i, c)
  }

  /** create_file or get_file_inode, whichever do_open needs. */
  function OpenTarget(fs: Fs, path: seq<char>): (r: Outcome<(Fs, nat)>)
    requires Readable(fs)
    ensures r.Ok? ==> r.value.1 < |r.value.0.cache| && |r.value.0.slots| == |fs.slots|
  {
    match Lookup(fs, path)
    case None =>
      var name := D.GetFileName(path);
      if name.None? || !D.IsName(name.value) then Panic else Create(fs, name.value)
    case Some(nr) =>
      if !(0 < nr < |fs.inodes|) then Panic else
      match GetInode(fs.cache, fs.inodes, nr)
      case Panic => Panic
      case Ok((cache', c)) => Ok((fs.(cache := cache'), c))
  }

  function OpenAt(fs: Fs, i: nat, path: seq<char>, trunc: bool): Outcome<Fs>
    requires Readable(fs) && i < |fs.slots|
  {
    match OpenTarget(fs, path)
    case Panic => Panic
    case Ok((fs1, c)) => FinishOpen(fs1, i, c, trunc)
  }

  /** An open that returns -1: a missing file without O_CREAT, or with a path that holds no file
      name; an existing one without O_RDWR, or with O_CREAT and no O_TRUNC. */
  predicate Refused(fs: Fs, path: seq<char>, creat: bool, rdwr: bool, trunc: bool)
    requires Readable(fs)
  {
    if Lookup(fs, path).None? then !creat || D.GetFileName(path).None? else !rdwr || (creat && !trunc)
  }

  /** The first null descriptor slot of process `p`. */
  function FreeSlot(fs: Fs, p: nat): (r: Option<nat>)
    requires ValidRow(fs, p)
    ensures r.Some? ==> r.value < |fs.slots| && fs.slots[r.value] == -1
    ensures r.Some? ==> RowAt(p, fs.nfiles) <= r.value < RowAt(p, fs.nfiles) + fs.nfiles
  {
    FirstNull(fs.slots, RowAt(p, fs.nfiles), RowAt(p, fs.nfiles) + fs.nfiles)
  }

  /** A completed call returns `ret`. */
  function WithResult(o: Outcome<Fs>, ret: int): Outcome<(Fs, int)> {
    match o case Panic => Panic case Ok(fs) => Ok((fs, ret))
  }

  /** A refused open returns -1. A bad path under O_CREAT gets past the search for a descriptor
      before it fails, and trips an assertion when O_TRUNC is set. */
  function Refuse(fs: Fs, path: seq<char>, creat: bool, trunc: bool): Outcome<(Fs, int)>
    requires Readable(fs)
  {
    if Lookup(fs, path).None? && creat && (trunc || FirstFreeDesc(fs.descs, 0).None?) then Panic else Ok((fs, -1))
  }

  function OpenInto(fs: Fs, i: nat, fd: int, path: seq<char>, creat: bool, rdwr: bool, trunc: bool): Outcome<(Fs, int)>
    requires Readable(fs) && i < |fs.slots|
  {
    if Refused(fs, path, creat, rdwr, trunc) then Refuse(fs, path, creat, trunc)
    else WithResult(OpenAt(fs, i, path, trunc), fd)
  }

  /** do_open for process `p`; the result is the descriptor index or -1. */
  function Open(fs: Fs, p: nat, path: seq<char>, creat: bool, rdwr: bool, trunc: bool): Outcome<(Fs, int)>
    requires Readable(fs) && ValidRow(fs, p)
  {
    match FreeSlot(fs, p)
    case None => Panic
    case Some(i) => OpenInto(fs, i, i - RowAt(p, fs.nfiles), path, creat, rdwr, trunc)
  }

  /** do_close and one round of fs_exit: the pointer in slot `i` is dropped. */
  function DropSlot(fs: Fs, i: nat): (r: Outcome<Fs>)
    requires i < |fs.slots|
    ensures r.Ok? ==> |r.value.slots| == |fs.slots| && r.value.nfiles == fs.nfiles
  {
    var d := fs.slots[i];
    if d < 0 || d >= |fs.descs| || fs.descs[d].inode.None? || fs.descs[d].cnt == 0 then Panic else
    var c := fs.descs[d].inode.value;
    if c >= |fs.cache| || fs.cache[c].cnt == 0 then Panic
    else Ok(fs.(cache := PutInode(fs.cache, c), descs := DropDesc(fs.descs, d), slots := fs.slots[i := -1]))
  }

  /** fs_exit from entry `i` up to `e` of the flat slot table. */
  function ExitFrom(fs: Fs, i: nat, e: nat): Outcome<Fs>
    requires i <= e <= |fs.slots|
    decreases e - i
  {
    if i == e then Ok(fs)
    else if fs.slots[i] == -1 then ExitFrom(fs, i + 1, e)
    else match DropSlot(fs, i)
         case Panic => Panic
         case Ok(fs') => ExitFrom(fs', i + 1, e)
  }

  /** One round of fs_fork: the descriptor in slot `i` and its inode are counted once more. */
  function CountSlot(fs: Fs, i: nat): (r: Outcome<Fs>)
    requires i < |fs.slots|
    ensures r.Ok? ==> r.value.slots == fs.slots
  {
    var d := fs.slots[i];
    if d < 0 || d >= |fs.descs| || fs.descs[d].inode.None? then Panic else
    var c := fs.descs[d].inode.value;
    if c >= |fs.cache| then Panic
    else Ok(fs.(cache := fs.cache[c := fs.cache[c].(cnt := fs.cache[c].cnt + 1)], descs := ShareDesc(fs.descs, d)))
  }

  /** fs_fork from entry `i` up to `e` of the flat slot table. */
  function ForkFrom(fs: Fs, i: nat, e: nat): Outcome<Fs>
    requires i <= e <= |fs.slots|
    decreases e - i
  {
    if i == e then Ok(fs)
    else if fs.slots[i] == -1 then ForkFrom(fs, i + 1, e)
    else match CountSlot(fs, i)
         case Panic => Panic
         case Ok(fs') => ForkFrom(fs', i + 1, e)
  }

  /** The `n` entries from `a` on copied over those from `b` on. */
  function Copied(slots: seq<int>, a: nat, b: nat, n: nat): (s: seq<int>)
    requires a + n <= |slots| && b + n <= |slots|
    ensures |s| == |slots|
    ensures forall j {:trigger s[j]} :: 0 <= j < |s| ==> s[j] == if b <= j < b + n then slots[a + (j - b)] else slots[j]
  {
    seq(|slots|, j requires 0 <= j < |slots| => if b <= j < b + n then slots[a + (j - b)] else slots[j])
  }

  /** do_fork copies the parent's table entry, descriptor slots included. */
  function CopyRow(fs: Fs, parent: nat, child: nat): (fs': Fs)
    requires ValidRow(fs, parent) && ValidRow(fs, child)
    ensures |fs'.slots| == |fs.slots|
  {
    var a, b := RowAt(parent, fs.nfiles), RowAt(child, fs.nfiles);
    fs.(slots := Copied(fs.slots, a, b, fs.nfiles), procs := fs.procs + {child})
  }

  /** do_stat's effect on the tables: the inode is looked up and put back. */
  function Stat(fs: Fs, path: seq<char>): Outcome<(Fs, int)>
    requires Readable(fs)
  {
    match Lookup(fs, path)
    case None => Ok((fs, -1))
    case Some(nr) =>
      if !(0 < nr < |fs.inodes|) then Panic else
      match GetInode(fs.cache, fs.inodes, nr)
      case Panic => Panic
      case Ok((cache', c)) => Ok((fs.(cache := if cache'[c].cnt > 0 then PutInode(cache', c) else cache'), 0))
  }

  /** What a read or write that ends at position `pos` does to the tables (read_write.c): the
      position moves, and the size follows when the position passes it; a terminal has neither. */
  function Transfer(fs: Fs, i: nat, pos: nat): Outcome<Fs>
    requires i < |fs.slots|
  {
    var d := fs.slots[i];
    if d < 0 || d >= |fs.descs| || fs.descs[d].inode.None? then Panic else
    var c := fs.descs[d].inode.value;
    if c >= |fs.cache| || fs.cache[c].nr >= |fs.inodes| then Panic
    else if fs.cache[c].node.kind == CharSpecial then Ok(fs) else
    var fs1 := fs.(descs := fs.descs[d := fs.descs[d].(pos := pos)]);
    Ok(if pos > fs.cache[c].node.size then Resize(fs1, c, pos) else fs1)
  }

  datatype Step =
    | OpenStep(p: nat, path: seq<char>, creat: bool, rdwr: bool, trunc: bool)
    | CloseStep(p: nat, fd: nat)
    | StatStep(path: seq<char>)
    | UnlinkStep(path: seq<char>)
    | ForkStep(parent: nat, child: nat)
    | ExitStep(p: nat)
    | TransferStep(p: nat, fd: nat, pos: nat)

  /** The caller is in use; a child gets a table entry that is not. */
  predicate Enabled(fs: Fs, step: Step) {
    match step
    case OpenStep(p, path, _, _, _) => p in fs.procs && ValidRow(fs, p) && IsPath(path)
    case CloseStep(p, fd) => p in fs.procs && ValidRow(fs, p) && fd < fs.nfiles
    case StatStep(path) => IsPath(path)
    case UnlinkStep(path) => IsPath(path)
    case ForkStep(parent, child) =>
      parent in fs.procs && child !in fs.procs && ValidRow(fs, parent) && ValidRow(fs, child)
    case ExitStep(p) => p in fs.procs && ValidRow(fs, p)
    case TransferStep(p, fd, _) => p in fs.procs && ValidRow(fs, p) && fd < fs.nfiles
  }

  function Fork(fs: Fs, parent: nat, child: nat): Outcome<Fs>
    requires ValidRow(fs, parent) && ValidRow(fs, child)
  {
    ForkFrom(CopyRow(fs, parent, child), RowAt(child, fs.nfiles), RowAt(child, fs.nfiles) + fs.nfiles)
  }

  function Exit(fs: Fs, p: nat): Outcome<Fs>
    requires ValidRow(fs, p)
  {
    match ExitFrom(fs, RowAt(p, fs.nfiles), RowAt(p, fs.nfiles) + fs.nfiles)
    case Panic => Panic
    case Ok(fs') => Ok(fs'.(procs := fs.procs - {p}))
  }

  function Exec(fs: Fs, step: Step): Outcome<(Fs, int)>
    requires Readable(fs) && Enabled(fs, step)
  {
    match step
    case OpenStep(p, path, creat, rdwr, trunc) => Open(fs, p, path, creat, rdwr, trunc)
    case CloseStep(p, fd) => WithResult(DropSlot(fs, RowAt(p, fs.nfiles) + fd), 0)
    case StatStep(path) => Stat(fs, path)
    case UnlinkStep(path) => Unlink(fs, path)
    case ForkStep(parent, child) => WithResult(Fork(fs, parent, child), 0)
    case ExitStep(p) => WithResult(Exit(fs, p), 0)
    case TransferStep(p, fd, pos) => WithResult(Transfer(fs, RowAt(p, fs.nfiles) + fd, pos), 0)
  }
}
