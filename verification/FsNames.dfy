/** What each file system call does to the names: exactly which calls keep the directory a map from
    names to the live inodes. */
module FsNames {
  import opened Common
  import opened FsModel
  import opened FsSteps
  import opened FsFrames
  import opened FsCalls
  import D = DirectoryModel

  // ---- creating ----

  /** A new entry keeps the directory in order exactly when the name's terminator fits and the
      size stays within the directory's sectors. */
  lemma AddListed(es: seq<D.Entry>, bytes: nat, live: set<nat>, nr: nat, name: seq<char>)
    requires Listed(es, bytes, live) && D.IsName(name) && nr !in live && nr != 0
    requires D.Pad(name) !in D.Bindings(es, bytes / D.DIR_ENTRY_SIZE) && D.HasRoom(es, bytes / D.DIR_ENTRY_SIZE)
    ensures var n := bytes / D.DIR_ENTRY_SIZE; var (es', n') := D.Insert(es, n, nr, name);
            var bytes' := bytes + (n' - n) * D.DIR_ENTRY_SIZE;
            && n' == bytes' / D.DIR_ENTRY_SIZE <= |es'| == |es|
            && (Listed(es', bytes', live + {nr}) <==> D.TerminatorFits(es, n, name) && !Overgrows(es, bytes))
  {
    var n := bytes / D.DIR_ENTRY_SIZE;
    D.InsertWhole(es, n, nr, name);
    LiveCut(live, nr, D.Inos(es), D.Inos(D.Insert(es, n, nr, name).0));
    D.ScanLimit(bytes, |es|);
    D.ScanLimit(bytes + D.DIR_ENTRY_SIZE, |es|);
  }

  lemma LiveCut(live: set<nat>, nr: nat, before: set<nat>, after: set<nat>)
    requires live == {0} + before && 0 !in before && 0 !in after && nr != 0
    ensures live + {nr} == {0} + after <==> after == before + {nr}
  {
    if live + {nr} == {0} + after {
      forall x ensures x in after <==> x in before + {nr} { assert x in live + {nr} <==> x in {0} + after; }
    }
  }

  /** create_file adds exactly one name if and only if the name's terminator fits; the directory
      stays well formed if and only if, besides, it does not outgrow its sectors. */
  lemma CreateDirectory(fs: Fs, name: seq<char>)
    requires FsOk(fs) && D.IsName(name) && D.Pad(name) !in Names(fs) && Create(fs, name).Ok?
    ensures Allocate(fs).Ok? && D.HasRoom(fs.entries, DirLen(fs))
    ensures var fs2 := Create(fs, name).value.0; var nr := Allocate(fs).value.0;
            var fits := D.TerminatorFits(fs.entries, DirLen(fs), name);
            && fs2.root < |fs2.cache| && DirLen(fs2) <= |fs2.entries|
            && (DirectoryOk(fs2) <==> fits && !Overgrows(fs.entries, DirBytes(fs)))
            && (D.Bindings(fs2.entries, DirLen(fs2)) == Names(fs)[D.Pad(name) := nr] <==> fits)
  {
    NewFileHolds(fs);
    var (nr, b) := Allocate(fs).value;
    var (cache', c) := GetInode(fs.cache, fs.inodes, nr).value;
    var fs1 := NewFile(fs, cache', nr, b, c);
    assert fs1.entries == fs.entries && DirBytes(fs1) == DirBytes(fs) && fs1.live == fs.live + {nr};
    CreatedDirectory(fs1, fs.live, nr, name);
    CreatedNames(fs1, fs.live, nr, name);
  }

  lemma CreatedDirectory(fs1: Fs, live: set<nat>, nr: nat, name: seq<char>)
    requires fs1.root < |fs1.cache| && ROOT_INODE_NR < |fs1.inodes| && fs1.live == live + {nr}
    requires Listed(fs1.entries, DirBytes(fs1), live) && D.IsName(name) && nr !in live && nr != 0
    requires D.Pad(name) !in D.Bindings(fs1.entries, DirLen(fs1)) && D.HasRoom(fs1.entries, DirLen(fs1))
    ensures DirectoryOk(AddEntry(fs1, nr, name)) <==>
            D.TerminatorFits(fs1.entries, DirLen(fs1), name) && !Overgrows(fs1.entries, DirBytes(fs1))
  {
    AddListed(fs1.entries, DirBytes(fs1), live, nr, name);
    AddEntryShape(fs1, nr, name);
  }

  lemma CreatedNames(fs1: Fs, live: set<nat>, nr: nat, name: seq<char>)
    requires fs1.root < |fs1.cache| && ROOT_INODE_NR < |fs1.inodes| && fs1.live == live + {nr}
    requires Listed(fs1.entries, DirBytes(fs1), live) && D.IsName(name) && nr !in live && nr != 0
    requires D.Pad(name) !in D.Bindings(fs1.entries, DirLen(fs1)) && D.HasRoom(fs1.entries, DirLen(fs1))
    ensures var fs2 := AddEntry(fs1, nr, name); var names := D.Bindings(fs1.entries, DirLen(fs1));
            && DirLen(fs2) <= |fs2.entries|
            && (D.Bindings(fs2.entries, DirLen(fs2)) == names[D.Pad(name) := nr] <==>
                  D.TerminatorFits(fs1.entries, DirLen(fs1), name))
  {
    AddEntrySize(fs1, nr, name);
    D.InsertWhole(fs1.entries, DirLen(fs1), nr, name);
  }

  lemma AddEntrySize(fs1: Fs, nr: nat, name: seq<char>)
    requires fs1.root < |fs1.cache| && ROOT_INODE_NR < |fs1.inodes|
    requires D.HasRoom(fs1.entries, DirLen(fs1)) && |name| <= D.MAX_FILENAME_LEN
    ensures var fs2 := AddEntry(fs1, nr, name); var (es', n') := D.Insert(fs1.entries, DirLen(fs1), nr, name);
            fs2.entries == es' && DirLen(fs2) == n'
  {
  }

  lemma AddEntryShape(fs1: Fs, nr: nat, name: seq<char>)
    requires fs1.root < |fs1.cache| && ROOT_INODE_NR < |fs1.inodes|
    requires D.HasRoom(fs1.entries, DirLen(fs1)) && |name| <= D.MAX_FILENAME_LEN
    ensures var fs2 := AddEntry(fs1, nr, name); var (es', n') := D.Insert(fs1.entries, DirLen(fs1), nr, name);
            var bytes' := DirBytes(fs1) + (n' - DirLen(fs1)) * D.DIR_ENTRY_SIZE;
            DirectoryOk(fs2) <==> Listed(es', bytes', fs1.live)
  {
  }

  // ---- opening ----

  /** A directory of size 0 cannot name the root any more. */
  lemma EmptyDirectory(fs: Fs)
    requires ROOT_INODE_NR in fs.live && fs.root < |fs.cache| && DirBytes(fs) == 0
    ensures !DirectoryOk(fs)
  {
    if fs.live == {0} + D.Inos(fs.entries) {
      assert ROOT_INODE_NR in D.Inos(fs.entries);
      var e :| e in fs.entries && e.ino == ROOT_INODE_NR;
      var i :| 0 <= i < |fs.entries| && fs.entries[i] == e;
    }
  }

  /** The open loses names: it truncates the root, or creates a name whose terminator falls on
      the next entry. */
  predicate LosingOpen(fs: Fs, path: seq<char>, creat: bool, rdwr: bool, trunc: bool)
    requires Readable(fs)
  {
    match Lookup(fs, path)
    case Some(nr) => nr == ROOT_INODE_NR && rdwr && trunc
    case None =>
      var name := D.GetFileName(path);
      creat && name.Some? && D.HasRoom(fs.entries, DirLen(fs)) && !D.TerminatorFits(fs.entries, DirLen(fs), name.value)
  }

  /** The open damages the directory: it loses names, or its new entry takes the size past the
      directory's sectors. */
  predicate SpoilingOpen(fs: Fs, path: seq<char>, creat: bool, rdwr: bool, trunc: bool)
    requires Readable(fs)
  {
    || LosingOpen(fs, path, creat, rdwr, trunc)
    || (Lookup(fs, path).None? && creat && D.GetFileName(path).Some? && Overgrows(fs.entries, DirBytes(fs)))
  }

  /** The file of an open is held; a create leaves the directory in order exactly when the name's
      terminator fits and the directory does not outgrow its sectors. */
  lemma TargetDirectory(fs: Fs, path: seq<char>)
    requires FsOk(fs) && IsPath(path) && OpenTarget(fs, path).Ok?
    ensures var (fs1, c) := OpenTarget(fs, path).value; var name := D.GetFileName(path);
            && Targeted(fs, fs1, c, path)
            && var fits := Lookup(fs, path).None? ==>
                 D.TerminatorFits(fs.entries, DirLen(fs), name.value) && !Overgrows(fs.entries, DirBytes(fs));
               DirectoryOk(fs1) <==> fits
  {
    OrderIsSafe(fs);
    TargetHolds(fs, path);
    if Lookup(fs, path).None? {
      LookupFacts(fs, path);
      CreateDirectory(fs, D.GetFileName(path).value);
    } else {
      SameDirectoryOk(fs, OpenTarget(fs, path).value.0);
    }
  }

  /** A completed open keeps the directory in order unless it truncates the root, creates a name
      that does not fit, or outgrows the root's sectors. */
  lemma OpenDirectory(fs: Fs, p: nat, path: seq<char>, creat: bool, rdwr: bool, trunc: bool)
    requires FsOk(fs) && p in fs.procs && ValidRow(fs, p) && IsPath(path) && Open(fs, p, path, creat, rdwr, trunc).Ok?
    ensures DirectoryOk(Open(fs, p, path, creat, rdwr, trunc).value.0) <==> !SpoilingOpen(fs, path, creat, rdwr, trunc)
  {
    if !Refused(fs, path, creat, rdwr, trunc) {
      var i := OpenShape(fs, p, path, creat, rdwr, trunc);
      OpenedDirectory(fs, i, path, creat, rdwr, trunc);
    } else {
      OpenRefused(fs, p, path, creat, rdwr, trunc);
    }
  }

  lemma OpenedDirectory(fs: Fs, i: nat, path: seq<char>, creat: bool, rdwr: bool, trunc: bool)
    requires FsOk(fs) && IsPath(path) && !Refused(fs, path, creat, rdwr, trunc)
    requires i < |fs.slots| && fs.slots[i] == -1 && OpenAt(fs, i, path, trunc).Ok?
    ensures DirectoryOk(OpenAt(fs, i, path, trunc).value) <==> !SpoilingOpen(fs, path, creat, rdwr, trunc)
  {
    var (fs1, c) := OpenTarget(fs, path).value;
    var fs2 := FinishOpen(fs1, i, c, trunc).value;
    TargetDirectory(fs, path);
    FinishOk(fs, fs1, i, c, trunc);
    if trunc && c == fs.root { EmptyDirectory(fs2); } else { SameDirectoryOk(fs1, fs2); }
  }

  // ---- unlink ----

  /** The entry of a live number is found; clearing it keeps the directory in order exactly when
      it leaves no hole before an entry in use. */
  lemma RemoveListed(es: seq<D.Entry>, bytes: nat, live: set<nat>, nr: nat)
    requires Listed(es, bytes, live) && nr in live && nr != 0
    ensures var n := bytes / D.DIR_ENTRY_SIZE; var k := D.FindIno(es, nr, 0, n);
            && k.Some? && es[k.value].ino == nr
            && var (es', n') := D.RemoveAt(es, n, k.value);
               var bytes' := if k.value + 1 == n then n' * D.DIR_ENTRY_SIZE else bytes;
               var whole := D.NoHoleBeforeLive(es, n, k.value);
               && n' == bytes' / D.DIR_ENTRY_SIZE <= |es'| == |es| && D.Scanned(bytes') <= |es'|
               && (Listed(es', bytes', live - {nr}) <==> whole)
               && (D.Bindings(es', n') == D.Bindings(es, n) - {es[k.value].name} <==> whole)
  {
    var n := bytes / D.DIR_ENTRY_SIZE;
    assert nr in D.Inos(es);
    var e :| e in es && e.ino == nr;
    var i :| 0 <= i < |es| && es[i] == e;
    var k := D.FindIno(es, nr, 0, n).value;
    D.RemoveExact(es, n, k);
    D.RemoveInos(es, n, k);
    assert {0} + D.Inos(es) - {nr} == {0} + (D.Inos(es) - {nr});
    D.ScanLimit(bytes, |es|);
    D.ScanLimit(D.RemoveAt(es, n, k).1 * D.DIR_ENTRY_SIZE, |es|);
  }

  lemma RemoveEntryDirectory(fs: Fs, fs1: Fs, nr: nat)
    requires DirectoryOk(fs) && nr in fs.live && nr != 0
    requires StateOk(fs1) && fs1.entries == fs.entries && fs1.live == fs.live - {nr} && |fs1.inodes| == |fs.inodes|
    requires fs1.root == fs.root && DirBytes(fs1) == DirBytes(fs)
    ensures Readable(fs1) && RemoveEntry(fs1, nr).Ok?
    ensures var fs2 := RemoveEntry(fs1, nr).value; var k := D.FindIno(fs.entries, nr, 0, DirLen(fs));
            && k.Some? && (DirectoryOk(fs2) <==> D.NoHoleBeforeLive(fs.entries, DirLen(fs), k.value))
            && Readable(fs2)
            && (Names(fs2) == Names(fs) - {fs.entries[k.value].name} <==>
                  D.NoHoleBeforeLive(fs.entries, DirLen(fs), k.value))
  {
    RemoveListed(fs.entries, DirBytes(fs), fs.live, nr);
    RemoveEntryShape(fs1, nr);
    var k := D.FindIno(fs.entries, nr, 0, DirLen(fs)).value;
    var (es', n') := D.RemoveAt(fs.entries, DirLen(fs), k);
    var fs2 := RemoveEntry(fs1, nr).value;
    var bytes' := if k + 1 == DirLen(fs) then n' * D.DIR_ENTRY_SIZE else DirBytes(fs);
    assert DirectoryOk(fs2) <==> Listed(es', bytes', fs.live - {nr});
  }

  /** do_unlink removes the last entry of the directory while a free entry precedes one in use. */
  predicate HidingUnlink(fs: Fs, path: seq<char>)
    requires Readable(fs)
  {
    path != "/" && !LeakingUnlink(fs, path) && match Lookup(fs, path)
      case None => false
      case Some(nr) =>
        match D.FindIno(fs.entries, nr, 0, DirLen(fs))
        case None => false
        case Some(k) => !D.NoHoleBeforeLive(fs.entries, DirLen(fs), k)
  }

  lemma UnlinkIdle(fs: Fs, path: seq<char>)
    requires FsOk(fs) && IsPath(path) && Unlink(fs, path).Ok? && path != "/"
    requires Lookup(fs, path).Some? && !LeakingUnlink(fs, path)
    ensures var fs' := Unlink(fs, path).value.0; var name := D.GetFileName(path);
            && Readable(fs') && (DirectoryOk(fs') <==> !HidingUnlink(fs, path))
            && name.Some? && name.value != []
            && (Names(fs') == Names(fs) - {D.Pad(name.value)} <==> !HidingUnlink(fs, path))
  {
    LookupFacts(fs, path);
    var nr := Lookup(fs, path).value;
    assert KindOk(fs, nr) && Mapped(fs, nr);
    var (cache', c) := GetInode(fs.cache, fs.inodes, nr).value;
    ClearFileOk(fs, nr, cache', c);
    RemoveEntryDirectory(fs, ClearFile(fs, cache', nr, c), nr);
    D.FoundByInode(fs.entries, DirLen(fs), D.Pad(D.GetFileName(path).value));
  }

  /** do_unlink keeps the directory in order unless it hides a name; otherwise a successful one
      removes exactly its own name, and any other removes none. */
  lemma UnlinkExact(fs: Fs, path: seq<char>)
    requires FsOk(fs) && IsPath(path) && Unlink(fs, path).Ok?
    ensures var (fs', ret) := Unlink(fs, path).value; var name := D.GetFileName(path);
            && (DirectoryOk(fs') <==> !HidingUnlink(fs, path)) && Readable(fs') && (ret == 0 ==> name.Some?)
            && (Names(fs') == (if ret == 0 then Names(fs) - {D.Pad(name.value)} else Names(fs)) <==>
                  !HidingUnlink(fs, path))
  {
    OrderIsSafe(fs);
    UnlinkCore(fs, path);
    if LeakingUnlink(fs, path) {
      UnlinkLeaks(fs, path);
      SameDirectoryOk(fs, Unlink(fs, path).value.0);
    } else if path != "/" && Lookup(fs, path).Some? {
      UnlinkIdle(fs, path);
    }
  }

  // ---- reading and writing ----

  lemma GrowListed(es: seq<D.Entry>, bytes: nat, live: set<nat>, pos: nat)
    requires Listed(es, bytes, live) && pos > bytes
    ensures Listed(es, pos, live) <==> pos <= |es| * D.DIR_ENTRY_SIZE
  {
    D.ScanLimit(pos, |es|);
  }

  /** A transfer keeps the directory in order unless it takes the root's size past its sectors. */
  lemma TransferDirectory(fs: Fs, i: nat, pos: nat)
    requires FsOk(fs) && i < |fs.slots| && Transfer(fs, i, pos).Ok?
    ensures DirectoryOk(Transfer(fs, i, pos).value) <==> !SpoilingTransfer(fs, i, pos)
  {
    TransferShape(fs, i, pos);
    var fs' := Transfer(fs, i, pos).value;
    if DirBytes(fs') == DirBytes(fs) {
      SameDirectoryOk(fs, fs');
    } else {
      GrowListed(fs.entries, DirBytes(fs), fs.live, pos);
    }
  }
}
