/** The loops of task/fs/fs.c and task/fs/open_close.c over tables updated in place, each
    proved against the step functions of FsModel and FsSteps. */
module FsTables {
  import opened Common
  import opened FsModel
  import opened FsSteps
  import D = DirectoryModel

  class FileSystem {
    const inodes: array<DiskInode>
    const cache: array<CacheSlot>
    const descs: array<Desc>
    const slots: array<int>
    var live: set<nat>
    var used: set<nat>
    var entries: seq<D.Entry>
    var procs: set<nat>
    var held: multiset<nat>
    const root: nat
    const nfiles: nat
    const firstData: nat
    const nbits: nat
    const fileSects: nat

    constructor (fs: Fs)
      ensures State() == fs && fresh(inodes) && fresh(cache) && fresh(descs) && fresh(slots)
    {
      inodes := new DiskInode[|fs.inodes|](i requires 0 <= i < |fs.inodes| => fs.inodes[i]);
      cache := new CacheSlot[|fs.cache|](i requires 0 <= i < |fs.cache| => fs.cache[i]);
      descs := new Desc[|fs.descs|](i requires 0 <= i < |fs.descs| => fs.descs[i]);
      slots := new int[|fs.slots|](i requires 0 <= i < |fs.slots| => fs.slots[i]);
      live, used, entries, procs, held := fs.live, fs.used, fs.entries, fs.procs, fs.held;
      root, nfiles, firstData, nbits, fileSects := fs.root, fs.nfiles, fs.firstData, fs.nbits, fs.fileSects;
      new;
      assert inodes[..] == fs.inodes && cache[..] == fs.cache && descs[..] == fs.descs && slots[..] == fs.slots;
    }

    ghost function State(): Fs
      reads this, inodes, cache, descs, slots
    {
      Fs(inodes[..], live, used, entries, cache[..], descs[..], slots[..], procs, held,
         root, nfiles, firstData, nbits, fileSects)
    }

    /** get_file_inode: one pass that remembers the first free slot and stops at a cached inode. */
    method GetFileInode(nr: nat) returns (ok: bool, c: nat)
      requires 0 < nr < inodes.Length
      modifies cache
      ensures ok == GetInode(old(cache[..]), inodes[..], nr).Ok?
      ensures ok ==> GetInode(old(cache[..]), inodes[..], nr) == FsModel.Ok((cache[..], c))
    {
      var free: Option<nat> := None;
      var p := 0;
      while p < cache.Length
        invariant 0 <= p <= cache.Length && cache[..] == old(cache[..])
        invariant FindCached(cache[..], nr, 0) == FindCached(cache[..], nr, p)
        invariant free.Some? ==> free.value < cache.Length && FindFree(cache[..], 0) == free
        invariant free.None? ==> FindFree(cache[..], 0) == FindFree(cache[..], p)
      {
        if cache[p].cnt > 0 {
          if cache[p].nr == nr {
            cache[p] := cache[p].(cnt := cache[p].cnt + 1);
            return true, p;
          }
        } else if free.None? {
          free := Some(p);
        }
        p := p + 1;
      }
      if free.None? {
        return false, 0;
      }
      c := free.value;
      cache[c] := CacheSlot(1, nr, inodes[nr]);
      ok := true;
    }

    /** do_close, and the body of the loop of fs_exit. */
    method Drop(i: nat) returns (ok: bool)
      requires i < slots.Length
      modifies cache, descs, slots
      ensures ok == DropSlot(old(State()), i).Ok?
      ensures ok ==> State() == DropSlot(old(State()), i).value
    {
      var d := slots[i];
      if d < 0 || d >= descs.Length || descs[d].inode.None? || descs[d].cnt == 0 { return false; }
      var c := descs[d].inode.value;
      if c >= cache.Length || cache[c].cnt == 0 { return false; }
      cache[c] := cache[c].(cnt := cache[c].cnt - 1);
      descs[d] := descs[d].(cnt := descs[d].cnt - 1);
      if descs[d].cnt == 0 {
        descs[d] := descs[d].(inode := None);
      }
      slots[i] := -1;
      ok := true;
    }

    /** fs_exit: drops every descriptor in entries `from` up to `to`. */
    method FsExit(from: nat, to: nat) returns (ok: bool)
      requires from <= to <= slots.Length
      modifies cache, descs, slots
      ensures ok == ExitFrom(old(State()), from, to).Ok?
      ensures ok ==> State() == ExitFrom(old(State()), from, to).value
    {
      var i := from;
      while i < to
        invariant from <= i <= to
        invariant ExitFrom(old(State()), from, to) == ExitFrom(State(), i, to)
      {
        if slots[i] != -1 {
          ok := Drop(i);
          if !ok { return; }
        }
        i := i + 1;
      }
      ok := true;
    }

    /** fs_fork: counts every descriptor in entries `from` up to `to` once more. */
    method FsFork(from: nat, to: nat) returns (ok: bool)
      requires from <= to <= slots.Length
      modifies cache, descs
      ensures ok == ForkFrom(old(State()), from, to).Ok?
      ensures ok ==> State() == ForkFrom(old(State()), from, to).value
    {
      var i := from;
      while i < to
        invariant from <= i <= to
        invariant ForkFrom(old(State()), from, to) == ForkFrom(State(), i, to)
      {
        if slots[i] != -1 {
          ok := Share(i);
          if !ok { return; }
        }
        i := i + 1;
      }
      ok := true;
    }

    /** The body of the loop of fs_fork. */
    method Share(i: nat) returns (ok: bool)
      requires i < slots.Length
      modifies cache, descs
      ensures ok == CountSlot(old(State()), i).Ok?
      ensures ok ==> State() == CountSlot(old(State()), i).value
    {
      var d := slots[i];
      if d < 0 || d >= descs.Length || descs[d].inode.None? || descs[d].inode.value >= cache.Length { return false; }
      var c := descs[d].inode.value;
      descs[d] := descs[d].(cnt := descs[d].cnt + 1);
      cache[c] := cache[c].(cnt := cache[c].cnt + 1);
      ok := true;
    }

    /** The end of do_open: finds a free descriptor and connects slot `i` to inode slot `c`. */
    method ConnectSlot(i: nat, c: nat) returns (ok: bool)
      requires i < slots.Length && c < cache.Length
      modifies descs, slots
      ensures ok == Connect(old(State()), i, c).Ok?
      ensures ok ==> State() == Connect(old(State()), i, c).value
    {
      var d := 0;
      while d < descs.Length && descs[d].inode.Some?
        invariant 0 <= d <= descs.Length
        invariant FirstFreeDesc(descs[..], 0) == FirstFreeDesc(descs[..], d)
      {
        d := d + 1;
      }
      if d == descs.Length { return false; }
      slots[i] := d;
      descs[d] := Desc(1, 0, Some(c));
      ok := !(cache[c].node.kind == Unused || (cache[c].node.kind == Directory && cache[c].nr != ROOT_INODE_NR));
    }
  }
}
