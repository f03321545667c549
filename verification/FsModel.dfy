/** The tables of the file system task: the inode cache over the on-disk inode array, the
    system-wide descriptor table, and the descriptor slots of every process
    (task/fs/fs.c, task/fs/open_close.c, task/fs/unlink.c, task/fs/stat.c). */
module FsModel {
  import opened Common
  import D = DirectoryModel

  datatype Kind = Unused | Regular | Directory | CharSpecial

  /** The four fields of an inode that are stored on disk. */
  datatype DiskInode = DiskInode(kind: Kind, size: nat, start: nat, nsects: nat)

  const CLEARED := DiskInode(Unused, 0, 0, 0)

  /** An entry of inode_table; it is free when `cnt` is 0. */
  datatype CacheSlot = CacheSlot(cnt: nat, nr: nat, node: DiskInode)

  /** An entry of file_desc_table; it is free when `inode` is None. */
  datatype Desc = Desc(cnt: nat, pos: nat, inode: Option<nat>)

  const ROOT_INODE_NR := 1

  /** The file system state. `inodes[nr]` is the on-disk inode `nr`; `used` holds the set bits
      of the sector map and `live` the set bits of the inode map; `entries` are the entries in
      the root directory's sectors; `slots` holds the file_desc arrays of all processes, one
      row of `nfiles` entries after another, -1 meaning null; `procs` are the processes in
      use; `held` are the references to cache slots that no process slot accounts for, the root's
      own one among them; `root` is the cache slot of the root directory's inode. */
  datatype Fs = Fs(
    inodes: seq<DiskInode>, live: set<nat>, used: set<nat>, entries: seq<D.Entry>,
    cache: seq<CacheSlot>, descs: seq<Desc>, slots: seq<int>, procs: set<nat>, held: multiset<nat>,
    root: nat, nfiles: nat, firstData: nat, nbits: nat, fileSects: nat)

  datatype Outcome<T> = Ok(value: T) | Panic

  // ---- the inode cache ----

  /** The index of the first cache slot from `i` on that is in use for inode `nr`. */
  function FindCached(cache: seq<CacheSlot>, nr: nat, i: nat): (r: Option<nat>)
    requires i <= |cache|
    ensures r.Some? ==> i <= r.value < |cache| && cache[r.value].cnt > 0 && cache[r.value].nr == nr
    ensures r.None? ==> forall j :: i <= j < |cache| ==> !(cache[j].cnt > 0 && cache[j].nr == nr)
    decreases |cache| - i
  {
    if i == |cache| then None
    else if cache[i].cnt > 0 && cache[i].nr == nr then Some(i)
    else FindCached(cache, nr, i + 1)
  }

  /** The index of the first free cache slot from `i` on. */
  function FindFree(cache: seq<CacheSlot>, i: nat): (r: Option<nat>)
    requires i <= |cache|
    ensures r.Some? ==> i <= r.value < |cache| && cache[r.value].cnt == 0
    ensures r.None? ==> forall j :: i <= j < |cache| ==> cache[j].cnt > 0
    decreases |cache| - i
  {
    if i == |cache| then None else if cache[i].cnt == 0 then Some(i) else FindFree(cache, i + 1)
  }

  /** get_file_inode for a number of the inode array. */
  function GetInode(cache: seq<CacheSlot>, inodes: seq<DiskInode>, nr: nat): (r: Outcome<(seq<CacheSlot>, nat)>)
    requires 0 < nr < |inodes|
    ensures r.Ok? ==> |r.value.0| == |cache| && r.value.1 < |cache|
  {
    match FindCached(cache, nr, 0)
    case Some(c) => Ok((cache[c := cache[c].(cnt := cache[c].cnt + 1)], c))
    case None =>
      match FindFree(cache, 0)
      case None => Panic
      case Some(c) => Ok((cache[c := CacheSlot(1, nr, inodes[nr])], c))
  }

  /** put_inode. */
  function PutInode(cache: seq<CacheSlot>, c: nat): seq<CacheSlot>
    requires c < |cache| && cache[c].cnt > 0
  {
    cache[c := cache[c].(cnt := cache[c].cnt - 1)]
  }

  predicate SlotOk(cache: seq<CacheSlot>, inodes: seq<DiskInode>, c: nat)
    requires c < |cache|
  {
    cache[c].cnt > 0 ==> 0 < cache[c].nr < |inodes| && cache[c].node == inodes[cache[c].nr]
  }

  predicate SlotsDiffer(cache: seq<CacheSlot>, c: nat, e: nat)
    requires c < |cache| && e < |cache|
  {
    cache[c].cnt > 0 && cache[e].cnt > 0 ==> cache[c].nr != cache[e].nr
  }

  /** Each inode has at most one slot in use, and that slot holds what the disk holds. */
  predicate CacheOk(cache: seq<CacheSlot>, inodes: seq<DiskInode>) {
    && (forall c {:trigger SlotOk(cache, inodes, c)} :: 0 <= c < |cache| ==> SlotOk(cache, inodes, c))
    && (forall c, e {:trigger SlotsDiffer(cache, c, e)} :: 0 <= c < |cache| && 0 <= e < |cache| && c != e ==>
          SlotsDiffer(cache, c, e))
  }

  /** Changing one slot, and the disk entry of its inode, keeps agreement. */
  lemma UpdateSlot(cache: seq<CacheSlot>, inodes: seq<DiskInode>, c: nat, x: CacheSlot, inodes': seq<DiskInode>)
    requires CacheOk(cache, inodes) && c < |cache| && |inodes'| == |inodes|
    requires x.cnt > 0 ==> 0 < x.nr < |inodes'| && x.node == inodes'[x.nr]
    requires x.cnt > 0 ==> forall e :: 0 <= e < |cache| && e != c && cache[e].cnt > 0 ==> cache[e].nr != x.nr
    requires forall e :: 0 <= e < |cache| && e != c && 0 < cache[e].cnt && cache[e].nr < |inodes| ==>
          inodes'[cache[e].nr] == inodes[cache[e].nr]
    ensures CacheOk(cache[c := x], inodes')
  {
    var cache' := cache[c := x];
    forall e | 0 <= e < |cache| ensures SlotOk(cache', inodes', e) { assert SlotOk(cache, inodes, e); }
    forall e, g | 0 <= e < |cache| && 0 <= g < |cache| && e != g ensures SlotsDiffer(cache', e, g) {
      assert SlotsDiffer(cache, e, g);
    }
  }

  /** A cached lookup gives what a fresh read of the disk would give, and keeps agreement. */
  lemma GetInodeAgrees(cache: seq<CacheSlot>, inodes: seq<DiskInode>, nr: nat)
    requires CacheOk(cache, inodes) && 0 < nr < |inodes| && GetInode(cache, inodes, nr).Ok?
    ensures var (cache', c) := GetInode(cache, inodes, nr).value;
            && CacheOk(cache', inodes) && cache'[c].nr == nr && cache'[c].node == inodes[nr]
            && cache'[c].cnt == cache[c].cnt + 1
            && (cache[c].cnt > 0 ==> cache[c].nr == nr)
            && cache' == cache[c := cache'[c]]
  {
    var (cache', c) := GetInode(cache, inodes, nr).value;
    assert SlotOk(cache, inodes, c);
    if FindCached(cache, nr, 0).Some? {
      forall e | 0 <= e < |cache| && e != c ensures cache[e].cnt > 0 ==> cache[e].nr != nr {
        assert SlotsDiffer(cache, c, e);
      }
    }
    UpdateSlot(cache, inodes, c, cache'[c], inodes);
  }

  /** Setting an inode in its slot and writing it through keeps agreement. */
  lemma WriteThrough(cache: seq<CacheSlot>, inodes: seq<DiskInode>, c: nat, node: DiskInode)
    requires CacheOk(cache, inodes) && c < |cache| && cache[c].cnt > 0
    ensures 0 < cache[c].nr < |inodes|
    ensures CacheOk(cache[c := cache[c].(node := node)], inodes[cache[c].nr := node])
  {
    assert SlotOk(cache, inodes, c);
    forall e | 0 <= e < |cache| && e != c ensures cache[e].cnt > 0 ==> cache[e].nr != cache[c].nr {
      assert SlotsDiffer(cache, c, e);
    }
    UpdateSlot(cache, inodes, c, cache[c].(node := node), inodes[cache[c].nr := node]);
  }

  lemma PutKeepsCache(cache: seq<CacheSlot>, inodes: seq<DiskInode>, c: nat)
    requires CacheOk(cache, inodes) && c < |cache| && cache[c].cnt > 0
    ensures CacheOk(PutInode(cache, c), inodes)
  {
    assert SlotOk(cache, inodes, c);
    forall e | 0 <= e < |cache| && e != c ensures cache[e].cnt > 0 ==> cache[e].nr != cache[c].nr {
      assert SlotsDiffer(cache, c, e);
    }
    UpdateSlot(cache, inodes, c, cache[c].(cnt := cache[c].cnt - 1), inodes);
  }

  // ---- reference counts ----

  /** The inode slot each descriptor slot leads to. */
  function Reach(slots: seq<int>, descs: seq<Desc>): (r: seq<int>)
    ensures |r| == |slots|
  {
    seq(|slots|, i requires 0 <= i < |slots| =>
      if 0 <= slots[i] < |descs| && descs[slots[i]].inode.Some? then descs[slots[i]].inode.value else -1)
  }

  predicate DescOk(descs: seq<Desc>, slots: seq<int>, ncache: nat, d: nat)
    requires d < |descs|
  {
    && descs[d].cnt == multiset(slots)[d]
    && (descs[d].inode.Some? <==> descs[d].cnt > 0)
    && (descs[d].inode.Some? ==> descs[d].inode.value < ncache)
  }

  predicate InodeCountOk(cache: seq<CacheSlot>, descs: seq<Desc>, slots: seq<int>, held: multiset<nat>, c: nat)
    requires c < |cache|
  {
    cache[c].cnt == multiset(Reach(slots, descs))[c] + held[c]
  }

  /** Every count is accounted for: a descriptor's fd_cnt is the number of process slots that point
      to it, an inode's inode_cnt the number of process slots that lead to it plus the references
      in `held`. */
  predicate CountsOk(cache: seq<CacheSlot>, descs: seq<Desc>, slots: seq<int>, held: multiset<nat>) {
    && (forall i :: 0 <= i < |slots| ==> slots[i] == -1 || 0 <= slots[i] < |descs|)
    && (forall d {:trigger DescOk(descs, slots, |cache|, d)} :: 0 <= d < |descs| ==> DescOk(descs, slots, |cache|, d))
    && (forall c {:trigger InodeCountOk(cache, descs, slots, held, c)} :: 0 <= c < |cache| ==>
          InodeCountOk(cache, descs, slots, held, c))
  }

  /** The root's own reference keeps its slot in use. */
  lemma RootInUse(fs: Fs)
    requires CountsOk(fs.cache, fs.descs, fs.slots, fs.held) && fs.root < |fs.cache| && fs.held[fs.root] > 0
    ensures fs.cache[fs.root].cnt > 0
  {
    assert InodeCountOk(fs.cache, fs.descs, fs.slots, fs.held, fs.root);
  }

  /** A reference that no process slot accounts for is one more held. */
  lemma HoldCounts(cache: seq<CacheSlot>, descs: seq<Desc>, slots: seq<int>, held: multiset<nat>, c: nat, x: CacheSlot)
    requires CountsOk(cache, descs, slots, held) && c < |cache| && x.cnt == cache[c].cnt + 1
    ensures CountsOk(cache[c := x], descs, slots, held + multiset{c})
  {
    var cache', held' := cache[c := x], held + multiset{c};
    forall d | 0 <= d < |descs| ensures DescOk(descs, slots, |cache'|, d) { assert DescOk(descs, slots, |cache|, d); }
    forall e | 0 <= e < |cache'| ensures InodeCountOk(cache', descs, slots, held', e) {
      assert InodeCountOk(cache, descs, slots, held, e);
    }
  }

  /** Counts depend on the cache through `cnt` only. */
  lemma SameCounts(cache: seq<CacheSlot>, cache': seq<CacheSlot>, descs: seq<Desc>, slots: seq<int>,
                   held: multiset<nat>)
    requires CountsOk(cache, descs, slots, held) && |cache'| == |cache|
    requires forall c :: 0 <= c < |cache| ==> cache'[c].cnt == cache[c].cnt
    ensures CountsOk(cache', descs, slots, held)
  {
    forall d | 0 <= d < |descs| ensures DescOk(descs, slots, |cache'|, d) { assert DescOk(descs, slots, |cache|, d); }
    forall c | 0 <= c < |cache'| ensures InodeCountOk(cache', descs, slots, held, c) {
      assert InodeCountOk(cache, descs, slots, held, c);
    }
  }

  /** Pointing a null slot at a new descriptor for inode slot `c`. */
  lemma OpenCounts(cache: seq<CacheSlot>, descs: seq<Desc>, slots: seq<int>, held: multiset<nat>, i: nat, d: nat,
                   c: nat, x: CacheSlot)
    requires CountsOk(cache, descs, slots, held)
    requires i < |slots| && slots[i] == -1 && d < |descs| && descs[d].inode.None? && c < |cache|
    requires x.cnt == cache[c].cnt + 1
    ensures CountsOk(cache[c := x], descs[d := Desc(1, 0, Some(c))], slots[i := d], held)
  {
    var descs' := descs[d := Desc(1, 0, Some(c))];
    var slots' := slots[i := d];
    assert DescOk(descs, slots, |cache|, d);
    assert multiset(slots)[d] == 0;
    forall j | 0 <= j < |slots| ensures slots[j] != d { assert slots[j] in multiset(slots); }
    assert Reach(slots', descs') == Reach(slots, descs)[i := c];
    forall e | 0 <= e < |descs'| ensures DescOk(descs', slots', |cache|, e) {
      assert DescOk(descs, slots, |cache|, e);
    }
    var cache' := cache[c := x];
    forall e | 0 <= e < |cache'| ensures InodeCountOk(cache', descs', slots', held, e) {
      assert InodeCountOk(cache, descs, slots, held, e);
    }
  }

  /** One more slot pointing at a descriptor in use (one round of the loop of fs_fork). */
  function ShareDesc(descs: seq<Desc>, d: nat): seq<Desc>
    requires d < |descs|
  {
    descs[d := descs[d].(cnt := descs[d].cnt + 1)]
  }

  lemma ShareCounts(cache: seq<CacheSlot>, descs: seq<Desc>, slots: seq<int>, held: multiset<nat>, i: nat, d: nat)
    requires CountsOk(cache, descs, slots, held)
    requires i < |slots| && slots[i] == -1 && d < |descs| && descs[d].inode.Some?
    ensures descs[d].inode.value < |cache|
    ensures var c := descs[d].inode.value;
            CountsOk(cache[c := cache[c].(cnt := cache[c].cnt + 1)], ShareDesc(descs, d), slots[i := d], held)
  {
    var c := descs[d].inode.value;
    assert DescOk(descs, slots, |cache|, d);
    var descs' := ShareDesc(descs, d);
    var slots' := slots[i := d];
    assert Reach(slots', descs') == Reach(slots, descs)[i := c];
    forall e | 0 <= e < |descs'| ensures DescOk(descs', slots', |cache|, e) {
      assert DescOk(descs, slots, |cache|, e);
    }
    var cache' := cache[c := cache[c].(cnt := cache[c].cnt + 1)];
    forall e | 0 <= e < |cache'| ensures InodeCountOk(cache', descs', slots', held, e) {
      assert InodeCountOk(cache, descs, slots, held, e);
    }
  }

  /** Dropping one pointer to a descriptor (do_close, and one round of the loop of fs_exit). */
  function DropDesc(descs: seq<Desc>, d: nat): seq<Desc>
    requires d < |descs| && descs[d].cnt > 0
  {
    if descs[d].cnt == 1 then descs[d := descs[d].(cnt := 0, inode := None)]
    else descs[d := descs[d].(cnt := descs[d].cnt - 1)]
  }

  lemma SlotIsCounted(cache: seq<CacheSlot>, descs: seq<Desc>, slots: seq<int>, held: multiset<nat>, i: nat)
    requires CountsOk(cache, descs, slots, held) && i < |slots| && slots[i] != -1
    ensures 0 <= slots[i] < |descs| && descs[slots[i]].cnt > 0 && descs[slots[i]].inode.Some?
    ensures var c := descs[slots[i]].inode.value; c < |cache| && cache[c].cnt > 0
  {
    var d := slots[i];
    assert DescOk(descs, slots, |cache|, d);
    assert slots[i] in multiset(slots);
    var c := descs[d].inode.value;
    assert Reach(slots, descs)[i] == c;
    assert Reach(slots, descs)[i] in multiset(Reach(slots, descs));
    assert InodeCountOk(cache, descs, slots, held, c);
  }

  lemma DropCounts(cache: seq<CacheSlot>, descs: seq<Desc>, slots: seq<int>, held: multiset<nat>, i: nat)
    requires CountsOk(cache, descs, slots, held) && i < |slots| && slots[i] != -1
    ensures 0 <= slots[i] < |descs| && descs[slots[i]].cnt > 0 && descs[slots[i]].inode.Some?
    ensures var d := slots[i]; var c := descs[d].inode.value;
            c < |cache| && cache[c].cnt > 0 && CountsOk(PutInode(cache, c), DropDesc(descs, d), slots[i := -1], held)
  {
    SlotIsCounted(cache, descs, slots, held, i);
    var d := slots[i];
    var c := descs[d].inode.value;
    assert DescOk(descs, slots, |cache|, d);
    var descs' := DropDesc(descs, d);
    var slots' := slots[i := -1];
    assert multiset(slots')[d] == descs[d].cnt - 1;
    forall j | 0 <= j < |slots'| ensures Reach(slots', descs')[j] == Reach(slots, descs)[i := -1][j] {
      assert slots'[j] in multiset(slots');
    }
    assert Reach(slots', descs') == Reach(slots, descs)[i := -1];
    forall e | 0 <= e < |descs'| ensures DescOk(descs', slots', |cache|, e) {
      assert DescOk(descs, slots, |cache|, e);
    }
    var cache' := PutInode(cache, c);
    forall e | 0 <= e < |cache'| ensures InodeCountOk(cache', descs', slots', held, e) {
      assert InodeCountOk(cache, descs, slots, held, e);
    }
  }

  /** Counts do not depend on the positions of descriptors. */
  lemma MoveKeepsCounts(cache: seq<CacheSlot>, descs: seq<Desc>, slots: seq<int>, held: multiset<nat>, d: nat, pos: nat)
    requires CountsOk(cache, descs, slots, held) && d < |descs|
    ensures CountsOk(cache, descs[d := descs[d].(pos := pos)], slots, held)
  {
    var descs' := descs[d := descs[d].(pos := pos)];
    assert Reach(slots, descs') == Reach(slots, descs);
    forall e | 0 <= e < |descs'| ensures DescOk(descs', slots, |cache|, e) { assert DescOk(descs, slots, |cache|, e); }
    forall c | 0 <= c < |cache| ensures InodeCountOk(cache, descs', slots, held, c) {
      assert InodeCountOk(cache, descs, slots, held, c);
    }
  }
}
