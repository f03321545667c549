/** The root directory as an array of fixed-size entries, and the map from names to inode
    numbers it stands for (task/fs/misc.c, task/fs/open_close.c, task/fs/unlink.c). */
module DirectoryModel {
  import opened Bits
  import opened Common

  const MAX_FILENAME_LEN := 12
  const DIR_ENTRY_SIZE := 16
  const PER_SECTOR := 32 // SECTOR_SIZE / DIR_ENTRY_SIZE

  type Field = f: seq<char> | |f| == 12 witness "\0\0\0\0\0\0\0\0\0\0\0\0"

  datatype Entry = Entry(ino: nat, name: Field)

  const NO_NAME: Field := "\0\0\0\0\0\0\0\0\0\0\0\0"
  const ZERO := Entry(0, NO_NAME)

  /** A file name as strings in the program hold it: no terminator inside. */
  predicate IsName(s: seq<char>) {
    0 < |s| <= MAX_FILENAME_LEN && forall i :: 0 <= i < |s| ==> s[i] != '\0'
  }

  /** The name padded with zeros to the width of the directory field. */
  function Pad(s: seq<char>): Field
    requires |s| <= MAX_FILENAME_LEN
  {
    seq(MAX_FILENAME_LEN, i requires 0 <= i < MAX_FILENAME_LEN => if i < |s| then s[i] else '\0')
  }

  /** Different names have different padded fields. */
  lemma PadInjective(a: seq<char>, b: seq<char>)
    requires IsName(a) && IsName(b) && a != b
    ensures Pad(a) != Pad(b)
  {
    var pa, pb := Pad(a), Pad(b);
    if |a| < |b| {
      assert pa[|a|] == '\0' && pb[|a|] == b[|a|];
    } else if |b| < |a| {
      assert pb[|b|] == '\0' && pa[|b|] == a[|b|];
    } else {
      var i :| 0 <= i < |a| && a[i] != b[i];
      assert pa[i] == a[i] && pb[i] == b[i];
    }
  }

  // ---- what a directory means ----

  /** The bindings of the first `n` entries. */
  function Bindings(es: seq<Entry>, n: nat): map<Field, nat>
    requires n <= |es|
  {
    if n == 0 then map[]
    else if es[n - 1].ino == 0 then Bindings(es, n - 1)
    else Bindings(es, n - 1)[es[n - 1].name := es[n - 1].ino]
  }

  predicate EntryOk(e: Entry) {
    e == ZERO || (e.ino != 0 && e.name[0] != '\0')
  }

  predicate Distinct(es: seq<Entry>, i: nat, j: nat)
    requires i < |es| && j < |es|
  {
    es[i].ino != 0 && es[j].ino != 0 ==> es[i].name != es[j].name && es[i].ino != es[j].ino
  }

  /** Unused entries are zeroed, none in use lies at or past the size `n`, and entries in use
      have distinct names and distinct inode numbers. */
  predicate DirOk(es: seq<Entry>, n: nat) {
    && n <= |es|
    && (forall i :: 0 <= i < |es| ==> EntryOk(es[i]) && (i >= n ==> es[i] == ZERO))
    && (forall i, j {:trigger Distinct(es, i, j)} :: 0 <= i < |es| && 0 <= j < |es| && i != j ==> Distinct(es, i, j))
  }

  lemma {:induction false} BindingsHas(es: seq<Entry>, n: nat, i: nat)
    requires n <= |es| && i < n && es[i].ino != 0
    requires forall a, b {:trigger Distinct(es, a, b)} :: 0 <= a < |es| && 0 <= b < |es| && a != b ==>
          Distinct(es, a, b)
    ensures es[i].name in Bindings(es, n) && Bindings(es, n)[es[i].name] == es[i].ino
  {
    if i < n - 1 {
      BindingsHas(es, n - 1, i);
      assert Distinct(es, i, n - 1);
    }
  }

  lemma {:induction false} BindingsOnly(es: seq<Entry>, n: nat, name: Field)
    requires n <= |es| && name in Bindings(es, n)
    ensures exists i :: 0 <= i < n && es[i].ino != 0 && es[i].name == name
  {
    if es[n - 1].ino == 0 || es[n - 1].name != name {
      BindingsOnly(es, n - 1, name);
    }
  }

  /** Two directories stand for related maps when their entries are related one by one. */
  lemma BindingsAre(es: seq<Entry>, n: nat, m: map<Field, nat>)
    requires DirOk(es, n)
    requires forall i :: 0 <= i < n && es[i].ino != 0 ==> es[i].name in m && m[es[i].name] == es[i].ino
    requires forall name :: name in m ==> exists i :: 0 <= i < n && es[i].ino != 0 && es[i].name == name
    ensures Bindings(es, n) == m
  {
    var b := Bindings(es, n);
    forall name | name in b ensures name in m && m[name] == b[name] {
      BindingsOnly(es, n, name);
      var i :| 0 <= i < n && es[i].ino != 0 && es[i].name == name;
      BindingsHas(es, n, i);
    }
    forall name | name in m ensures name in b {
      var i :| 0 <= i < n && es[i].ino != 0 && es[i].name == name;
      BindingsHas(es, n, i);
    }
  }

  // ---- looking up ----

  /** The inode number of the first entry from `i` up to `e` with this name, or 0. */
  function FindName(es: seq<Entry>, name: Field, i: nat, e: nat): nat
    requires i <= e <= |es|
    decreases e - i
  {
    if i == e then 0 else if es[i].name == name then es[i].ino else FindName(es, name, i + 1, e)
  }

  /** get_file_inode_nr compares before it counts, so it looks at one entry past those that the
      size in bytes allows, unless the size ends a sector. */
  function Scanned(bytes: nat): nat {
    var n := bytes / DIR_ENTRY_SIZE;
    if bytes % (PER_SECTOR * DIR_ENTRY_SIZE) == 0 then n else n + 1
  }

  /** The scan stays inside `total` entries, a whole number of sectors, exactly when the size does. */
  lemma ScanLimit(bytes: nat, total: nat)
    requires total % PER_SECTOR == 0
    ensures bytes / DIR_ENTRY_SIZE <= total && Scanned(bytes) <= total <==> bytes <= total * DIR_ENTRY_SIZE
  {
    var sects := total / PER_SECTOR;
    assert total * DIR_ENTRY_SIZE == sects * (PER_SECTOR * DIR_ENTRY_SIZE);
    if bytes == total * DIR_ENTRY_SIZE {
      assert bytes % (PER_SECTOR * DIR_ENTRY_SIZE) == 0;
    } else if bytes / DIR_ENTRY_SIZE == total {
      assert sects * 512 < bytes < sects * 512 + 16;
      assert bytes % 512 != 0;
    }
  }

  /** What the scan returns stands in some entry with that name. */
  lemma {:induction false} FindNameAt(es: seq<Entry>, name: Field, i: nat, e: nat) returns (k: nat)
    requires i <= e <= |es| && FindName(es, name, i, e) != 0
    ensures i <= k < e && es[k].name == name && es[k].ino == FindName(es, name, i, e)
    decreases e - i
  {
    if es[i].name == name {
      k := i;
    } else {
      k := FindNameAt(es, name, i + 1, e);
    }
  }

  lemma {:induction false} FindNameFirst(es: seq<Entry>, name: Field, i: nat, e: nat, k: nat)
    requires i <= k < e <= |es| && es[k].name == name && forall j :: i <= j < k ==> es[j].name != name
    ensures FindName(es, name, i, e) == es[k].ino
    decreases k - i
  {
    if i < k { FindNameFirst(es, name, i + 1, e, k); }
  }

  lemma {:induction false} FindNameNone(es: seq<Entry>, name: Field, i: nat, e: nat)
    requires i <= e <= |es| && forall j :: i <= j < e ==> es[j].name != name
    ensures FindName(es, name, i, e) == 0
    decreases e - i
  {
    if i < e { FindNameNone(es, name, i + 1, e); }
  }

  /** The scan over entries answers as the map does. */
  lemma LookupRefines(es: seq<Entry>, bytes: nat, name: Field)
    requires DirOk(es, bytes / DIR_ENTRY_SIZE) && Scanned(bytes) <= |es| && name[0] != '\0'
    ensures var b := Bindings(es, bytes / DIR_ENTRY_SIZE);
            FindName(es, name, 0, Scanned(bytes)) == if name in b then b[name] else 0
  {
    var n := bytes / DIR_ENTRY_SIZE;
    if name in Bindings(es, n) {
      BindingsOnly(es, n, name);
      var k :| 0 <= k < n && es[k].ino != 0 && es[k].name == name;
      BindingsHas(es, n, k);
      forall j | 0 <= j < k ensures es[j].name != name { assert Distinct(es, j, k); }
      FindNameFirst(es, name, 0, Scanned(bytes), k);
    } else {
      forall j | 0 <= j < Scanned(bytes) ensures es[j].name != name {
        if j < n && es[j].ino != 0 { BindingsHas(es, n, j); }
      }
      FindNameNone(es, name, 0, Scanned(bytes));
    }
  }

  /** Zero entries past the size bind nothing: a larger size stands for the same map. */
  lemma {:induction false} BindingsTail(es: seq<Entry>, n: nat, n': nat)
    requires n <= n' <= |es| && forall i :: n <= i < n' ==> es[i].ino == 0
    ensures Bindings(es, n') == Bindings(es, n)
  {
    if n < n' { BindingsTail(es, n, n' - 1); }
  }

  /** A size beyond the directory's own entries: the scan for a name that is not bound goes on into
      `foreign`, whatever lies on disk behind them, and takes its first entry for a file. */
  lemma ForeignEntryFound(es: seq<Entry>, n: nat, foreign: seq<Entry>, bytes: nat, name: Field)
    requires DirOk(es, n) && |es| % PER_SECTOR == 0 && bytes > |es| * DIR_ENTRY_SIZE
    requires name[0] != '\0' && name !in Bindings(es, n)
    requires Scanned(bytes) <= |es| + |foreign| && foreign != [] && foreign[0].name == name
    ensures FindName(es + foreign, name, 0, Scanned(bytes)) == foreign[0].ino
  {
    var all := es + foreign;
    assert bytes / DIR_ENTRY_SIZE >= |es|;
    ScanLimit(bytes, |es|);
    forall j | 0 <= j < |es| ensures all[j].name != name {
      assert EntryOk(es[j]);
      if es[j].ino != 0 { BindingsHas(es, n, j); }
    }
    FindNameFirst(all, name, 0, Scanned(bytes), |es|);
  }

  // ---- adding an entry ----

  /** The first unused entry from `i` on, or the size when there is none. */
  function FreeEntry(es: seq<Entry>, i: nat, n: nat): (k: nat)
    requires i <= n <= |es|
    ensures i <= k <= n && (k < n ==> es[k].ino == 0) && forall j :: i <= j < k ==> es[j].ino != 0
    decreases n - i
  {
    if i == n || es[i].ino == 0 then i else FreeEntry(es, i + 1, n)
  }

  /** The result of writing the inode number and calling strcpy on the name field of entry
      `k`: the terminator of a 12-byte name falls into the low byte of the next entry's
      inode number, when that entry is in the same sector. */
  function Store(es: seq<Entry>, k: nat, ino: nat, name: seq<char>): (r: seq<Entry>)
    requires k < |es| && |name| <= MAX_FILENAME_LEN
    ensures |r| == |es|
  {
    var tail := if |name| < MAX_FILENAME_LEN then name + ['\0'] + es[k].name[|name| + 1..] else name;
    var es1 := es[k := Entry(ino, tail)];
    if |name| == MAX_FILENAME_LEN && k + 1 < |es| && (k + 1) % PER_SECTOR != 0
    then es1[k + 1 := es[k + 1].(ino := es[k + 1].ino - es[k + 1].ino % 256)]
    else es1
  }

  /** There is a free entry, or the directory's sectors reach beyond its size. */
  predicate HasRoom(es: seq<Entry>, n: nat) {
    n <= |es| && FreeEntry(es, 0, n) < |es|
  }

  /** make_new_dir_entry: the new entries and the new size. */
  function Insert(es: seq<Entry>, n: nat, ino: nat, name: seq<char>): (seq<Entry>, nat)
    requires HasRoom(es, n) && |name| <= MAX_FILENAME_LEN
  {
    var k := FreeEntry(es, 0, n);
    (Store(es, k, ino, name), if k == n then n + 1 else n)
  }

  /** The terminator spoils nothing: the name is short, or the next entry lies in another
      sector, or its inode number has a zero low byte already. */
  predicate TerminatorFits(es: seq<Entry>, n: nat, name: seq<char>)
    requires HasRoom(es, n)
  {
    var k := FreeEntry(es, 0, n);
    |name| < MAX_FILENAME_LEN || k + 1 >= |es| || (k + 1) % PER_SECTOR == 0 || es[k + 1].ino % 256 == 0
  }

  lemma StoreFits(es: seq<Entry>, n: nat, ino: nat, name: seq<char>)
    requires DirOk(es, n) && HasRoom(es, n) && ino != 0 && IsName(name) && TerminatorFits(es, n, name)
    ensures Insert(es, n, ino, name).0 == es[FreeEntry(es, 0, n) := Entry(ino, Pad(name))]
  {
    var k := FreeEntry(es, 0, n);
    assert EntryOk(es[k]);
    assert es[k].name == NO_NAME;
    if |name| < MAX_FILENAME_LEN {
      assert name + ['\0'] + NO_NAME[|name| + 1..] == Pad(name);
    } else {
      assert name == Pad(name);
      if k + 1 < |es| && (k + 1) % PER_SECTOR != 0 {
        assert es[k + 1].(ino := es[k + 1].ino - es[k + 1].ino % 256) == es[k + 1];
      }
    }
  }

  lemma InsertKeeps(es: seq<Entry>, n: nat, ino: nat, name: seq<char>)
    requires DirOk(es, n) && HasRoom(es, n) && ino != 0 && IsName(name) && TerminatorFits(es, n, name)
    requires Pad(name) !in Bindings(es, n) && forall i :: 0 <= i < n ==> es[i].ino != ino
    ensures var (es', n') := Insert(es, n, ino, name);
            DirOk(es', n') && Bindings(es', n') == Bindings(es, n)[Pad(name) := ino]
  {
    var k := FreeEntry(es, 0, n);
    var (es', n') := Insert(es, n, ino, name);
    StoreFits(es, n, ino, name);
    assert Pad(name)[0] == name[0];
    forall i | 0 <= i < |es| && i != k && es[i].ino != 0 ensures es[i].name != Pad(name) && es[i].ino != ino {
      assert i < n;
      BindingsHas(es, n, i);
    }
    forall i, j | 0 <= i < |es'| && 0 <= j < |es'| && i != j ensures Distinct(es', i, j) { assert Distinct(es, i, j); }
    var m := Bindings(es, n)[Pad(name) := ino];
    forall i | 0 <= i < n' && es'[i].ino != 0 ensures es'[i].name in m && m[es'[i].name] == es'[i].ino {
      if i != k { BindingsHas(es, n, i); }
    }
    forall f | f in m ensures exists i :: 0 <= i < n' && es'[i].ino != 0 && es'[i].name == f {
      if f == Pad(name) {
        assert es'[k].name == f;
      } else {
        BindingsOnly(es, n, f);
        var i :| 0 <= i < n && es[i].ino != 0 && es[i].name == f;
        assert es'[i] == es[i];
      }
    }
    BindingsAre(es', n', m);
  }

  /** A create adds exactly one binding if and only if the terminator spoils nothing. */
  lemma InsertExact(es: seq<Entry>, n: nat, ino: nat, name: seq<char>)
    requires DirOk(es, n) && HasRoom(es, n) && ino != 0 && IsName(name)
    requires Pad(name) !in Bindings(es, n) && forall i :: 0 <= i < n ==> es[i].ino != ino
    ensures var (es', n') := Insert(es, n, ino, name);
            (n' <= |es'| && Bindings(es', n') == Bindings(es, n)[Pad(name) := ino]) <==> TerminatorFits(es, n, name)
  {
    if TerminatorFits(es, n, name) {
      InsertKeeps(es, n, ino, name);
    } else {
      var k := FreeEntry(es, 0, n);
      assert k + 1 < n;
      BindingsHas(es, n, k + 1);
      InsertSpoils(es, n, ino, name);
    }
  }

  /** A terminator that does not fit takes the next entry's name away from its number. */
  lemma InsertSpoils(es: seq<Entry>, n: nat, ino: nat, name: seq<char>)
    requires DirOk(es, n) && HasRoom(es, n) && ino != 0 && IsName(name) && !TerminatorFits(es, n, name)
    requires forall i :: 0 <= i < n ==> es[i].ino != ino
    ensures var (es', n') := Insert(es, n, ino, name); var next := es[FreeEntry(es, 0, n) + 1];
            n' <= |es'| && (next.name in Bindings(es', n') ==> Bindings(es', n')[next.name] != next.ino)
  {
    var k := FreeEntry(es, 0, n);
    var (es', n') := Insert(es, n, ino, name);
    forall i | 0 <= i < n' && es'[i].name == es[k + 1].name ensures es'[i].ino != es[k + 1].ino {
      if i != k && i != k + 1 { assert es'[i] == es[i] && Distinct(es, i, k + 1); }
    }
    NotBound(es', n', es[k + 1].name, es[k + 1].ino);
  }

  /** No entry of the result binds `f` to `v` any more. */
  lemma {:induction false} NotBound(es: seq<Entry>, n: nat, f: Field, v: nat)
    requires n <= |es|
    requires forall i :: 0 <= i < n && es[i].ino != 0 && es[i].name == f ==> es[i].ino != v
    ensures f in Bindings(es, n) ==> Bindings(es, n)[f] != v
  {
    if n > 0 { NotBound(es, n - 1, f, v); }
  }

  // ---- removing an entry ----

  /** The first entry from `i` on with this inode number. */
  function FindIno(es: seq<Entry>, ino: nat, i: nat, n: nat): (r: Option<nat>)
    requires i <= n <= |es|
    ensures r.Some? ==> i <= r.value < n && es[r.value].ino == ino
    ensures r.None? ==> forall j :: i <= j < n ==> es[j].ino != ino
    decreases n - i
  {
    if i == n then None else if es[i].ino == ino then Some(i) else FindIno(es, ino, i + 1, n)
  }

  /** The number of entries in use before `k`. */
  function LiveBefore(es: seq<Entry>, k: nat): (c: nat)
    requires k <= |es|
    ensures c <= k
  {
    if k == 0 then 0 else LiveBefore(es, k - 1) + if es[k - 1].ino != 0 then 1 else 0
  }

  /** clear_directory_entry for the entry `k`: it is zeroed, and when it was the last one the
      size becomes the number of entries in use before it. */
  function RemoveAt(es: seq<Entry>, n: nat, k: nat): (seq<Entry>, nat)
    requires k < n <= |es|
  {
    (es[k := ZERO], if k + 1 == n then LiveBefore(es, k) else n)
  }

  /** The removed entry is not the last one, or no free entry before it precedes one in use. */
  predicate NoHoleBeforeLive(es: seq<Entry>, n: nat, k: nat)
    requires k < n <= |es|
  {
    k + 1 < n || forall i, j :: 0 <= i < j < k && es[j].ino != 0 ==> es[i].ino != 0
  }

  /** Without holes the entries in use are the first ones, as many as are counted. */
  lemma {:induction false} CountsPrefix(es: seq<Entry>, k: nat)
    requires k <= |es| && forall i, j :: 0 <= i < j < k && es[j].ino != 0 ==> es[i].ino != 0
    ensures forall i :: 0 <= i < k ==> (es[i].ino != 0 <==> i < LiveBefore(es, k))
  {
    if k > 0 {
      CountsPrefix(es, k - 1);
      if es[k - 1].ino != 0 { FullPrefix(es, k - 1); }
    }
  }

  lemma {:induction false} HoleCounts(es: seq<Entry>, k: nat, i: nat)
    requires i < k <= |es| && es[i].ino == 0
    ensures LiveBefore(es, k) < k
  {
    if i < k - 1 { HoleCounts(es, k - 1, i); }
  }

  /** Behind a hole some entry in use lies at or past the number of entries counted. */
  lemma {:induction false} HoleHides(es: seq<Entry>, k: nat, i: nat, j: nat) returns (x: nat)
    requires i < j < k <= |es| && es[i].ino == 0 && es[j].ino != 0
    ensures LiveBefore(es, k) <= x < k && es[x].ino != 0
    decreases k
  {
    if es[k - 1].ino != 0 {
      HoleCounts(es, k, i);
      x := k - 1;
    } else {
      x := HoleHides(es, k - 1, i, j);
    }
  }

  /** When no slot before the last entry is free, the size is simply one less. */
  lemma {:induction false} FullPrefix(es: seq<Entry>, k: nat)
    requires k <= |es| && forall i :: 0 <= i < k ==> es[i].ino != 0
    ensures LiveBefore(es, k) == k
  {
    if k > 0 { FullPrefix(es, k - 1); }
  }

  /** An unlink keeps the directory well formed, and removes exactly one binding, if and only
      if it does not remove the last entry while a free slot precedes an entry in use. */
  lemma RemoveExact(es: seq<Entry>, n: nat, k: nat)
    requires DirOk(es, n) && k < n && es[k].ino != 0
    ensures var (es', n') := RemoveAt(es, n, k);
            && (DirOk(es', n') <==> NoHoleBeforeLive(es, n, k))
            && (n' <= |es'| && Bindings(es', n') == Bindings(es, n) - {es[k].name} <==> NoHoleBeforeLive(es, n, k))
  {
    var (es', n') := RemoveAt(es, n, k);
    forall i, j | 0 <= i < |es'| && 0 <= j < |es'| && i != j ensures Distinct(es', i, j) { assert Distinct(es, i, j); }
    if NoHoleBeforeLive(es, n, k) {
      if k + 1 == n { CountsPrefix(es, k); }
      var m := Bindings(es, n) - {es[k].name};
      forall i | 0 <= i < n' && es'[i].ino != 0 ensures es'[i].name in m && m[es'[i].name] == es'[i].ino {
        assert es'[i] == es[i] && Distinct(es, i, k);
        BindingsHas(es, n, i);
      }
      forall f | f in m ensures exists i :: 0 <= i < n' && es'[i].ino != 0 && es'[i].name == f {
        BindingsOnly(es, n, f);
        var i :| 0 <= i < n && es[i].ino != 0 && es[i].name == f;
        assert es'[i] == es[i];
      }
      BindingsAre(es', n', m);
    } else {
      var hole, live :| 0 <= hole < live < k && es[live].ino != 0 && es[hole].ino == 0;
      var i := HoleHides(es, k, hole, live);
      assert es'[i] == es[i];
      BindingsHas(es, n, i);
      assert Distinct(es, i, k);
      forall j | 0 <= j < n' ensures es'[j].ino != 0 ==> es'[j].name != es[i].name { assert Distinct(es, j, i); }
      Unbound(es', n', es[i].name);
    }
  }

  /** The entry that clear_directory_entry finds by inode number is the one of the name. */
  lemma FoundByInode(es: seq<Entry>, n: nat, f: Field)
    requires DirOk(es, n) && f in Bindings(es, n)
    ensures var k := FindIno(es, Bindings(es, n)[f], 0, n); k.Some? && es[k.value].name == f && es[k.value].ino != 0
  {
    BindingsOnly(es, n, f);
    var i :| 0 <= i < n && es[i].ino != 0 && es[i].name == f;
    BindingsHas(es, n, i);
    var k := FindIno(es, es[i].ino, 0, n);
    assert k.value == i || Distinct(es, k.value, i);
  }

  lemma Unbound(es: seq<Entry>, n: nat, f: Field)
    requires n <= |es| && forall j :: 0 <= j < n && es[j].ino != 0 ==> es[j].name != f
    ensures f !in Bindings(es, n)
  {
    if f in Bindings(es, n) { BindingsOnly(es, n, f); }
  }

  /** Creating a file and unlinking it again gives back the map of names, and a well-formed
      directory: the entry fills the first free slot, so no hole can precede it. */
  lemma InsertThenRemove(es: seq<Entry>, n: nat, ino: nat, name: seq<char>)
    requires DirOk(es, n) && HasRoom(es, n) && ino != 0 && IsName(name) && TerminatorFits(es, n, name)
    requires Pad(name) !in Bindings(es, n) && forall i :: 0 <= i < n ==> es[i].ino != ino
    ensures Insert(es, n, ino, name).1 <= |es| == |Insert(es, n, ino, name).0|
    ensures var (es1, n1) := Insert(es, n, ino, name);
            var k := FindIno(es1, ino, 0, n1);
            k.Some? && DirOk(RemoveAt(es1, n1, k.value).0, RemoveAt(es1, n1, k.value).1)
            && Bindings(RemoveAt(es1, n1, k.value).0, RemoveAt(es1, n1, k.value).1) == Bindings(es, n)
  {
    var (es1, n1) := Insert(es, n, ino, name);
    InsertKeeps(es, n, ino, name);
    StoreFits(es, n, ino, name);
    FoundByInode(es1, n1, Pad(name));
    var at, k := FreeEntry(es, 0, n), FindIno(es1, ino, 0, n1).value;
    assert es1[at].ino == ino && forall i :: 0 <= i < n1 && i != at ==> es1[i].ino != ino;
    if k + 1 == n1 { FullPrefix(es1, k); }
    RemoveExact(es1, n1, k);
    assert Bindings(es, n)[Pad(name) := ino] - {Pad(name)} == Bindings(es, n);
  }

  /** Entries 0, 3 and 4 in use: removing the last one sets the size to 2, and the file in
      entry 3 is not found any more. */
  lemma LostEntry(a: Entry, b: Entry, c: Entry)
    requires EntryOk(a) && EntryOk(b) && EntryOk(c) && a.ino != 0 && b.ino != 0 && c.ino != 0
    requires a.name != b.name && b.name != c.name && a.name != c.name
    requires a.ino != b.ino && b.ino != c.ino && a.ino != c.ino
    ensures var es := [a, ZERO, ZERO, b, c] + seq(27, _ => ZERO);
            && DirOk(es, 5)
            && RemoveAt(es, 5, 4).1 == 2
            && FindName(RemoveAt(es, 5, 4).0, b.name, 0, Scanned(2 * DIR_ENTRY_SIZE)) == 0
  {
    var es := [a, ZERO, ZERO, b, c] + seq(27, _ => ZERO);
    forall i, j | 0 <= i < |es| && 0 <= j < |es| && i != j ensures Distinct(es, i, j) {}
    assert LiveBefore(es, 1) == 1 && LiveBefore(es, 2) == 1 && LiveBefore(es, 3) == 1 && LiveBefore(es, 4) == 2;
    var es' := RemoveAt(es, 5, 4).0;
    FindNameNone(es', b.name, 0, 3);
  }

  // ---- the inode numbers in a directory ----

  function Inos(es: seq<Entry>): set<nat> {
    set e | e in es && e.ino != 0 :: e.ino
  }

  /** An insertion adds its own number, and loses that of the next entry when the terminator does not fit. */
  lemma InsertInos(es: seq<Entry>, n: nat, ino: nat, name: seq<char>)
    requires DirOk(es, n) && HasRoom(es, n) && ino != 0 && IsName(name) && ino !in Inos(es)
    ensures Inos(Insert(es, n, ino, name).0) == Inos(es) + {ino} <==> TerminatorFits(es, n, name)
  {
    var k, es' := FreeEntry(es, 0, n), Insert(es, n, ino, name).0;
    if TerminatorFits(es, n, name) {
      StoreFits(es, n, ino, name);
      InosUpdate(es, k, Entry(ino, Pad(name)));
    } else {
      var v := es[k + 1].ino;
      assert es[k + 1] in es;
      forall e | e in es' ensures e.ino != v {
        var i :| 0 <= i < |es'| && es'[i] == e;
        if i != k && i != k + 1 { assert Distinct(es, i, k + 1); }
      }
      assert v in Inos(es) && v !in Inos(es');
    }
  }

  /** All at once: a create leaves the directory well formed with one more number, and with one
      more binding, if and only if the terminator fits. */
  lemma InsertWhole(es: seq<Entry>, n: nat, ino: nat, name: seq<char>)
    requires DirOk(es, n) && HasRoom(es, n) && ino != 0 && IsName(name)
    requires Pad(name) !in Bindings(es, n) && ino !in Inos(es)
    ensures var (es', n') := Insert(es, n, ino, name);
            && n <= n' <= |es'| == |es| && (n < n' ==> n' == n + 1)
            && (DirOk(es', n') && Inos(es') == Inos(es) + {ino} <==> TerminatorFits(es, n, name))
            && (Bindings(es', n') == Bindings(es, n)[Pad(name) := ino] <==> TerminatorFits(es, n, name))
  {
    forall i | 0 <= i < n ensures es[i].ino != ino { assert es[i] in es; }
    InsertInos(es, n, ino, name);
    InsertExact(es, n, ino, name);
    if TerminatorFits(es, n, name) { InsertKeeps(es, n, ino, name); }
  }

  lemma InosUpdate(es: seq<Entry>, k: nat, e: Entry)
    requires k < |es| && es[k].ino == 0 && e.ino != 0
    ensures Inos(es[k := e]) == Inos(es) + {e.ino}
  {
    var es' := es[k := e];
    assert es'[k] in es';
    forall x | x in es && x.ino != 0 ensures x in es' {
      var i :| 0 <= i < |es| && es[i] == x;
      assert es'[i] == x;
    }
  }

  lemma RemoveInos(es: seq<Entry>, n: nat, k: nat)
    requires DirOk(es, n) && k < n && es[k].ino != 0
    ensures Inos(RemoveAt(es, n, k).0) == Inos(es) - {es[k].ino}
  {
    var es' := RemoveAt(es, n, k).0;
    forall e | e in es' && e.ino != 0 ensures e in es && e.ino != es[k].ino {
      var i :| 0 <= i < |es'| && es'[i] == e;
      assert i != k && es[i] == e && Distinct(es, i, k);
    }
    forall e | e in es && e.ino != es[k].ino ensures e in es' {
      var i :| 0 <= i < |es| && es[i] == e;
      assert es'[i] == e;
    }
  }

  // ---- file names out of paths ----

  /** The file name in a path: a leading slash is dropped, at most 12 characters count, and
      another slash among them is an error. */
  function GetFileName(path: seq<char>): (r: Option<seq<char>>)
    ensures r.Some? ==> |r.value| <= MAX_FILENAME_LEN && ('\0' !in path ==> '\0' !in r.value)
  {
    var s := if path != [] && path[0] == '/' then path[1..] else path;
    var t := if |s| < MAX_FILENAME_LEN then s else s[..MAX_FILENAME_LEN];
    if '/' in t then None else Some(t)
  }

  /** get_file_name: the character loop; None is the return value -1. */
  method ParsePath(path: seq<char>) returns (r: Option<seq<char>>)
    ensures r == GetFileName(path)
    ensures var start := if path != [] && path[0] == '/' then 1 else 0;
            var n := if |path| - start < 12 then |path| - start else 12;
            && (r.None? <==> exists i :: start <= i < start + n && path[i] == '/')
            && (r.Some? ==> |r.value| == n && forall i :: start <= i < start + n ==> r.value[i - start] == path[i])
  {
    var start := if path != [] && path[0] == '/' then 1 else 0;
    ghost var s := path[start..];
    assert s == if path != [] && path[0] == '/' then path[1..] else path;
    var name := [];
    var i := start;
    while i < |path| && |name| < MAX_FILENAME_LEN
      invariant i == start + |name| && |name| <= |s| && name == s[..|name|] && |name| <= MAX_FILENAME_LEN
      invariant '/' !in name
    {
      assert path[i] == s[|name|];
      if path[i] == '/' { return None; }
      name := name + [path[i]];
      i := i + 1;
    }
    assert s[..|s|] == s;
    return Some(name);
  }

  /** The loop over whole sectors passes exactly the scanned entries. */
  lemma ScanEnd(bytes: nat)
    ensures var n := bytes / DIR_ENTRY_SIZE; var total := (bytes + SECTOR_SIZE - 1) / SECTOR_SIZE * PER_SECTOR;
            Scanned(bytes) == (if n + 1 <= total then n + 1 else total) && n <= total
  {
  }

  /** The directory on disk and the three loops over it. */
  class DirFile {
    const entries: array<Entry>
    var bytes: nat

    constructor (es: seq<Entry>, size: nat)
      ensures entries[..] == es && bytes == size && fresh(entries)
    {
      entries := new Entry[|es|](i requires 0 <= i < |es| => es[i]);
      bytes := size;
      new;
      assert entries[..] == es;
    }

    /** get_file_inode_nr below the path parsing: the sector and entry loops. */
    method Lookup(name: Field) returns (ino: nat)
      requires Scanned(bytes) <= entries.Length
      ensures ino == FindName(entries[..], name, 0, Scanned(bytes))
    {
      var nsects := (bytes + SECTOR_SIZE - 1) / SECTOR_SIZE;
      var n := bytes / DIR_ENTRY_SIZE;
      ghost var end := Scanned(bytes);
      ScanEnd(bytes);
      var de := 0;
      var i := 0;
      while i < nsects && de <= n
        invariant 0 <= i <= nsects && de <= end && (de <= n ==> de == i * PER_SECTOR)
        invariant de > n ==> de == end
        invariant FindName(entries[..], name, 0, end) == FindName(entries[..], name, de, end)
        decreases nsects - i
      {
        var j := 0;
        while j < PER_SECTOR && de <= n
          invariant 0 <= j <= PER_SECTOR && de <= end && de == i * PER_SECTOR + j
          invariant FindName(entries[..], name, 0, end) == FindName(entries[..], name, de, end)
          decreases PER_SECTOR - j
        {
          if entries[de].name == name {
            return entries[de].ino;
          }
          de := de + 1;
          j := j + 1;
        }
        i := i + 1;
      }
      ino := 0;
    }

    /** make_new_dir_entry. */
    method MakeNewDirEntry(ino: nat, name: seq<char>)
      requires HasRoom(entries[..], bytes / DIR_ENTRY_SIZE) && |name| <= MAX_FILENAME_LEN
      modifies this, entries
      ensures var n := old(bytes) / DIR_ENTRY_SIZE; var (es', n') := Insert(old(entries[..]), n, ino, name);
              entries[..] == es' && bytes == old(bytes) + (n' - n) * DIR_ENTRY_SIZE
    {
      var n := bytes / DIR_ENTRY_SIZE;
      var nsects := (bytes + SECTOR_SIZE) / SECTOR_SIZE;
      var k := 0;
      var i := 0;
      var found := false;
      while i < nsects && !found && k < n
        invariant 0 <= k <= n && (!found && k < n ==> k == i * PER_SECTOR)
        invariant found ==> k < n && entries[k].ino == 0
        invariant FreeEntry(entries[..], 0, n) == FreeEntry(entries[..], k, n)
        invariant k < n && !found ==> i < nsects
        decreases nsects - i
      {
        var j := 0;
        while j < PER_SECTOR && k < n && !found
          invariant 0 <= j <= PER_SECTOR && 0 <= k <= n && k == i * PER_SECTOR + j
          invariant found ==> k < n && entries[k].ino == 0
          invariant FreeEntry(entries[..], 0, n) == FreeEntry(entries[..], k, n)
          decreases PER_SECTOR - j, !found
        {
          if entries[k].ino == 0 {
            found := true;
          } else {
            k := k + 1;
            j := j + 1;
          }
        }
        i := i + 1;
      }
      if !found {
        bytes := bytes + DIR_ENTRY_SIZE;
      }
      StoreEntry(k, ino, name);
    }

    /** Writing the entry: the inode number, then strcpy byte by byte. */
    method StoreEntry(k: nat, ino: nat, name: seq<char>)
      requires k < entries.Length && |name| <= MAX_FILENAME_LEN
      modifies entries
      ensures entries[..] == Store(old(entries[..]), k, ino, name)
    {
      var field := CopyField(entries[k].name, name);
      if |name| == MAX_FILENAME_LEN && k + 1 < entries.Length && (k + 1) % PER_SECTOR != 0 {
        var next := entries[k + 1];
        entries[k + 1] := next.(ino := next.ino - next.ino % 256);
      }
      entries[k] := Entry(ino, field);
    }

    /** The part of strcpy that falls into the name field. */
    method CopyField(was: Field, name: seq<char>) returns (field: Field)
      requires |name| <= MAX_FILENAME_LEN
      ensures field == if |name| < MAX_FILENAME_LEN then name + ['\0'] + was[|name| + 1..] else name
    {
      field := was;
      var b := 0;
      while b < |name|
        invariant 0 <= b <= |name|
        invariant forall x :: 0 <= x < MAX_FILENAME_LEN ==> field[x] == if x < b then name[x] else was[x]
      {
        field := field[b := name[b]];
        b := b + 1;
      }
      if b < MAX_FILENAME_LEN {
        field := field[b := '\0'];
      }
    }

    /** clear_directory_entry: fails its assertion when no entry has this inode number. */
    method ClearDirectoryEntry(ino: nat) returns (ok: bool)
      requires bytes / DIR_ENTRY_SIZE <= entries.Length
      modifies this, entries
      ensures var k := FindIno(old(entries[..]), ino, 0, old(bytes) / DIR_ENTRY_SIZE);
              && ok == k.Some?
              && (ok ==> var n := old(bytes) / DIR_ENTRY_SIZE; var (es', n') := RemoveAt(old(entries[..]), n, k.value);
                         entries[..] == es' && bytes == if k.value + 1 == n then n' * DIR_ENTRY_SIZE else old(bytes))
    {
      var n := bytes / DIR_ENTRY_SIZE;
      var nsects := (bytes + SECTOR_SIZE) / SECTOR_SIZE;
      var live := 0;
      var de := 0; // entries passed so far
      var i := 0;
      ok := false;
      while i < nsects && de < n && !ok
        invariant 0 <= de <= n && live == LiveBefore(entries[..], de) && entries[..] == old(entries[..])
        invariant !ok && de < n ==> de == i * PER_SECTOR
        invariant ok ==> de < n && entries[de].ino == ino
        invariant FindIno(entries[..], ino, 0, n) == FindIno(entries[..], ino, de, n)
        decreases nsects - i
      {
        var j := 0;
        while j < PER_SECTOR && de < n && !ok
          invariant 0 <= j <= PER_SECTOR && 0 <= de <= n && de == i * PER_SECTOR + j
          invariant live == LiveBefore(entries[..], de)
          invariant ok ==> de < n && entries[de].ino == ino
          invariant FindIno(entries[..], ino, 0, n) == FindIno(entries[..], ino, de, n)
          decreases PER_SECTOR - j, !ok
        {
          if entries[de].ino == ino {
            ok := true;
          } else {
            if entries[de].ino != 0 {
              live := live + 1;
            }
            de := de + 1;
            j := j + 1;
          }
        }
        i := i + 1;
      }
      if ok {
        entries[de] := ZERO;
        if de + 1 == n {
          bytes := live * DIR_ENTRY_SIZE;
        }
      }
    }
  }
}
