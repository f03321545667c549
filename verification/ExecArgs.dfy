/** lib/pm/exec.c and task/pm/exec.c: the argument block that execv packs on the caller's
    stack and do_exec moves, with its pointers rebased, to the top of the new image. */
module ExecArgs {
  import opened Common

  type Byte = b: int | 0 <= b < 256

  /** PROC_STACK_RESERVERD, PROC_SIZE and the stack pointer made of them. */
  const STACK_RESERVED: nat := 0x400
  const PROC_SIZE: nat := 0x100000
  const STACK_POINTER: nat := PROC_SIZE - STACK_RESERVED
  const TWO_TO_32: nat := 0x1_0000_0000

  // ---- memory as C sees it ----

  /** The little-endian word at address `a`. */
  function Word(m: seq<Byte>, a: nat): (w: nat)
    requires a + 4 <= |m|
    ensures w < TWO_TO_32
  {
    var b0: int, b1: int, b2: int, b3: int := m[a], m[a + 1], m[a + 2], m[a + 3];
    b0 + 256 * b1 + 65536 * b2 + 16777216 * b3
  }

  /** Pointer `i` of an array at `a`. */
  function Ptr(m: seq<Byte>, a: nat, i: nat): (w: nat)
    requires a + 4 * i + 4 <= |m|
    ensures w < TWO_TO_32
  {
    Word(m, a + 4 * i)
  }

  /** The `len` bytes of `m` from `a` are those of `n` from `b`. */
  predicate SameBytes(m: seq<Byte>, a: nat, n: seq<Byte>, b: nat, len: nat) {
    && a + len <= |m| && b + len <= |n|
    && forall k {:trigger m[k]} :: a <= k < a + len ==> m[k] == n[k - a + b]
  }

  lemma SamePtr(m: seq<Byte>, a: nat, n: seq<Byte>, b: nat, len: nat, i: nat)
    requires SameBytes(m, a, n, b, len) && 4 * i + 4 <= len
    ensures Ptr(m, a, i) == Ptr(n, b, i)
  {
    var x := a + 4 * i;
    assert m[x] == n[x - a + b] && m[x + 1] == n[x + 1 - a + b];
    assert m[x + 2] == n[x + 2 - a + b] && m[x + 3] == n[x + 3 - a + b];
  }

  /** `m` and `n` agree outside [a, b). */
  predicate SameOutside(m: seq<Byte>, n: seq<Byte>, a: nat, b: nat) {
    |m| == |n| && forall k {:trigger m[k]} :: 0 <= k < |m| && !(a <= k < b) ==> m[k] == n[k]
  }

  /** At `a` stands the string `s` and its terminator. */
  predicate CString(m: seq<Byte>, a: nat, s: seq<Byte>) {
    && a + |s| < |m| && m[a + |s|] == 0
    && forall k {:trigger s[k]} :: 0 <= k < |s| ==> m[a + k] == s[k] && s[k] != 0
  }

  lemma SameString(m: seq<Byte>, a: nat, n: seq<Byte>, b: nat, len: nat, at: nat, s: seq<Byte>)
    requires SameBytes(m, a, n, b, len) && at + |s| < len && CString(n, b + at, s)
    ensures CString(m, a + at, s)
  {
    assert m[a + at + |s|] == n[b + at + |s|];
    forall k {:trigger s[k]} | 0 <= k < |s| ensures m[a + at + k] == s[k] {
      assert m[a + at + k] == n[b + at + k];
    }
  }

  predicate CStrings(argv: seq<seq<Byte>>) {
    forall i, k :: 0 <= i < |argv| && 0 <= k < |argv[i]| ==> argv[i][k] != 0
  }

  /** Entry `i` of the pointer array at `at` points to argv[i], which lies between the array
      and `at + len`. */
  predicate Entry(m: seq<Byte>, at: nat, argv: seq<seq<Byte>>, len: nat, i: nat)
    requires i < |argv|
  {
    at + 4 * i + 4 <= |m| &&
    var w := Ptr(m, at, i);
    at + 4 * |argv| + 4 <= w && w + |argv[i]| < at + len && CString(m, w, argv[i])
  }

  /** In the `len` bytes at `at` stand a null-terminated array of pointers and, after it, the
      strings `argv` they point to. */
  predicate ArgVector(m: seq<Byte>, at: nat, argv: seq<seq<Byte>>, len: nat) {
    && 4 * |argv| + 4 <= len && at + len <= |m| && Ptr(m, at, |argv|) == 0
    && forall i {:trigger Entry(m, at, argv, len, i)} :: 0 <= i < |argv| ==> Entry(m, at, argv, len, i)
  }

  /** A memory holds at most one argument vector at an address: reading it back is unambiguous. */
  lemma ArgVectorUnique(m: seq<Byte>, at: nat, a: seq<seq<Byte>>, b: seq<seq<Byte>>, len: nat)
    requires ArgVector(m, at, a, len) && ArgVector(m, at, b, len)
    ensures a == b
  {
    CountUnique(m, at, a, b, len);
    CountUnique(m, at, b, a, len);
    forall i | 0 <= i < |a| ensures a[i] == b[i] {
      assert Entry(m, at, a, len, i) && Entry(m, at, b, len, i);
      var w := Ptr(m, at, i);
      NotLonger(m, w, a[i], b[i]);
      NotLonger(m, w, b[i], a[i]);
      assert forall k :: 0 <= k < |a[i]| ==> m[w + k] == a[i][k] && m[w + k] == b[i][k];
    }
  }

  lemma CountUnique(m: seq<Byte>, at: nat, a: seq<seq<Byte>>, b: seq<seq<Byte>>, len: nat)
    requires ArgVector(m, at, a, len) && ArgVector(m, at, b, len)
    ensures |a| >= |b|
  {
    assert |a| >= |b| || Entry(m, at, b, len, |a|);
  }

  lemma NotLonger(m: seq<Byte>, a: nat, s: seq<Byte>, t: seq<Byte>)
    requires CString(m, a, s) && CString(m, a, t)
    ensures |t| <= |s|
  {
    forall x {:trigger m[x]} | a <= x < a + |t| ensures m[x] != 0 {
      assert m[a + (x - a)] == t[x - a];
    }
  }

  // ---- execv ----

  /** Where string `i` goes, counted from the start of the block. */
  function Offset(argv: seq<seq<Byte>>, i: nat): (r: nat)
    requires i <= |argv|
    ensures r >= 4 * |argv| + 4 + i
  {
    if i == 0 then 4 * |argv| + 4 else Offset(argv, i - 1) + |argv[i - 1]| + 1
  }

  lemma {:induction false} OffsetGrows(argv: seq<seq<Byte>>, i: nat, j: nat)
    requires i < j <= |argv|
    ensures Offset(argv, i) + |argv[i]| + 1 <= Offset(argv, j)
    decreases j
  {
    if i < j - 1 { OffsetGrows(argv, i, j - 1); }
  }

  lemma LittleEndian(w: nat)
    requires w < TWO_TO_32
    ensures w / 256 / 256 / 256 < 256
    ensures w % 256 + 256 * (w / 256 % 256) + 65536 * (w / 256 / 256 % 256) + 16777216 * (w / 256 / 256 / 256) == w
  {
    var a := w / 256;
    var b := a / 256;
    assert w == 256 * a + w % 256 && a == 256 * b + a % 256 && b == 256 * (b / 256) + b % 256;
  }

  method WriteWord(mem: array<Byte>, a: nat, w: nat)
    requires a + 4 <= mem.Length && w < TWO_TO_32
    modifies mem
    ensures Word(mem[..], a) == w
    ensures SameOutside(mem[..], old(mem[..]), a, a + 4)
  {
    LittleEndian(w);
    mem[a], mem[a + 1], mem[a + 2], mem[a + 3] := w % 256, w / 256 % 256, w / 256 / 256 % 256, w / 256 / 256 / 256;
  }

  method Strcpy(mem: array<Byte>, a: nat, s: seq<Byte>)
    requires a + |s| < mem.Length && forall k :: 0 <= k < |s| ==> s[k] != 0
    modifies mem
    ensures CString(mem[..], a, s)
    ensures SameOutside(mem[..], old(mem[..]), a, a + |s| + 1)
  {
    for i := 0 to |s|
      invariant forall k {:trigger s[k]} :: 0 <= k < i ==> mem[a + k] == s[k]
      invariant forall k :: 0 <= k < mem.Length && !(a <= k < a + i) ==> mem[k] == old(mem[k])
    {
      mem[a + i] := s[i];
    }
    mem[a + |s|] := 0;
  }

  predicate PackedAt(m: seq<Byte>, base: nat, argv: seq<seq<Byte>>, i: nat)
    requires i < |argv|
  {
    base + 4 * i + 4 <= |m| && Ptr(m, base, i) == base + Offset(argv, i) && CString(m, base + Offset(argv, i), argv[i])
  }

  /** What the string loop has done after `n` strings. */
  predicate Packed(m: seq<Byte>, base: nat, argv: seq<seq<Byte>>, n: nat)
    requires n <= |argv|
  {
    && base + 4 * |argv| + 4 <= |m| && Ptr(m, base, |argv|) == 0
    && forall i {:trigger PackedAt(m, base, argv, i)} :: 0 <= i < n ==> PackedAt(m, base, argv, i)
  }

  /** One round: the pointer is written, then the string. */
  lemma PackedStep(m: seq<Byte>, m1: seq<Byte>, m2: seq<Byte>, base: nat, argv: seq<seq<Byte>>, n: nat)
    requires n < |argv| && Packed(m, base, argv, n)
    requires SameOutside(m1, m, base + 4 * n, base + 4 * n + 4) && Ptr(m1, base, n) == base + Offset(argv, n)
    requires SameOutside(m2, m1, base + Offset(argv, n), base + Offset(argv, n) + |argv[n]| + 1)
    requires CString(m2, base + Offset(argv, n), argv[n])
    ensures Packed(m2, base, argv, n + 1)
  {
    PackedFrame(m, m1, m2, base, argv, n);
    SamePtr(m2, base, m1, base, 4 * n + 4, n);
    assert PackedAt(m2, base, argv, n);
    NullStays(m, m2, base, argv, n);
    forall i | 0 <= i < n ensures PackedAt(m2, base, argv, i) {
      PackedStays(m, m2, base, argv, n, i);
    }
  }

  /** The bytes that one round leaves alone. */
  lemma PackedFrame(m: seq<Byte>, m1: seq<Byte>, m2: seq<Byte>, base: nat, argv: seq<seq<Byte>>, n: nat)
    requires n < |argv| && base + 4 * |argv| + 4 <= |m|
    requires SameOutside(m1, m, base + 4 * n, base + 4 * n + 4)
    requires SameOutside(m2, m1, base + Offset(argv, n), base + Offset(argv, n) + |argv[n]| + 1)
    requires base + Offset(argv, n) <= |m|
    ensures SameBytes(m2, base, m1, base, 4 * n + 4) && SameBytes(m2, base, m, base, 4 * n)
    ensures SameBytes(m2, base + 4 * n + 4, m, base + 4 * n + 4, Offset(argv, n) - 4 * n - 4)
  {
  }

  lemma NullStays(m: seq<Byte>, m2: seq<Byte>, base: nat, argv: seq<seq<Byte>>, n: nat)
    requires n < |argv| && base + 4 * |argv| + 4 <= |m|
    requires SameBytes(m2, base + 4 * n + 4, m, base + 4 * n + 4, Offset(argv, n) - 4 * n - 4)
    ensures base + 4 * |argv| + 4 <= |m2| && Ptr(m2, base, |argv|) == Ptr(m, base, |argv|)
  {
    var rest: nat := base + 4 * n + 4;
    SamePtr(m2, rest, m, rest, base + Offset(argv, n) - rest, |argv| - n - 1);
  }

  lemma PackedStays(m: seq<Byte>, m2: seq<Byte>, base: nat, argv: seq<seq<Byte>>, n: nat, i: nat)
    requires i < n < |argv| && PackedAt(m, base, argv, i)
    requires SameBytes(m2, base, m, base, 4 * n)
    requires SameBytes(m2, base + 4 * n + 4, m, base + 4 * n + 4, Offset(argv, n) - 4 * n - 4)
    ensures PackedAt(m2, base, argv, i)
  {
    OffsetGrows(argv, i, n);
    SamePtr(m2, base, m, base, 4 * n, i);
    var rest: nat := base + 4 * n + 4;
    SameString(m2, rest, m, rest, base + Offset(argv, n) - rest, base + Offset(argv, i) - rest, argv[i]);
  }

  /** execv fills the block at `base` of the caller's memory. It returns BUF_LEN, or None when an
      assertion stops it, which happens exactly when the block would not end below 1 KB. */
  method Execv(mem: array<Byte>, base: nat, argv: seq<seq<Byte>>) returns (len: Option<nat>)
    requires CStrings(argv) && base + STACK_RESERVED <= mem.Length <= TWO_TO_32
    modifies mem
    ensures len.Some? <==> Offset(argv, |argv|) < STACK_RESERVED
    ensures len.Some? ==> len.value == Offset(argv, |argv|) && ArgVector(mem[..], base, argv, len.value)
    ensures SameOutside(mem[..], old(mem[..]), base, base + STACK_RESERVED)
  {
    var n: nat := 0;
    for p := 0 to |argv|
      invariant n == 4 * p && (p > 0 ==> n + 4 < STACK_RESERVED)
      invariant mem[..] == old(mem[..])
    {
      if n + 8 >= STACK_RESERVED { return None; }
      n := n + 4;
    }
    WriteWord(mem, base + n, 0);
    assert Ptr(mem[..], base, |argv|) == 0;
    len := CopyStrings(mem, base, argv, n + 4);
    if len.Some? { PackedVector(mem[..], base, argv); }
  }

  /** The second loop of execv: each string and the pointer to it. */
  method CopyStrings(mem: array<Byte>, base: nat, argv: seq<seq<Byte>>, start: nat) returns (len: Option<nat>)
    requires CStrings(argv) && base + STACK_RESERVED <= mem.Length <= TWO_TO_32
    requires start == 4 * |argv| + 4 < STACK_RESERVED && Ptr(mem[..], base, |argv|) == 0
    modifies mem
    ensures len.Some? <==> Offset(argv, |argv|) < STACK_RESERVED
    ensures len.Some? ==> len.value == Offset(argv, |argv|) && Packed(mem[..], base, argv, |argv|)
    ensures SameOutside(mem[..], old(mem[..]), base, base + STACK_RESERVED)
  {
    var n := start;
    for p := 0 to |argv|
      invariant n == Offset(argv, p) && n < STACK_RESERVED
      invariant Packed(mem[..], base, argv, p)
      invariant SameOutside(mem[..], old(mem[..]), base, base + STACK_RESERVED)
    {
      ghost var m := mem[..];
      WriteWord(mem, base + 4 * p, base + n);
      OffsetGrows(argv, p, |argv|);
      if n + |argv[p]| + 1 >= STACK_RESERVED { return None; }
      ghost var m1 := mem[..];
      Strcpy(mem, base + n, argv[p]);
      PackedStep(m, m1, mem[..], base, argv, p);
      n := n + |argv[p]| + 1;
    }
    return Some(n);
  }

  lemma PackedVector(m: seq<Byte>, base: nat, argv: seq<seq<Byte>>)
    requires Packed(m, base, argv, |argv|) && base + Offset(argv, |argv|) <= |m|
    ensures ArgVector(m, base, argv, Offset(argv, |argv|))
  {
    var len := Offset(argv, |argv|);
    forall i | 0 <= i < |argv| ensures Entry(m, base, argv, len, i) {
      assert PackedAt(m, base, argv, i);
      OffsetGrows(argv, i, |argv|);
    }
  }

  // ---- do_exec ----

  /** phys_copy between two address spaces. */
  method PhysCopy(dst: array<Byte>, d: nat, src: array<Byte>, s: nat, n: nat)
    requires dst != src && d + n <= dst.Length && s + n <= src.Length
    modifies dst
    ensures SameBytes(dst[..], d, src[..], s, n)
    ensures SameOutside(dst[..], old(dst[..]), d, d + n)
  {
    for i := 0 to n
      invariant forall k {:trigger dst[k]} :: d <= k < d + i ==> dst[k] == src[k - d + s]
      invariant forall k :: 0 <= k < dst.Length && !(d <= k < d + i) ==> dst[k] == old(dst[k])
    {
      dst[d + i] := src[s + i];
    }
  }

  /** The first null word of the block is word `argc`. */
  predicate CountsTo(m: seq<Byte>, at: nat, argc: nat, len: nat) {
    && 4 * argc + 4 <= len && at + len <= |m| && Ptr(m, at, argc) == 0
    && forall k {:trigger Ptr(m, at, k)} :: 0 <= k < argc ==> Ptr(m, at, k) != 0
  }

  /** The 32-bit sum of a pointer and the signed distance to the new stack. */
  function Rebased(w: nat, buf: nat): (r: nat)
    ensures r < TWO_TO_32
  {
    (w + STACK_POINTER - buf) % TWO_TO_32
  }

  /** The first `argc` words at `at` are those at `buf`, rebased; the rest of the block is as it was. */
  predicate Relocated(m: seq<Byte>, buf: nat, m': seq<Byte>, at: nat, len: nat, argc: nat) {
    && buf + len <= |m| && at + len <= |m'| && 4 * argc <= len
    && (forall k {:trigger Ptr(m', at, k)} :: 0 <= k < argc ==> Ptr(m', at, k) == Rebased(Ptr(m, buf, k), buf))
    && SameBytes(m', at + 4 * argc, m, buf + 4 * argc, len - 4 * argc)
  }

  /** The argument part of do_exec over the memory of the process; the result is the argc that
      goes to ecx, while eax and esp become STACK_POINTER. */
  method DoExec(mem: array<Byte>, buf: nat, len: nat) returns (argc: nat)
    requires PROC_SIZE <= mem.Length && len <= STACK_RESERVED && buf + len <= mem.Length
    requires len > 0 ==> exists n: nat :: CountsTo(mem[..], buf, n, len)
    modifies mem
    ensures len == 0 ==> argc == 0
    ensures len > 0 ==> CountsTo(old(mem[..]), buf, argc, len)
    ensures Relocated(old(mem[..]), buf, mem[..], STACK_POINTER, len, argc)
    ensures SameOutside(mem[..], old(mem[..]), STACK_POINTER, STACK_POINTER + len)
  {
    var stackcopy := new Byte[STACK_RESERVED](_ => 0);
    PhysCopy(stackcopy, 0, mem, buf, len);
    argc := 0;
    if len > 0 {
      argc := RebaseAll(stackcopy, mem[..], buf, len);
    }
    ghost var m := mem[..];
    PhysCopy(mem, STACK_POINTER, stackcopy, 0, len);
    RelocatedCopy(m, buf, stackcopy[..], mem[..], len, argc);
  }

  lemma RelocatedCopy(m: seq<Byte>, buf: nat, block: seq<Byte>, m': seq<Byte>, len: nat, argc: nat)
    requires Relocated(m, buf, block, 0, len, argc) && SameBytes(m', STACK_POINTER, block, 0, len)
    ensures Relocated(m, buf, m', STACK_POINTER, len, argc)
  {
    forall k {:trigger Ptr(m', STACK_POINTER, k)} | 0 <= k < argc
      ensures Ptr(m', STACK_POINTER, k) == Rebased(Ptr(m, buf, k), buf)
    {
      SamePtr(m', STACK_POINTER, block, 0, len, k);
      assert Ptr(block, 0, k) == Rebased(Ptr(m, buf, k), buf);
    }
    forall k {:trigger m'[k]} | STACK_POINTER + 4 * argc <= k < STACK_POINTER + len
      ensures m'[k] == m[k - STACK_POINTER + buf]
    {
      assert m'[k] == block[k - STACK_POINTER];
    }
  }

  /** The pointer loop; `m` is the memory the block was copied from. */
  method RebaseAll(block: array<Byte>, ghost m: seq<Byte>, buf: nat, len: nat) returns (argc: nat)
    requires len <= block.Length && SameBytes(block[..], 0, m, buf, len)
    requires exists n: nat :: CountsTo(m, buf, n, len)
    modifies block
    ensures CountsTo(m, buf, argc, len)
    ensures Relocated(m, buf, block[..], 0, len, argc)
  {
    ghost var n: nat :| CountsTo(m, buf, n, len);
    argc := 0;
    SamePtr(block[..], 0, m, buf, len, 0);
    while Ptr(block[..], 0, argc) != 0
      invariant argc <= n
      invariant forall k {:trigger Ptr(m, buf, k)} :: 0 <= k < argc ==> Ptr(m, buf, k) != 0
      invariant Relocated(m, buf, block[..], 0, len, argc)
      invariant Ptr(block[..], 0, argc) == Ptr(m, buf, argc)
      decreases n - argc
    {
      ghost var b := block[..];
      WriteWord(block, 4 * argc, Rebased(Ptr(block[..], 0, argc), buf));
      RelocateStep(m, buf, b, block[..], len, argc);
      argc := argc + 1;
      SamePtr(block[..], 4 * argc, m, buf + 4 * argc, len - 4 * argc, 0);
    }
  }

  lemma RelocateStep(m: seq<Byte>, buf: nat, b: seq<Byte>, b': seq<Byte>, len: nat, argc: nat)
    requires Relocated(m, buf, b, 0, len, argc) && 4 * argc + 4 <= len
    requires SameOutside(b', b, 4 * argc, 4 * argc + 4) && Ptr(b', 0, argc) == Rebased(Ptr(m, buf, argc), buf)
    ensures Relocated(m, buf, b', 0, len, argc + 1)
  {
    assert SameBytes(b', 0, b, 0, 4 * argc);
    forall k {:trigger Ptr(b', 0, k)} | 0 <= k < argc + 1 ensures Ptr(b', 0, k) == Rebased(Ptr(m, buf, k), buf) {
      if k < argc {
        SamePtr(b', 0, b, 0, 4 * argc, k);
        assert Ptr(b, 0, k) == Rebased(Ptr(m, buf, k), buf);
      }
    }
    forall k {:trigger b'[k]} | 4 * argc + 4 <= k < len ensures b'[k] == m[k + buf] {
      assert b'[k] == b[k] && b[k] == m[k - 4 * argc + (buf + 4 * argc)];
    }
  }

  /** The relocation carries an argument vector over unchanged. */
  lemma RelocationKeeps(m: seq<Byte>, m': seq<Byte>, buf: nat, len: nat, argc: nat, argv: seq<seq<Byte>>)
    requires ArgVector(m, buf, argv, len) && len <= STACK_RESERVED
    requires CountsTo(m, buf, argc, len) && Relocated(m, buf, m', STACK_POINTER, len, argc)
    ensures argc == |argv| && ArgVector(m', STACK_POINTER, argv, len)
  {
    assert argc >= |argv| || Entry(m, buf, argv, len, argc);
    assert argc == |argv|;
    var sp, n := STACK_POINTER, 4 * argc;
    SamePtr(m', sp + n, m, buf + n, len - n, 0);
    forall i | 0 <= i < |argv| ensures Entry(m', sp, argv, len, i) {
      assert Entry(m, buf, argv, len, i);
      EntryMoves(m, m', buf, len, argv, i);
    }
  }

  /** One pointer and its string, moved by the same distance. */
  lemma EntryMoves(m: seq<Byte>, m': seq<Byte>, buf: nat, len: nat, argv: seq<seq<Byte>>, i: nat)
    requires i < |argv| && Entry(m, buf, argv, len, i) && len <= STACK_RESERVED
    requires Relocated(m, buf, m', STACK_POINTER, len, |argv|)
    ensures Entry(m', STACK_POINTER, argv, len, i)
  {
    var sp, n, w := STACK_POINTER, 4 * |argv|, Ptr(m, buf, i);
    assert Ptr(m', sp, i) == w + sp - buf;
    SameString(m', sp + n, m, buf + n, len - n, w - buf - n, argv[i]);
  }

  lemma VectorFrame(m: seq<Byte>, m': seq<Byte>, base: nat, argv: seq<seq<Byte>>, len: nat)
    requires ArgVector(m, base, argv, len) && SameBytes(m', base, m, base, len)
    ensures ArgVector(m', base, argv, len)
  {
    SamePtr(m', base, m, base, len, |argv|);
    forall i | 0 <= i < |argv| ensures Entry(m', base, argv, len, i) {
      assert Entry(m, base, argv, len, i);
      SamePtr(m', base, m, base, len, i);
      SameString(m', base, m, base, len, Ptr(m, base, i) - base, argv[i]);
    }
  }

  lemma VectorCounts(m: seq<Byte>, base: nat, argv: seq<seq<Byte>>, len: nat)
    requires ArgVector(m, base, argv, len)
    ensures CountsTo(m, base, |argv|, len)
  {
    forall k {:trigger Ptr(m, base, k)} | 0 <= k < |argv| ensures Ptr(m, base, k) != 0 {
      assert Entry(m, base, argv, len, k);
    }
  }

  /** A loadable segment of the new image. */
  datatype Segment = Segment(at: nat, bytes: seq<Byte>)

  predicate Spares(g: Segment, base: nat, size: nat) {
    g.at + |g.bytes| <= size && (g.at + |g.bytes| <= base || base + STACK_RESERVED <= g.at)
  }

  method LoadSegment(mem: array<Byte>, g: Segment, base: nat)
    requires Spares(g, base, mem.Length) && base + STACK_RESERVED <= mem.Length
    modifies mem
    ensures SameBytes(mem[..], base, old(mem[..]), base, STACK_RESERVED)
  {
    for i := 0 to |g.bytes|
      invariant forall k :: 0 <= k < mem.Length && !(g.at <= k < g.at + |g.bytes|) ==> mem[k] == old(mem[k])
    {
      mem[g.at + i] := g.bytes[i];
    }
  }

  /** execv, then an image loaded anywhere but over the block, then do_exec: the new program
      finds exactly the arguments the old one passed, inside the reserved 1 KB. */
  method ExecRoundTrip(mem: array<Byte>, base: nat, argv: seq<seq<Byte>>, image: seq<Segment>)
    returns (argc: Option<nat>)
    requires CStrings(argv) && PROC_SIZE <= mem.Length <= TWO_TO_32 && base + STACK_RESERVED <= mem.Length
    requires forall i :: 0 <= i < |image| ==> Spares(image[i], base, mem.Length)
    modifies mem
    ensures argc.Some? <==> Offset(argv, |argv|) < STACK_RESERVED
    ensures argc.Some? ==> argc.value == |argv| && ArgVector(mem[..], STACK_POINTER, argv, Offset(argv, |argv|))
  {
    var len := Execv(mem, base, argv);
    if len.None? { return None; }
    for i := 0 to |image|
      invariant ArgVector(mem[..], base, argv, len.value)
    {
      ghost var m := mem[..];
      LoadSegment(mem, image[i], base);
      VectorFrame(m, mem[..], base, argv, len.value);
    }
    ghost var m := mem[..];
    VectorCounts(m, base, argv, len.value);
    var n := DoExec(mem, base, len.value);
    RelocationKeeps(m, mem[..], base, len.value, n, argv);
    return Some(n);
  }
}
