/** kernel/descriptor.c and the segments that task/pm gives forked processes: descriptors are
    the packed records of section 3.4.5 of the Intel SDM Volume 3A, addresses 32-bit words. */
module Descriptor {
  import opened Common

  datatype Desc = Desc(limitLow: bv16, baseLow: bv16, baseMid: bv8, attr1: bv8, limitHighAttr2: bv8, baseHigh: bv8)

  /** make_gdt_desc. */
  function MakeGdtDesc(base: bv32, limit: bv32, attribute: bv16): Desc {
    Desc((limit & 0xFFFF) as bv16,
         (base & 0xFFFF) as bv16,
         ((base >> 16) & 0xFF) as bv8,
         (attribute & 0xFF) as bv8,
         ((limit >> 16) & 0x0F) as bv8 | ((attribute >> 8) & 0xF0) as bv8,
         ((base >> 24) & 0xFF) as bv8)
  }

  /** gdt_ldt_to_base_addr and ldt_idx_to_base_addr. */
  function BaseOf(d: Desc): bv32 {
    (d.baseHigh as bv32 << 24) | (d.baseMid as bv32 << 16) | d.baseLow as bv32
  }

  /** The limit as do_fork reassembles it. */
  function LimitOf(d: Desc): bv32 {
    ((d.limitHighAttr2 & 0xF) as bv32 << 16) + d.limitLow as bv32
  }

  function AttrOf(d: Desc): bv16 {
    ((d.limitHighAttr2 & 0xF0) as bv16 << 8) | d.attr1 as bv16
  }

  /** Encoding then decoding loses nothing but the bits a descriptor has no room for. */
  lemma DecodeEncoded(base: bv32, limit: bv32, attribute: bv16)
    ensures BaseOf(MakeGdtDesc(base, limit, attribute)) == base
    ensures LimitOf(MakeGdtDesc(base, limit, attribute)) == limit & 0xFFFFF
    ensures AttrOf(MakeGdtDesc(base, limit, attribute)) == attribute & 0xF0FF
  {
  }

  /** Decoding then encoding gives back every descriptor. */
  lemma EncodeDecoded(d: Desc)
    ensures MakeGdtDesc(BaseOf(d), LimitOf(d), AttrOf(d)) == d
  {
  }

  // ---- segments of a process ----

  const PROC_BASE: bv32 := 0xA00000
  const PROC_SIZE: bv32 := 0x100000
  /** DA_LIMIT_4K | DA_32 | DA_C | PRIVILEGE_USER << 5, and the same with DA_DRW. */
  const CODE_ATTR: bv16 := 0xC0F8
  const DATA_ATTR: bv16 := 0xC0F2

  datatype Segments = Segments(code: Desc, data: Desc)

  /** C's signed comparison of 32-bit words. */
  predicate SignedLess(a: bv32, b: bv32) { (a ^ 0x8000_0000) < (b ^ 0x8000_0000) }

  /** A segment's size in bytes: the limit counts bytes, or pages of 4096. */
  function SizeFrom(limit: bv32, d: Desc): bv32 {
    if d.limitHighAttr2 & 0x80 != 0 then (limit + 1) * 4096 else limit + 1
  }

  /** The boot-time processes come first in the table; Forked(i) is the i-th slot after them. */
  datatype Pid = Native(nr: nat) | Forked(i: bv32)

  function SlotBase(i: bv32): bv32 { PROC_BASE + i * PROC_SIZE }

  /** alloc_mem; None where it asserts or panics. */
  function AllocMem(pid: Pid, size: bv32, memory: bv32): Option<bv32> {
    if pid.Native? || SignedLess(PROC_SIZE, size) then None else
    var base := SlotBase(pid.i);
    if !SignedLess(base + size, memory) then None else Some(base)
  }

  /** The segment part of do_fork: the child's segments, or None where it asserts or panics. The
      data segment's size is computed from the code segment's limit, as in the source. */
  function ForkSegments(parent: Segments, child: Pid, memory: bv32): Option<Segments> {
    var limit := LimitOf(parent.code);
    var size := SizeFrom(limit, parent.code);
    if BaseOf(parent.code) != BaseOf(parent.data) || limit != LimitOf(parent.data)
       || size != SizeFrom(limit, parent.data) then None else
    match AllocMem(child, size, memory)
    case None => None
    case Some(base) =>
      Some(Segments(MakeGdtDesc(base, (PROC_SIZE - 1) >> 12, CODE_ATTR),
                    MakeGdtDesc(base, (PROC_SIZE - 1) >> 12, DATA_ATTR)))
  }

  /** Both segments are the 1 MB block of slot `i`, for user code and user data. */
  predicate Placed(s: Segments, i: bv32) {
    && BaseOf(s.code) == SlotBase(i) && BaseOf(s.data) == SlotBase(i)
    && LimitOf(s.code) == 0xFF && LimitOf(s.data) == 0xFF
    && AttrOf(s.code) == CODE_ATTR && AttrOf(s.data) == DATA_ATTR
  }

  lemma ForkPlaces(parent: Segments, child: Pid, memory: bv32)
    requires ForkSegments(parent, child, memory).Some?
    ensures child.Forked? && Placed(ForkSegments(parent, child, memory).value, child.i)
  {
    DecodeEncoded(SlotBase(child.i), (PROC_SIZE - 1) >> 12, CODE_ATTR);
    DecodeEncoded(SlotBase(child.i), (PROC_SIZE - 1) >> 12, DATA_ATTR);
    assert (PROC_SIZE - 1) >> 12 == 0xFF && (0xFF as bv32) & 0xFFFFF == 0xFF;
    assert CODE_ATTR & 0xF0FF == CODE_ATTR && DATA_ATTR & 0xF0FF == DATA_ATTR;
  }

  lemma PageSize(s: Segments, i: bv32)
    requires Placed(s, i)
    ensures SizeFrom(LimitOf(s.code), s.code) == PROC_SIZE == SizeFrom(LimitOf(s.code), s.data)
  {
    PagesSet(s.code);
    PagesSet(s.data);
  }

  lemma PagesSet(d: Desc)
    requires AttrOf(d) == CODE_ATTR || AttrOf(d) == DATA_ATTR
    ensures d.limitHighAttr2 & 0x80 != 0
  {
  }

  /** A forked process asks for exactly PROC_SIZE, so its fork fails only when the memory ends
      within or right after the child's block. */
  lemma ForkOfForked(s: Segments, i: bv32, j: bv32, memory: bv32)
    requires Placed(s, i)
    ensures SizeFrom(LimitOf(s.code), s.code) == PROC_SIZE
    ensures ForkSegments(s, Forked(j), memory).Some? <==> SignedLess(SlotBase(j) + PROC_SIZE, memory)
  {
    PageSize(s, i);
    ForkIsAlloc(s, Forked(j), memory, PROC_SIZE);
    AllocFull(j, memory);
  }

  /** With segments that agree, a fork succeeds when the memory request does. */
  lemma ForkIsAlloc(s: Segments, child: Pid, memory: bv32, size: bv32)
    requires BaseOf(s.code) == BaseOf(s.data) && LimitOf(s.code) == LimitOf(s.data)
    requires SizeFrom(LimitOf(s.code), s.code) == size == SizeFrom(LimitOf(s.code), s.data)
    ensures ForkSegments(s, child, memory).Some? <==> AllocMem(child, size, memory).Some?
  {
  }

  lemma AllocFull(j: bv32, memory: bv32)
    ensures AllocMem(Forked(j), PROC_SIZE, memory).Some? <==> SignedLess(SlotBase(j) + PROC_SIZE, memory)
  {
    assert !SignedLess(PROC_SIZE, PROC_SIZE);
    var a := AllocMem(Forked(j), PROC_SIZE, memory);
    var end := SlotBase(j) + PROC_SIZE;
    if SignedLess(end, memory) {
      assert a == Some(SlotBase(j));
    } else {
      assert a == None;
    }
  }

  datatype Birth = Birth(parent: Pid, child: Pid)

  /** Every chain of forks, in any order and with slots reused. */
  function Exec(ldts: map<Pid, Segments>, forks: seq<Birth>, memory: bv32): Option<map<Pid, Segments>>
    decreases |forks|
  {
    if forks == [] then Some(ldts) else
    var Birth(parent, child) := forks[0];
    if parent !in ldts then None else
    match ForkSegments(ldts[parent], child, memory)
    case None => None
    case Some(s) => Exec(ldts[child := s], forks[1..], memory)
  }

  predicate AllPlaced(ldts: map<Pid, Segments>) {
    forall p :: p in ldts && p.Forked? ==> Placed(ldts[p], p.i)
  }

  lemma {:induction false} ForksPlaced(ldts: map<Pid, Segments>, forks: seq<Birth>, memory: bv32)
    requires AllPlaced(ldts) && Exec(ldts, forks, memory).Some?
    ensures AllPlaced(Exec(ldts, forks, memory).value)
    decreases |forks|
  {
    if forks != [] {
      var Birth(parent, child) := forks[0];
      ForkPlaces(ldts[parent], child, memory);
      ForksPlaced(ldts[child := ForkSegments(ldts[parent], child, memory).value], forks[1..], memory);
    }
  }

  // ---- addresses ----

  /** proc_va2la; None where the kernel's assertion fails, which exempts forked processes. */
  function ProcVa2La(pid: Pid, s: Segments, va: bv32): Option<bv32> {
    var la := BaseOf(s.data) + va;
    if pid.Native? && la != va then None else Some(la)
  }

  /** How many slots have blocks whose addresses are positive C integers; the table has 28. */
  const MAX_FORKED: bv32 := 2037

  lemma BlocksApart(i: bv32, j: bv32, va: bv32, vb: bv32)
    requires i < MAX_FORKED && j < MAX_FORKED && i != j && va < PROC_SIZE && vb < PROC_SIZE
    ensures SlotBase(i) + va != SlotBase(j) + vb
    ensures PROC_BASE <= SlotBase(i) <= SlotBase(i) + va < SlotBase(i) + PROC_SIZE < 0x8000_0000
  {
  }

  /** Along every chain of forks no two forked processes share a linear address: each has its
      own block, and none reaches below PROC_BASE. */
  lemma LinearRangesDisjoint(ldts: map<Pid, Segments>, forks: seq<Birth>, memory: bv32, i: bv32, j: bv32, va: bv32,
                             vb: bv32)
    requires AllPlaced(ldts) && Exec(ldts, forks, memory).Some?
    requires var e := Exec(ldts, forks, memory).value; Forked(i) in e && Forked(j) in e
    requires i != j && i < MAX_FORKED && j < MAX_FORKED && va < PROC_SIZE && vb < PROC_SIZE
    ensures var e := Exec(ldts, forks, memory).value;
      var la, lb := ProcVa2La(Forked(i), e[Forked(i)], va), ProcVa2La(Forked(j), e[Forked(j)], vb);
      && la == Some(SlotBase(i) + va) && lb == Some(SlotBase(j) + vb) && la != lb
      && PROC_BASE <= SlotBase(i) <= la.value < SlotBase(i) + PROC_SIZE < 0x8000_0000
  {
    ForksPlaced(ldts, forks, memory);
    var e := Exec(ldts, forks, memory).value;
    assert Placed(e[Forked(i)], i) && Placed(e[Forked(j)], j);
    PlacedAddress(e[Forked(i)], i, va);
    PlacedAddress(e[Forked(j)], j, vb);
    BlocksApart(i, j, va, vb);
  }

  lemma PlacedAddress(s: Segments, i: bv32, va: bv32)
    requires Placed(s, i)
    ensures ProcVa2La(Forked(i), s, va) == Some(SlotBase(i) + va)
  {
  }
}
