/** What fork, exit and wait do to every slot of the table, and which answers they send. */
module PmEffects {
  import opened Common
  import opened Pm
  import opened PmRuns

  /** Slot `p` is now `x`; no other slot has changed. */
  predicate OnlySlot(a: seq<Proc>, b: seq<Proc>, p: nat, x: Proc) {
    && |b| == |a| && p < |b| && b[p] == x
    && forall j :: 0 <= j < |a| && j != p ==> b[j] == a[j]
  }

  /** `c` has exited, and its parent `p` has not been told. */
  predicate ZombieOf(procs: seq<Proc>, p: nat, c: nat) {
    c < |procs| && procs[c].parent == Some(p) && procs[c].hanging
  }

  predicate HasZombie(procs: seq<Proc>, p: nat) {
    exists c :: 0 <= c < |procs| && ZombieOf(procs, p, c)
  }

  predicate FirstZombie(procs: seq<Proc>, p: nat, c: nat) {
    ZombieOf(procs, p, c) && forall j :: 0 <= j < c ==> !ZombieOf(procs, p, j)
  }

  // ---- wait ----

  /** A wait is answered at once with the status of the first exited child, whose slot becomes free;
      without one the caller waits, if any slot names it as parent; and it gets the error reply if
      none does. Nothing else changes. */
  lemma WaitDoes(pm: Pm, p: nat) returns (c: nat)
    requires p < |pm.procs|
    ensures var pm' := Wait(pm, p);
            if HasZombie(pm.procs, p) then
              && FirstZombie(pm.procs, p, c)
              && pm'.log == pm.log + [Waited(p), Reply(p, Some(c), pm.procs[c].status)]
              && OnlySlot(pm.procs, pm'.procs, c, pm.procs[c].(free := true, waiting := false, hanging := false))
            else if exists j :: 0 <= j < |pm.procs| && pm.procs[j].parent == Some(p) then
              pm'.log == pm.log + [Waited(p)] && OnlySlot(pm.procs, pm'.procs, p, pm.procs[p].(waiting := true))
            else pm'.log == pm.log + [Waited(p), Reply(p, None, 0)] && pm'.procs == pm.procs
  {
    var h := HangingChild(pm.procs, p, 0);
    if h.Some? {
      c := h.value;
      FirstHanging(pm.procs, p, 0);
    } else {
      c := 0;
    }
    assert CountsChild(pm.procs, p) <==> exists j :: 0 <= j < |pm.procs| && pm.procs[j].parent == Some(p);
  }

  lemma {:induction false} FirstHanging(procs: seq<Proc>, p: nat, i: nat)
    requires i <= |procs|
    ensures HangingChild(procs, p, i).Some? ==>
              ZombieOf(procs, p, HangingChild(procs, p, i).value)
              && forall j :: i <= j < HangingChild(procs, p, i).value ==> !ZombieOf(procs, p, j)
    decreases |procs| - i
  {
    if i < |procs| { FirstHanging(procs, p, i + 1); }
  }

  // ---- fork ----

  /** A fork fills the first free slot with a copy of the caller, whose child it is, and changes
      nothing else; without a free slot it changes nothing at all. */
  lemma ForkDoes(pm: Pm, p: nat) returns (c: nat)
    requires p < |pm.procs|
    ensures if exists j :: 0 <= j < |pm.procs| && pm.procs[j].free then
              && c < |pm.procs| && pm.procs[c].free && (forall j :: 0 <= j < c ==> !pm.procs[j].free)
              && OnlySlot(pm.procs, Fork(pm, p).procs, c, pm.procs[p].(parent := Some(p)))
              && Fork(pm, p).log == pm.log + [Forked(c, p)]
            else Fork(pm, p) == pm
  {
    var r := FirstFree(pm.procs, 0);
    c := if r.Some? then r.value else 0;
  }

  // ---- exit ----

  /** The slot `x` becomes after children of `p` have been handed to INIT, and `told` is the slot
      of the one INIT has been told about. */
  predicate Adopted(x: Proc, y: Proc, j: nat, p: nat, init: nat, told: Option<nat>) {
    && y.parent == (if x.parent == Some(p) then Some(init) else x.parent) && y.status == x.status
    && y.free == (x.free || told == Some(j)) && y.hanging == (x.hanging && told != Some(j))
    && y.waiting == (x.waiting && told != Some(j) && !(told.Some? && j == init))
  }

  lemma ReparentOneDoes(pm: Pm, p: nat, i: nat)
    requires i < |pm.procs| && pm.init < |pm.procs| && pm.init != p
    ensures var r := ReparentOne(pm, p, i);
            var told := if pm.procs[pm.init].waiting && ZombieOf(pm.procs, p, i) then Some(i) else None;
            && (forall j :: 0 <= j < |pm.procs| && j != i ==>
                  r.procs[j] == pm.procs[j].(waiting := pm.procs[j].waiting && !(told.Some? && j == pm.init)))
            && Adopted(pm.procs[i], r.procs[i], i, p, pm.init, told)
            && r.log == pm.log + if told.Some? then [Reply(pm.init, told, pm.procs[i].status)] else []
  {
  }

  /** The loop of do_exit from slot `i` on: every child of `p` gets INIT as its parent, and if INIT
      waits it is told about the first of them that has exited. */
  lemma {:induction false} ReparentDoes(pm: Pm, p: nat, i: nat) returns (told: Option<nat>)
    requires i <= |pm.procs| && pm.init < |pm.procs| && pm.init != p
    requires forall j :: 0 <= j < i ==> pm.procs[j].parent != Some(p)
    ensures told.Some? <==> pm.procs[pm.init].waiting && HasZombie(pm.procs, p)
    ensures told.Some? ==> FirstZombie(pm.procs, p, told.value)
    ensures forall j :: 0 <= j < |pm.procs| ==>
              Adopted(pm.procs[j], Reparent(pm, p, i).procs[j], j, p, pm.init, told)
    ensures Reparent(pm, p, i).log ==
            pm.log + if told.Some? then [Reply(pm.init, told, pm.procs[told.value].status)] else []
    decreases |pm.procs| - i
  {
    told := None;
    if i < |pm.procs| {
      ReparentOneDoes(pm, p, i);
      var pm1 := ReparentOne(pm, p, i);
      var rest := ReparentDoes(pm1, p, i + 1);
      assert forall j :: 0 <= j < |pm.procs| && j != i ==> ZombieOf(pm1.procs, p, j) == ZombieOf(pm.procs, p, j);
      told := if pm.procs[pm.init].waiting && ZombieOf(pm.procs, p, i) then Some(i) else rest;
      forall j | 0 <= j < |pm.procs| ensures Adopted(pm.procs[j], Reparent(pm, p, i).procs[j], j, p, pm.init, told) {
        assert Adopted(pm1.procs[j], Reparent(pm, p, i).procs[j], j, p, pm.init, rest);
      }
    }
  }

  lemma ExitSelfDoes(pm: Pm, p: nat, status: int)
    requires p < |pm.procs| && pm.procs[p].Active() && pm.procs[p].parent.Some?
    requires pm.procs[p].parent.value < |pm.procs| && pm.procs[p].parent.value != p
    ensures var x, q := ExitSelf(pm, p, status), pm.procs[p].parent.value; var answered := pm.procs[q].waiting;
            && x.procs[p] == pm.procs[p].(status := status, free := answered, hanging := !answered)
            && (forall j :: 0 <= j < |pm.procs| && j != p ==>
                  x.procs[j] == pm.procs[j].(waiting := pm.procs[j].waiting && !(answered && j == q)))
            && x.log == pm.log + [Exited(p, status)] + (if answered then [Reply(q, Some(p), status)] else [])
            && (forall j :: 0 <= j < |pm.procs| ==> ZombieOf(x.procs, p, j) == ZombieOf(pm.procs, p, j))
  {
  }

  /** An exit answers the parent with the status at once if that waits, and frees the slot; otherwise
      the slot hangs with the status. Then INIT becomes the parent of every child, and if it still
      waits it is told about the first of them that has exited. Nothing else changes. */
  lemma ExitDoes(pm: Pm, p: nat, status: int) returns (told: Option<nat>)
    requires Ok(pm, None) && pm.natives <= p < |pm.procs| && pm.procs[p].Active()
    ensures pm.procs[p].parent.Some? && pm.procs[p].parent.value < |pm.procs|
    ensures var pm', q := Exit(pm, p, status), pm.procs[p].parent.value;
            var answered := pm.procs[q].waiting;
            && (told.Some? <==> pm.procs[pm.init].waiting && !(answered && q == pm.init) && HasZombie(pm.procs, p))
            && (told.Some? ==> FirstZombie(pm.procs, p, told.value))
            && pm'.log == pm.log + [Exited(p, status)] + (if answered then [Reply(q, Some(p), status)] else [])
                          + (if told.Some? then [Reply(pm.init, told, pm.procs[told.value].status)] else [])
            && |pm'.procs| == |pm.procs|
            && pm'.procs[p] == pm.procs[p].(status := status, free := answered, hanging := !answered)
            && forall j :: 0 <= j < |pm.procs| && j != p ==>
                 var x := pm.procs[j].(waiting := pm.procs[j].waiting && !(answered && j == q));
                 Adopted(x, pm'.procs[j], j, p, pm.init, told)
  {
    ExitSelfOk(pm, p, status);
    assert ParentOk(pm.procs, pm.natives, pm.init, p, None) && SlotOk(pm.procs, pm.natives, pm.init, p);
    var x, q := ExitSelf(pm, p, status), pm.procs[p].parent.value;
    ExitSelfDoes(pm, p, status);
    told := ReparentDoes(x, p, 0);
    assert Adopted(x.procs[p], Exit(pm, p, status).procs[p], p, p, pm.init, told);
  }
}
