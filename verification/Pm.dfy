/** task/pm: fork, exit and wait as steps over the process table, with the history of what
    the process manager has been asked and has answered. */
module Pm {
  import opened Common

  /** The state bits and fields that task/pm uses; `parent` None is NO_TASK. */
  datatype Proc = Proc(free: bool, waiting: bool, hanging: bool, parent: Option<nat>, status: int) {
    predicate Active() { !free && !waiting && !hanging }
  }

  datatype Event =
    | Forked(child: nat, parent: nat)
    | Exited(pid: nat, status: int)
    | Waited(pid: nat)
    | Reply(to: nat, about: Option<nat>, status: int)

  /** Slots below `natives` belong to the tasks and the processes started at boot, one of
      which is `init`; forked processes live above. */
  datatype Pm = Pm(procs: seq<Proc>, natives: nat, init: nat, log: seq<Event>)

  // ---- the operations ----

  /** proc_cleanup: the parent gets the status, the slot becomes free; `p_parent` stays. */
  function Cleanup(pm: Pm, i: nat): Pm
    requires i < |pm.procs| && pm.procs[i].parent.Some?
  {
    var x := pm.procs[i];
    pm.(procs := pm.procs[i := Proc(true, false, false, x.parent, x.status)],
        log := pm.log + [Reply(x.parent.value, Some(i), x.status)])
  }

  function FirstFree(procs: seq<Proc>, i: nat): (r: Option<nat>)
    requires i <= |procs|
    ensures r.Some? ==> i <= r.value < |procs| && procs[r.value].free && forall j :: i <= j < r.value ==> !procs[j].free
    ensures r.None? ==> forall j :: i <= j < |procs| ==> !procs[j].free
    decreases |procs| - i
  {
    if i == |procs| then None else if procs[i].free then Some(i) else FirstFree(procs, i + 1)
  }

  /** do_fork: the child is a copy of the caller's table entry. */
  function Fork(pm: Pm, p: nat): Pm
    requires p < |pm.procs|
  {
    match FirstFree(pm.procs, 0)
    case None => pm
    case Some(c) => pm.(procs := pm.procs[c := pm.procs[p].(parent := Some(p))], log := pm.log + [Forked(c, p)])
  }

  /** do_exit before its loop: a waiting parent is answered at once, otherwise the process
      hangs. */
  function ExitSelf(pm: Pm, p: nat, status: int): (r: Pm)
    requires p < |pm.procs| && pm.procs[p].parent.Some? && pm.procs[p].parent.value < |pm.procs|
    ensures |r.procs| == |pm.procs| && r.natives == pm.natives && r.init == pm.init
  {
    var q := pm.procs[p].parent.value;
    var pm1 := pm.(procs := pm.procs[p := pm.procs[p].(status := status)], log := pm.log + [Exited(p, status)]);
    if pm1.procs[q].waiting then
      Cleanup(pm1.(procs := pm1.procs[q := pm1.procs[q].(waiting := false)]), p)
    else pm1.(procs := pm1.procs[p := pm1.procs[p].(hanging := true)])
  }

  /** One round of the loop of do_exit. */
  function ReparentOne(pm: Pm, p: nat, i: nat): (r: Pm)
    requires i < |pm.procs| && pm.init < |pm.procs|
    ensures |r.procs| == |pm.procs| && r.natives == pm.natives && r.init == pm.init
  {
    if pm.procs[i].parent != Some(p) then pm else
    var pm1 := pm.(procs := pm.procs[i := pm.procs[i].(parent := Some(pm.init))]);
    if pm1.procs[pm.init].waiting && pm1.procs[i].hanging then
      var pm2 := pm1.(procs := pm1.procs[pm.init := pm1.procs[pm.init].(waiting := false)]);
      if pm2.procs[i].parent.Some? then Cleanup(pm2, i) else pm2
    else pm1
  }

  function Reparent(pm: Pm, p: nat, i: nat): (r: Pm)
    requires i <= |pm.procs| && pm.init < |pm.procs|
    ensures |r.procs| == |pm.procs| && r.natives == pm.natives && r.init == pm.init
    decreases |pm.procs| - i
  {
    if i == |pm.procs| then pm else Reparent(ReparentOne(pm, p, i), p, i + 1)
  }

  function Exit(pm: Pm, p: nat, status: int): Pm
    requires p < |pm.procs| && pm.init < |pm.procs|
    requires pm.procs[p].parent.Some? && pm.procs[p].parent.value < |pm.procs|
  {
    Reparent(ExitSelf(pm, p, status), p, 0)
  }

  /** The first hanging child of `p` from slot `i` on. */
  function HangingChild(procs: seq<Proc>, p: nat, i: nat): (r: Option<nat>)
    requires i <= |procs|
    ensures r.Some? ==> i <= r.value < |procs| && procs[r.value].parent == Some(p) && procs[r.value].hanging
    ensures r.None? ==> forall j :: i <= j < |procs| && procs[j].parent == Some(p) ==> !procs[j].hanging
    decreases |procs| - i
  {
    if i == |procs| then None
    else if procs[i].parent == Some(p) && procs[i].hanging then Some(i)
    else HangingChild(procs, p, i + 1)
  }

  /** do_wait's child count: it includes free slots that were children once. */
  predicate CountsChild(procs: seq<Proc>, p: nat) {
    exists i :: 0 <= i < |procs| && procs[i].parent == Some(p)
  }

  function Wait(pm: Pm, p: nat): Pm
    requires p < |pm.procs|
  {
    var pm1 := pm.(log := pm.log + [Waited(p)]);
    match HangingChild(pm.procs, p, 0)
    case Some(c) => Cleanup(pm1, c)
    case None =>
      if CountsChild(pm.procs, p) then pm1.(procs := pm.procs[p := pm.procs[p].(waiting := true)])
      else pm1.(log := pm1.log + [Reply(p, None, 0)])
  }

  // ---- the history ----

  datatype Phase = Gone | Live | Zombie(status: int)

  /** Where a process slot stands in its life, as the events tell it. */
  function PhaseOf(log: seq<Event>, pid: nat): Phase {
    if log == [] then Gone else
    var e, before := log[|log| - 1], PhaseOf(log[..|log| - 1], pid);
    match e
    case Forked(c, _) => if c == pid then Live else before
    case Exited(p, st) => if p == pid then Zombie(st) else before
    case Reply(_, c, _) => if c == Some(pid) then Gone else before
    case Waited(_) => before
  }

  /** The parent of a process, as the events tell it: its creator, or INIT once that has exited. */
  function ParentOf(log: seq<Event>, pid: nat, init: nat): Option<nat> {
    if log == [] then None else
    var e, before := log[|log| - 1], ParentOf(log[..|log| - 1], pid, init);
    match e
    case Forked(c, q) => if c == pid then Some(q) else before
    case Exited(p, _) => if before == Some(p) then Some(init) else before
    case _ => before
  }

  /** A wait of `q` has not been answered yet. */
  predicate Pending(log: seq<Event>, q: nat) {
    if log == [] then false else
    var e, before := log[|log| - 1], Pending(log[..|log| - 1], q);
    match e
    case Waited(p) => p == q || before
    case Reply(to, _, _) => to != q && before
    case _ => before
  }

  /** As the events tell it, `q` is the parent of no process that is live or a zombie. */
  ghost predicate Childless(log: seq<Event>, q: nat, init: nat) {
    forall c: nat {:trigger PhaseOf(log, c)} :: PhaseOf(log, c) != Gone ==> ParentOf(log, c, init) != Some(q)
  }

  /** The last event is justified by the history before it: a slot is forked only when gone,
      exits only when live, and its status is sent only once it has exited, with that very
      status, to its parent at that time, and in answer to a pending wait; the error reply answers
      a wait of a process without children. */
  ghost predicate Justified(log: seq<Event>, e: Event, init: nat) {
    match e
    case Forked(c, _) => PhaseOf(log, c) == Gone
    case Exited(p, _) => PhaseOf(log, p) == Live
    case Waited(q) => !Pending(log, q)
    case Reply(to, None, _) => Pending(log, to) && Childless(log, to, init)
    case Reply(to, Some(c), st) =>
      Pending(log, to) && PhaseOf(log, c) == Zombie(st) && ParentOf(log, c, init) == Some(to)
  }

  ghost predicate Legal(log: seq<Event>, init: nat) {
    log == [] || (Legal(log[..|log| - 1], init) && Justified(log[..|log| - 1], log[|log| - 1], init))
  }

  // ---- what every run keeps ----

  predicate SlotOk(procs: seq<Proc>, natives: nat, init: nat, j: nat)
    requires j < |procs|
  {
    var x := procs[j];
    && (x.free ==> !x.waiting && !x.hanging)
    && !(x.waiting && x.hanging)
    && (j < natives ==> !x.free && !x.hanging && x.parent == None)
    && (j < natives && j != init ==> !x.waiting)
  }

  /** The parent of a forked process in use is INIT or a forked process in use that has not
      exited; `gone` excepts the process whose exit is under way. */
  predicate ParentOk(procs: seq<Proc>, natives: nat, init: nat, j: nat, gone: Option<nat>)
    requires j < |procs|
  {
    var x := procs[j];
    !x.free && j >= natives ==>
      && x.parent.Some? && x.parent.value < |procs| && x.parent.value != j
      && (x.parent.value == init || x.parent.value >= natives)
      && (x.parent == gone || (!procs[x.parent.value].free && !procs[x.parent.value].hanging))
  }

  /** No waiting process has an exited child that nobody has told it about. */
  predicate NoneMissed(procs: seq<Proc>, q: nat, j: nat)
    requires q < |procs| && j < |procs|
  {
    procs[q].waiting && !procs[j].free && procs[j].parent == Some(q) ==> !procs[j].hanging
  }

  /** A rank that falls from every forked process in use to its parent, INIT being lowest. */
  predicate IsRank(procs: seq<Proc>, natives: nat, init: nat, rank: seq<nat>) {
    && |rank| == |procs| && init < |procs| && rank[init] == 0
    && forall j :: natives <= j < |procs| && !procs[j].free ==>
         rank[j] > 0 && (procs[j].parent.Some? && procs[j].parent.value < |procs| ==>
               rank[j] > rank[procs[j].parent.value])
  }

  ghost predicate Ranked(procs: seq<Proc>, natives: nat, init: nat) {
    exists rank: seq<nat> :: IsRank(procs, natives, init, rank)
  }

  /** The table agrees with the history about slot `j`. */
  predicate HistoryOk(pm: Pm, j: nat, gone: Option<nat>)
    requires j < |pm.procs|
  {
    var x := pm.procs[j];
    && (x.waiting <==> Pending(pm.log, j))
    && (j >= pm.natives ==>
          && PhaseOf(pm.log, j) == (if x.free then Gone else if x.hanging then Zombie(x.status) else Live)
          && (!x.free ==>
                ParentOf(pm.log, j, pm.init) == if x.parent == gone && gone.Some? then Some(pm.init) else x.parent))
  }

  /** Only slots for forked processes have a history. */
  ghost predicate OnlyForked(pm: Pm) {
    forall j: nat {:trigger PhaseOf(pm.log, j)} :: j < pm.natives || j >= |pm.procs| ==> PhaseOf(pm.log, j) == Gone
  }

  /** Everything but NoneMissed, which fails for a moment inside do_wait. */
  ghost predicate Core(pm: Pm, gone: Option<nat>) {
    && pm.init < pm.natives <= |pm.procs|
    && (forall j {:trigger SlotOk(pm.procs, pm.natives, pm.init, j)} :: 0 <= j < |pm.procs| ==>
          SlotOk(pm.procs, pm.natives, pm.init, j))
    && (forall j {:trigger ParentOk(pm.procs, pm.natives, pm.init, j, gone)} :: 0 <= j < |pm.procs| ==>
          ParentOk(pm.procs, pm.natives, pm.init, j, gone))
    && Ranked(pm.procs, pm.natives, pm.init)
    && (forall j {:trigger HistoryOk(pm, j, gone)} :: 0 <= j < |pm.procs| ==> HistoryOk(pm, j, gone))
    && OnlyForked(pm) && Legal(pm.log, pm.init)
  }

  ghost predicate AllTold(procs: seq<Proc>) {
    forall q, j {:trigger NoneMissed(procs, q, j)} :: 0 <= q < |procs| && 0 <= j < |procs| ==> NoneMissed(procs, q, j)
  }

  ghost predicate Ok(pm: Pm, gone: Option<nat>) {
    Core(pm, gone) && AllTold(pm.procs)
  }

  /** At boot the native slots are active and have no parent, the rest are free and name a
      native slot other than INIT (zeroed memory names task 0). */
  predicate Initial(pm: Pm) {
    && pm.init < pm.natives <= |pm.procs| && pm.log == []
    && forall j :: 0 <= j < |pm.procs| ==>
         && pm.procs[j].free == (j >= pm.natives) && !pm.procs[j].waiting && !pm.procs[j].hanging
         && (j < pm.natives ==> pm.procs[j].parent == None)
         && (pm.procs[j].parent.Some? ==> pm.procs[j].parent.value < pm.natives && pm.procs[j].parent.value != pm.init)
  }

  lemma InitialOk(pm: Pm)
    requires Initial(pm)
    ensures Ok(pm, None)
  {
    var rank := seq(|pm.procs|, i => 0);
    assert IsRank(pm.procs, pm.natives, pm.init, rank);
  }
}
