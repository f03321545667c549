/** What the history of events says should be true of the process table, and the
    invariants that every completed step keeps. */
module IpcHistory {
  import opened Common
  import opened Ipc

  /** The kernel together with everything that has happened so far. */
  datatype World = World(k: Kernel, log: seq<Event>)

  // ---- functions of the history alone ----

  function Remove(q: seq<nat>, s: nat): seq<nat> {
    if q == [] then [] else if q[0] == s then q[1..] else [q[0]] + Remove(q[1..], s)
  }

  /** One event's effect on the line of processes waiting to send to `r`. */
  function QueueAfter(q: seq<nat>, e: Event, r: nat): seq<nat> {
    match e
    case Sent(s, r', _) => if r' == r then q + [s] else q
    case Delivered(s, r', _) => if r' == r then Remove(q, s) else q
    case _ => q
  }

  /** The senders whose messages to `r` are not yet delivered, oldest first. */
  function ArrivalQueue(log: seq<Event>, r: nat): seq<nat> {
    if log == [] then [] else QueueAfter(ArrivalQueue(log[..|log| - 1], r), log[|log| - 1], r)
  }

  /** Everything `s` ever sent, as (receiver, message) pairs. */
  function SentBy(log: seq<Event>, s: nat): seq<(nat, Message)> {
    if log == [] then [] else
    var e := log[|log| - 1];
    SentBy(log[..|log| - 1], s) + if e.Sent? && e.sender == s then [(e.receiver, e.msg)] else []
  }

  /** Everything delivered from `s`, as (receiver, message) pairs. */
  function DeliveredFrom(log: seq<Event>, s: nat): seq<(nat, Message)> {
    if log == [] then [] else
    var e := log[|log| - 1];
    DeliveredFrom(log[..|log| - 1], s) + if e.Delivered? && e.sender == s then [(e.receiver, e.msg)] else []
  }

  /** A notification of `t` has not been answered by a HW_INT message yet. */
  predicate PendingInterrupt(log: seq<Event>, t: nat) {
    if log == [] then false else
    var e := log[|log| - 1];
    if e == Notified(t) then true
    else if e == IntTaken(t) then false
    else PendingInterrupt(log[..|log| - 1], t)
  }

  // ---- what holds in every reachable state ----

  predicate LocalOk(procs: seq<Proc>, p: nat)
    requires p < |procs|
  {
    var x := procs[p];
    && (x.link.Some? ==> x.link.value < |procs|)
    && (x.sending ==>
          && !x.receiving && x.otherBits == 0 && x.pending != 0 && x.recvFrom == NoTask
          && x.sendTo.Of? && x.sendTo.pid < |procs| && x.sendTo.pid != p)
    && (x.receiving ==>
          && x.otherBits == 0 && x.pending != 0 && x.sendTo == NoTask && x.recvFrom != NoTask)
    && (x.Runnable() ==> x.pending == 0 && x.recvFrom == NoTask && x.sendTo == NoTask)
  }

  predicate AllLocalOk(procs: seq<Proc>) {
    forall p :: 0 <= p < |procs| ==> LocalOk(procs, p)
  }

  /** A rank that falls along every "is sending to" edge: there is no cycle. */
  predicate IsRank(procs: seq<Proc>, rank: seq<nat>)
    requires Sane(procs)
  {
    && |rank| == |procs|
    && forall p :: 0 <= p < |procs| && procs[p].sending ==> rank[p] > rank[procs[p].sendTo.pid]
  }

  ghost predicate Ranked(procs: seq<Proc>)
    requires Sane(procs)
  {
    exists rank: seq<nat> :: IsRank(procs, rank)
  }

  predicate NoDuplicates(q: seq<nat>) {
    forall i, j :: 0 <= i < j < |q| ==> q[i] != q[j]
  }

  /** The line kept by the history holds exactly the processes SENDING to `r`, once each. */
  ghost predicate QueueMembers(w: World, r: nat) {
    var q := ArrivalQueue(w.log, r);
    && NoDuplicates(q)
    && forall s: nat :: s in q <==> s < |w.k.procs| && w.k.procs[s].SendsTo(r)
  }

  function InFlight(k: Kernel, s: nat): seq<(nat, Message)>
    requires s < |k.procs|
  {
    var x := k.procs[s];
    if x.sending && x.sendTo.Of? then [(x.sendTo.pid, Load(k.mem, s, x.pending))] else []
  }

  /** Exactly-once, in-order delivery: all that `s` sent has been delivered, except the
      one message it is blocked on. */
  predicate Conserved(w: World, s: nat)
    requires s < |w.k.procs|
  {
    SentBy(w.log, s) == DeliveredFrom(w.log, s) + InFlight(w.k, s)
  }

  /** The latch remembers exactly the unanswered notifications, and nobody who would
      accept an interrupt sleeps while one is latched. */
  predicate LatchOk(w: World, t: nat)
    requires t < |w.k.procs|
  {
    && (w.k.procs[t].hasInt <==> PendingInterrupt(w.log, t))
    && !(w.k.procs[t].hasInt && w.k.procs[t].AcceptsInterrupt())
  }

  ghost predicate Base(w: World) {
    && AllLocalOk(w.k.procs)
    && Sane(w.k.procs)
    && Ranked(w.k.procs)
    && (forall r: nat :: QueueMembers(w, r))
    && (forall s :: 0 <= s < |w.k.procs| ==> Conserved(w, s) && LatchOk(w, s))
  }

  predicate InitialProc(x: Proc) {
    && !x.sending && !x.receiving && x.pending == 0 && x.link == None && !x.hasInt
    && (x.otherBits == 0 ==> x.recvFrom == NoTask && x.sendTo == NoTask)
  }

  /** init_process: in-use slots are runnable and idle, the others are free. */
  predicate Initial(w: World) {
    w.log == [] && forall p :: 0 <= p < |w.k.procs| ==> InitialProc(w.k.procs[p])
  }

  lemma InitialBase(w: World)
    requires Initial(w)
    ensures Base(w)
  {
    var rank := seq(|w.k.procs|, i => 0);
    assert IsRank(w.k.procs, rank);
  }

  // ---- adding events to a history ----

  lemma QueueAppend(log: seq<Event>, e: Event, r: nat)
    ensures ArrivalQueue(log + [e], r) == QueueAfter(ArrivalQueue(log, r), e, r)
  {
    assert (log + [e])[..|log|] == log;
  }

  // ---- removing from a queue ----

  lemma {:induction false} RemoveAt(q: seq<nat>, i: nat)
    requires i < |q| && NoDuplicates(q)
    ensures Remove(q, q[i]) == q[..i] + q[i + 1..]
  {
    if i > 0 {
      var t := q[1..];
      assert NoDuplicates(t);
      RemoveAt(t, i - 1);
      assert t[i - 1] == q[i];
      assert q[..i] == [q[0]] + t[..i - 1];
      assert q[i + 1..] == t[i..];
    }
  }

  lemma {:induction false} RemoveMembers(q: seq<nat>, s: nat)
    requires NoDuplicates(q) && s in q
    ensures NoDuplicates(Remove(q, s))
    ensures forall x: nat :: x in Remove(q, s) <==> x in q && x != s
  {
    var t := q[1..];
    assert q == [q[0]] + t;
    assert NoDuplicates(t) && q[0] !in t;
    if q[0] != s {
      RemoveMembers(t, s);
      PrependMember(q[0], Remove(t, s));
    }
  }

  lemma PrependMember(x: nat, q: seq<nat>)
    requires NoDuplicates(q) && x !in q
    ensures NoDuplicates([x] + q)
    ensures forall y: nat :: y in [x] + q <==> y == x || y in q
  {}

  lemma RemoveJustAdded(q: seq<nat>, s: nat)
    requires NoDuplicates(q) && s !in q
    ensures Remove(q + [s], s) == q
  {
    var t := q + [s];
    assert forall i, j :: 0 <= i < j < |t| ==> t[i] != t[j];
    RemoveAt(t, |q|);
    assert t[..|q|] + t[|q| + 1..] == q;
  }
}
