/** Whole runs of the IPC machine: what every run keeps, exactly when the queues stay
    right, which calls complete, and two short runs that show the queue condition matters. */
module IpcRuns {
  import opened Common
  import opened Ipc
  import opened IpcHistory
  import opened IpcDeadlock
  import opened IpcSafety
  import opened IpcQueues
  import opened IpcEffects

  predicate StepTo(w: World, step: Step, w': World) {
    && Sane(w.k.procs) && Enabled(w.k, step)
    && Exec(w.k, step).Done? && w' == After(w, Exec(w.k, step))
  }

  /** A run of completed steps from the state made by init_process. */
  predicate IsRun(ws: seq<World>, steps: seq<Step>) {
    && |ws| == |steps| + 1 && Initial(ws[0])
    && forall i :: 0 <= i < |steps| ==> StepTo(ws[i], steps[i], ws[i + 1])
  }

  // ---- every run ----

  /** The step and what it says of itself: the events are real, and nobody wakes without one. */
  predicate RealStep(w: World, step: Step, w': World) {
    StepTo(w, step, w') && Real(w.k, step, Exec(w.k, step))
  }

  /** In every run, with no condition: local consistency, an acyclic "is sending to" graph,
      exactly-once in-order delivery per sender, and an exact interrupt latch; and what counts as
      delivered or answered has arrived in the buffer of a process that goes on. */
  lemma {:induction false} RunSafe(ws: seq<World>, steps: seq<Step>, i: nat)
    requires IsRun(ws, steps) && i < |ws|
    ensures Base(ws[i]) && !HasCycle(ws[i].k.procs)
    ensures i > 0 ==> RealStep(ws[i - 1], steps[i - 1], ws[i])
  {
    if i == 0 {
      InitialBase(ws[0]);
    } else {
      RunSafe(ws, steps, i - 1);
      assert StepTo(ws[i - 1], steps[i - 1], ws[i]);
      StepBase(ws[i - 1], steps[i - 1]);
      StepReal(ws[i - 1], steps[i - 1]);
    }
    RankedHasNoCycle(ws[i].k.procs);
  }

  // ---- missed rendezvous ----

  /** Nobody waits for a message that somebody is blocked sending to it. */
  predicate NoMissed(procs: seq<Proc>) {
    forall r, s :: 0 <= r < |procs| && 0 <= s < |procs| && procs[s].SendsTo(r) ==> !procs[r].Accepts(s)
  }

  lemma SendNoMissed(w: World, s: nat, r: nat, m: nat)
    requires Base(w) && NoMissed(w.k.procs) && s < |w.k.procs| && w.k.procs[s].Runnable()
    requires Send(w.k, s, r, m).Done?
    ensures NoMissed(Send(w.k, s, r, m).k.procs)
  {
    var k0 := Stamp(w.k, s, m);
    if !k0.procs[r].Accepts(s) { EnqueueShape(k0, s, r, m); }
  }

  lemma ReceiveNoMissed(w: World, r: nat, src: Peer, m: nat)
    requires Base(w) && QueuesExact(w) && NoMissed(w.k.procs) && r < |w.k.procs| && w.k.procs[r].Runnable()
    requires Receive(w.k, r, src, m).Done?
    ensures NoMissed(Receive(w.k, r, src, m).k.procs)
  {
    var k0 := Stamp(w.k, r, m);
    var procs := k0.procs;
    if procs[r].hasInt && (src == Any || src == Interrupt) {
    } else if src == Any && procs[r].link.Some? {
      TakeShape(k0, r, procs[r].link.value, None, m);
    } else if src.Of? && procs[src.pid].SendsTo(r) {
      TakeShape(k0, r, src.pid, FindPrev(procs, procs[r].link, None, src.pid, Slots(|procs|)).prev, m);
    } else {
      assert QueueExact(w, r) && QueueMembers(w, r);
    }
  }

  lemma StepNoMissed(w: World, step: Step)
    requires Base(w) && QueuesExact(w) && NoMissed(w.k.procs) && Enabled(w.k, step) && Exec(w.k, step).Done?
    ensures NoMissed(Exec(w.k, step).k.procs)
  {
    match step
    case SendStep(s, r, m) => SendNoMissed(w, s, r, m);
    case ReceiveStep(r, src, m) => ReceiveNoMissed(w, r, src, m);
    case InterruptStep(t) =>
    case StoreStep(p, a, msg) =>
  }

  // ---- the queue condition ----

  /** A step clobbers a link exactly when it creates a process that has waiting senders
      while it is itself blocked sending. */
  lemma ClobberIsOverlap(w: World, step: Step)
    requires Base(w) && QueuesExact(w) && Enabled(w.k, step) && Exec(w.k, step).Done?
    ensures NoOverlap(Exec(w.k, step).k.procs) <==> !Clobbers(w.k, step)
  {
    StepBase(w, step);
    StepExact(w, step);
    var w' := After(w, Exec(w.k, step));
    if !Clobbers(w.k, step) {
      ExactNoOverlap(w');
    } else {
      var SendStep(s, r, m) := step;
      EnqueueShape(Stamp(w.k, s, m), s, r, m);
      if w.k.procs[s].link.Some? {
        assert QueueExact(w, s) && QueueMembers(w, s);
        var x := ArrivalQueue(w.log, s)[0];
        assert x in ArrivalQueue(w.log, s);
        assert w'.k.procs[s].sending && w'.k.procs[x].SendsTo(s);
      } else {
        assert w'.k.procs[r].sending && w'.k.procs[s].SendsTo(r);
      }
    }
  }

  /** While no process has waiting senders and is itself blocked sending, every receiver's
      link chain is finite, duplicate-free, in arrival order, holds exactly the processes
      SENDING to it, and no rendezvous is missed. */
  lemma {:induction false} RunQueues(ws: seq<World>, steps: seq<Step>, i: nat)
    requires IsRun(ws, steps) && i < |ws|
    requires forall j :: 0 <= j <= i ==> NoOverlap(ws[j].k.procs)
    ensures QueuesExact(ws[i]) && NoMissed(ws[i].k.procs)
  {
    if i == 0 {
      InitialExact(ws[0]);
    } else {
      RunQueues(ws, steps, i - 1);
      RunSafe(ws, steps, i - 1);
      assert StepTo(ws[i - 1], steps[i - 1], ws[i]);
      ClobberIsOverlap(ws[i - 1], steps[i - 1]);
      StepExact(ws[i - 1], steps[i - 1]);
      StepNoMissed(ws[i - 1], steps[i - 1]);
    }
  }

  /** The condition is exact: the first state of a run in which some process has both
      parts is the first state in which some chain is wrong. */
  lemma RunQueuesExactly(ws: seq<World>, steps: seq<Step>)
    requires IsRun(ws, steps)
    requires forall j :: 0 <= j < |steps| ==> NoOverlap(ws[j].k.procs)
    ensures QueuesExact(ws[|steps|]) <==> NoOverlap(ws[|steps|].k.procs)
  {
    if |steps| == 0 {
      RunQueues(ws, steps, 0);
    } else {
      var n := |steps| - 1;
      RunQueues(ws, steps, n);
      RunSafe(ws, steps, n);
      assert StepTo(ws[n], steps[n], ws[n + 1]);
      ClobberIsOverlap(ws[n], steps[n]);
      StepExact(ws[n], steps[n]);
    }
  }

  // ---- which calls complete ----

  /** With exact queues a send trips no assertion and never hangs: it completes exactly when
      the peer is another table entry, the message is not null and no cycle would close. */
  lemma SendCompletes(w: World, s: nat, r: nat, m: nat)
    requires Base(w) && QueuesExact(w) && s < |w.k.procs| && w.k.procs[s].Runnable()
    ensures Send(w.k, s, r, m) != Hang
    ensures Send(w.k, s, r, m).Done? <==>
              r < |w.k.procs| && r != s && m != 0 && !HasCycle(WithEdge(w.k.procs, s, r))
  {
    if r < |w.k.procs| && r != s {
      var k0 := Stamp(w.k, s, m);
      DeadlockCheckExact(w.k.procs, s, r);
      assert LocalOk(w.k.procs, s) && LocalOk(w.k.procs, r);
      if !k0.procs[r].Accepts(s) {
        var p1 := k0.procs[s := k0.procs[s].(sending := true, sendTo := Of(r), pending := m)];
        TailSameLinks(k0.procs, p1, r, Slots(|p1|));
        TailExists(w, r);
      }
    }
  }

  /** With exact queues every link chain ends, also from a process inside a queue. */
  lemma TailExists(w: World, r: nat)
    requires Base(w) && QueuesExact(w) && r < |w.k.procs|
    ensures Tail(w.k.procs, r, Slots(|w.k.procs|)).Some?
  {
    var procs := w.k.procs;
    if procs[r].sending {
      assert LocalOk(procs, r);
      var t := procs[r].sendTo.pid;
      QueueOfSender(w, r, t);
      var q := ArrivalQueue(w.log, t);
      assert QueueMembers(w, t) && QueueExact(w, t);
      var i :| 0 <= i < |q| && q[i] == r;
      TailOfChain(procs, q, i, Slots(|procs|));
    } else {
      assert QueueMembers(w, r) && QueueExact(w, r);
      TailFromHead(procs, r, ArrivalQueue(w.log, r));
    }
  }

  /** With exact queues a receive trips no assertion except position 8, on a task that blocks
      on a specific sender while an interrupt is latched. */
  lemma ReceiveCompletes(w: World, r: nat, src: Peer, m: nat)
    requires Base(w) && QueuesExact(w) && r < |w.k.procs| && w.k.procs[r].Runnable()
    ensures Receive(w.k, r, src, m) != Hang
    ensures Receive(w.k, r, src, m).Done? <==>
              && src != NoTask && (src.Of? ==> src.pid < |w.k.procs| && src.pid != r) && m != 0
              && !(src.Of? && w.k.procs[r].hasInt && !w.k.procs[src.pid].SendsTo(r))
  {
    var k0 := Stamp(w.k, r, m);
    var w0 := World(k0, w.log);
    MemoryBase(w, r, m, Load(w.k.mem, r, m).(source := Of(r)));
    StampExact(w, k0.mem);
    assert LocalOk(w.k.procs, r) && QueueExact(w0, r) && QueueMembers(w0, r);
    if src == Any && k0.procs[r].link.Some? {
      var q := ArrivalQueue(w.log, r);
      assert q[0] in q;
      assert LocalOk(k0.procs, q[0]);
    } else if src.Of? && src.pid < |w.k.procs| && src.pid != r && k0.procs[src.pid].SendsTo(r) {
      var at := SearchFindsSender(w0, r, src.pid);
      assert LocalOk(k0.procs, src.pid);
      var q := ArrivalQueue(w.log, r);
      if at > 0 { assert q[0] != q[at]; }
    }
  }

  /** An interrupt notification always completes. */
  lemma NotifyCompletes(w: World, t: nat)
    requires Base(w) && t < |w.k.procs|
    ensures Notify(w.k, t).Done?
  {
    assert LocalOk(w.k.procs, t);
  }

  // ---- what a receive returns ----

  /** A receive from ANY with no latched interrupt takes the oldest waiting sender, and
      delivers the very message that sender last sent. */
  lemma ReceiveAnyTakesOldest(w: World, r: nat, m: nat)
    requires Base(w) && QueuesExact(w) && r < |w.k.procs| && w.k.procs[r].Runnable()
    requires !w.k.procs[r].hasInt && ArrivalQueue(w.log, r) != [] && m != 0
    ensures var s := ArrivalQueue(w.log, r)[0];
            var sent := SentBy(w.log, s);
            && sent != [] && sent[|sent| - 1].0 == r
            && Receive(w.k, r, Any, m).Done?
            && Receive(w.k, r, Any, m).events == [Delivered(s, r, sent[|sent| - 1].1)]
            && Load(Receive(w.k, r, Any, m).k.mem, r, m) == sent[|sent| - 1].1
            && Taken(w.k, Receive(w.k, r, Any, m), r, s, m)
  {
    ReceiveCompletes(w, r, Any, m);
    var q := ArrivalQueue(w.log, r);
    var s := q[0];
    assert QueueExact(w, r) && QueueMembers(w, r);
    assert s in q;
    assert Conserved(w, s) && LocalOk(w.k.procs, s);
    var t := ReceiveDoes(w, r, Any, m);
  }

  /** A receive from a specific blocked sender delivers the message that sender last sent,
      wherever it stands in the queue. */
  lemma ReceiveFromTakesSender(w: World, r: nat, s: nat, m: nat)
    requires Base(w) && QueuesExact(w) && r < |w.k.procs| && w.k.procs[r].Runnable()
    requires s < |w.k.procs| && w.k.procs[s].SendsTo(r) && m != 0
    ensures var sent := SentBy(w.log, s);
            && sent != [] && sent[|sent| - 1].0 == r
            && Receive(w.k, r, Of(s), m).Done?
            && Receive(w.k, r, Of(s), m).events == [Delivered(s, r, sent[|sent| - 1].1)]
            && Load(Receive(w.k, r, Of(s), m).k.mem, r, m) == sent[|sent| - 1].1
            && Taken(w.k, Receive(w.k, r, Of(s), m), r, s, m)
  {
    ReceiveCompletes(w, r, Of(s), m);
    assert Conserved(w, s) && LocalOk(w.k.procs, s);
    var t := ReceiveDoes(w, r, Of(s), m);
  }

  /** An unanswered notification is answered by the next receive from ANY or INTERRUPT, at
      once and ahead of every queued sender. */
  lemma InterruptNotLost(w: World, r: nat, src: Peer, m: nat)
    requires Base(w) && r < |w.k.procs| && w.k.procs[r].Runnable()
    requires PendingInterrupt(w.log, r) && (src == Any || src == Interrupt) && m != 0
    ensures var o := Receive(w.k, r, src, m);
            Interrupted(w.k, o, r, m) && o.k.procs[r].Runnable()
  {
    assert LatchOk(w, r) && LocalOk(w.k.procs, r);
  }

  /** With no latched interrupt and nobody blocked sending it what it asks for, a receive completes by
      sleeping on the peer it named, at its own buffer. */
  lemma ReceiveSleeps(w: World, r: nat, src: Peer, m: nat)
    requires Base(w) && QueuesExact(w) && r < |w.k.procs| && w.k.procs[r].Runnable() && m != 0
    requires src != NoTask && (src.Of? ==> src.pid < |w.k.procs| && src.pid != r) && !w.k.procs[r].hasInt
    requires forall s :: 0 <= s < |w.k.procs| && w.k.procs[s].SendsTo(r) ==> src != Any && src != Of(s)
    ensures Asleep(w.k, Receive(w.k, r, src, m), r, src, m)
  {
    ReceiveCompletes(w, r, src, m);
    var s := ReceiveDoes(w, r, src, m);
  }

  // ---- the condition is needed ----

  function Idle(): Proc { Proc(false, false, 0, 0, None, NoTask, NoTask, false) }

  function ThreeIdle(): World { World(Kernel([Idle(), Idle(), Idle()], map[]), []) }

  lemma RunOn(ws: seq<World>, steps: seq<Step>, step: Step, w: World)
    requires IsRun(ws, steps) && StepTo(ws[|steps|], step, w)
    ensures IsRun(ws + [w], steps + [step])
  {
    var ws', steps' := ws + [w], steps + [step];
    forall i | 0 <= i < |steps'| ensures StepTo(ws'[i], steps'[i], ws'[i + 1]) {
      if i < |steps| { assert StepTo(ws[i], steps[i], ws[i + 1]); }
    }
  }

  /** Process 2 blocks on 0, then 0 blocks on 1 and forgets its queue. */
  lemma QueueForgotten() returns (ws: seq<World>, steps: seq<Step>)
    ensures IsRun(ws, steps) && |ws| == 3
    ensures ws[2].k.procs == [Idle().(sending := true, sendTo := Of(1), pending := 8), Idle().(link := Some(0)),
                              Idle().(sending := true, sendTo := Of(0), pending := 8)]
  {
    var i0, w0 := Idle(), ThreeIdle();
    var w1 := After(w0, Exec(w0.k, SendStep(2, 0, 8)));
    assert w1.k.procs == [i0.(link := Some(2)), i0, i0.(sending := true, sendTo := Of(0), pending := 8)];
    assert DeadlockWalk(w1.k.procs, 1, 0, Slots(3)) == No;
    var w2 := After(w1, Exec(w1.k, SendStep(0, 1, 8)));
    RunOn([w0], [], SendStep(2, 0, 8), w1);
    RunOn([w0, w1], [SendStep(2, 0, 8)], SendStep(0, 1, 8), w2);
    ws, steps := [w0, w1] + [w2], [SendStep(2, 0, 8)] + [SendStep(0, 1, 8)];
  }

  /** Then 1 receives the message of 0, and 0 goes to sleep on ANY. */
  lemma SenderOverlooked(w2: World) returns (w3: World, w4: World)
    requires w2.k.procs == [Idle().(sending := true, sendTo := Of(1), pending := 8), Idle().(link := Some(0)),
                            Idle().(sending := true, sendTo := Of(0), pending := 8)]
    ensures StepTo(w2, ReceiveStep(1, Any, 8), w3) && StepTo(w3, ReceiveStep(0, Any, 8), w4)
    ensures |w4.k.procs| == 3 && w4.k.procs[2].SendsTo(0) && w4.k.procs[0].Accepts(2)
  {
    w3 := After(w2, Exec(w2.k, ReceiveStep(1, Any, 8)));
    assert w3.k.procs == [Idle(), Idle(), Idle().(sending := true, sendTo := Of(0), pending := 8)];
    w4 := After(w3, Exec(w3.k, ReceiveStep(0, Any, 8)));
  }

  /** A run in which a process sleeps on ANY while another is blocked sending to it. */
  lemma LostSender() returns (ws: seq<World>, steps: seq<Step>)
    ensures IsRun(ws, steps) && |ws| == 5 && |ws[4].k.procs| == 3
    ensures ws[4].k.procs[2].SendsTo(0) && ws[4].k.procs[0].Accepts(2)
  {
    ws, steps := QueueForgotten();
    var w3, w4 := SenderOverlooked(ws[2]);
    RunOn(ws, steps, ReceiveStep(1, Any, 8), w3);
    RunOn(ws + [w3], steps + [ReceiveStep(1, Any, 8)], ReceiveStep(0, Any, 8), w4);
    ws, steps := ws + [w3] + [w4], steps + [ReceiveStep(1, Any, 8)] + [ReceiveStep(0, Any, 8)];
  }

  /** Process 0 blocks on 1, then 2 blocks on 0 and lands in the queue of 1; the second
      receive of 1 finds a process that is not sending to it and trips position 5. */
  lemma StrayedSender() returns (ws: seq<World>, steps: seq<Step>)
    ensures IsRun(ws, steps) && |ws| == 4
    ensures Sane(ws[3].k.procs) && Enabled(ws[3].k, ReceiveStep(1, Any, 8))
    ensures Exec(ws[3].k, ReceiveStep(1, Any, 8)) == Panic(5)
  {
    steps := [SendStep(0, 1, 8), SendStep(2, 0, 8), ReceiveStep(1, Any, 8)];
    var i0 := Idle();
    var w0 := ThreeIdle();
    var w1 := After(w0, Exec(w0.k, steps[0]));
    assert w1.k.procs == [i0.(sending := true, sendTo := Of(1), pending := 8), i0.(link := Some(0)), i0];
    assert DeadlockWalk(w1.k.procs, 1, 2, Slots(3) - {0}) == No;
    var w2 := After(w1, Exec(w1.k, steps[1]));
    assert w2.k.procs == [i0.(sending := true, sendTo := Of(1), pending := 8, link := Some(2)), i0.(link := Some(0)),
                          i0.(sending := true, sendTo := Of(0), pending := 8)];
    var w3 := After(w2, Exec(w2.k, steps[2]));
    assert w3.k.procs == [i0, i0.(link := Some(2)), i0.(sending := true, sendTo := Of(0), pending := 8)];
    ws := [w0, w1, w2, w3];
  }
}
