/** What each IPC step does to the processes and messages it is about, and that it does nothing
    else; and what the events of a step stand for in the table. */
module IpcEffects {
  import opened Common
  import opened Ipc
  import opened IpcHistory
  import opened IpcDeadlock
  import opened IpcSafety

  /** Entry `p` is now `x`; no other entry has changed. */
  predicate OnlyEntry(a: seq<Proc>, b: seq<Proc>, p: nat, x: Proc) {
    && |b| == |a| && p < |b| && b[p] == x
    && forall q :: 0 <= q < |a| && q != p ==> b[q] == a[q]
  }

  /** No message outside these addresses has changed. */
  ghost predicate OnlyAt(mem: map<(nat, nat), Message>, mem': map<(nat, nat), Message>, places: set<(nat, nat)>) {
    forall p: nat, a: nat {:trigger Load(mem', p, a)} :: (p, a) !in places ==> Load(mem', p, a) == Load(mem, p, a)
  }

  // ---- send ----

  /** A send to a process that waits for it completes: the message, with the sender's pid as its
      source, is in the receiver's buffer, the receiver is runnable and waits for nothing, the
      sender goes on, and no other process or message has changed. */
  lemma SendDelivers(w: World, s: nat, r: nat, m: nat)
    requires Base(w) && s < |w.k.procs| && w.k.procs[s].Runnable() && m != 0
    requires r < |w.k.procs| && r != s && w.k.procs[r].Accepts(s)
    ensures var o, buf := Send(w.k, s, r, m), w.k.procs[r].pending;
            var msg := Load(w.k.mem, s, m).(source := Of(s));
            && o.Done? && o.events == [Sent(s, r, msg), Delivered(s, r, msg)]
            && o.k.procs[r].Runnable() && o.k.procs[s].Runnable()
            && OnlyEntry(w.k.procs, o.k.procs, r,
                 w.k.procs[r].(receiving := false, pending := 0, recvFrom := NoTask))
            && Load(o.k.mem, r, buf) == msg && Load(o.k.mem, s, m) == msg
            && OnlyAt(w.k.mem, o.k.mem, {(r, buf), (s, m)})
  {
    assert LocalOk(w.k.procs, s) && LocalOk(w.k.procs, r);
  }

  /** A completed send to a process that does not wait for it blocks the sender on that very peer
      and message; otherwise only links and the message's source have changed. */
  lemma SendBlocks(w: World, s: nat, r: nat, m: nat)
    requires Base(w) && s < |w.k.procs| && w.k.procs[s].Runnable() && Send(w.k, s, r, m).Done?
    requires r < |w.k.procs| && !w.k.procs[r].Accepts(s)
    ensures var o, msg := Send(w.k, s, r, m), Load(w.k.mem, s, m).(source := Of(s));
            && o.events == [Sent(s, r, msg)] && m != 0
            && OnlyLinksBut(w.k.procs, o.k.procs, s,
                 w.k.procs[s].(sending := true, sendTo := Of(r), pending := m, link := None))
            && Load(o.k.mem, s, m) == msg && OnlyAt(w.k.mem, o.k.mem, {(s, m)})
  {
    EnqueueShape(Stamp(w.k, s, m), s, r, m);
  }

  // ---- receive ----

  /** A completed receive that delivers the message of `s`: the message `s` is blocked on is in the
      buffer, `s` is runnable again, the receiver goes on; otherwise only links have changed. */
  ghost predicate Taken(k: Kernel, o: Outcome, r: nat, s: nat, m: nat)
    requires s < |k.procs|
  {
    var msg := Load(k.mem, s, k.procs[s].pending);
    && o.Done? && o.events == [Delivered(s, r, msg)] && r < |o.k.procs| && s != r && k.procs[s].SendsTo(r)
    && OnlyLinksBut(k.procs, o.k.procs, s, k.procs[s].(sending := false, sendTo := NoTask, pending := 0, link := None))
    && o.k.procs[r].Runnable() && o.k.procs[s].Runnable()
    && Load(o.k.mem, r, m) == msg && OnlyAt(k.mem, o.k.mem, {(r, m)})
  }

  lemma TakeTakes(k: Kernel, r: nat, s: nat, prev: Option<nat>, m: nat)
    requires Sane(k.procs) && s < |k.procs| && r < |k.procs| && s != r && (prev.Some? ==> prev.value < |k.procs|)
    requires ReadyToTake(k.procs, r, s)
    requires var k0 := Stamp(k, r, m); Take(k0, r, s, prev, m).Done?
    ensures Taken(k, Take(Stamp(k, r, m), r, s, prev, m), r, s, m)
  {
    TakeShape(Stamp(k, r, m), r, s, prev, m);
  }

  /** The receiver `r` answers a latched interrupt: HW_INT is in the buffer, the latch is clear, and
      nothing else has changed. */
  ghost predicate Interrupted(k: Kernel, o: Outcome, r: nat, m: nat)
    requires r < |k.procs|
  {
    && o.Done? && o.events == [IntTaken(r)] && OnlyEntry(k.procs, o.k.procs, r, k.procs[r].(hasInt := false))
    && Load(o.k.mem, r, m) == Message(Interrupt, HW_INT, 0) && OnlyAt(k.mem, o.k.mem, {(r, m)})
  }

  /** The receiver `r` sleeps on `src`, at its buffer `m`; beside the buffer's source nothing else
      has changed. */
  ghost predicate Asleep(k: Kernel, o: Outcome, r: nat, src: Peer, m: nat)
    requires r < |k.procs|
  {
    && o.Done? && o.events == []
    && OnlyEntry(k.procs, o.k.procs, r, k.procs[r].(receiving := true, pending := m, recvFrom := src))
    && Load(o.k.mem, r, m) == Load(k.mem, r, m).(source := Of(r)) && OnlyAt(k.mem, o.k.mem, {(r, m)})
  }

  /** Every completed receive does one of three things: it answers a latched interrupt exactly when
      one is latched and asked for; otherwise it takes the message of the first process in its chain,
      for ANY, or of the process it named, if that is blocked sending to it; otherwise it sleeps. */
  lemma ReceiveDoes(w: World, r: nat, src: Peer, m: nat) returns (s: nat)
    requires Base(w) && r < |w.k.procs| && w.k.procs[r].Runnable() && Receive(w.k, r, src, m).Done?
    ensures var o, x := Receive(w.k, r, src, m), w.k.procs[r];
            if x.hasInt && (src == Any || src == Interrupt) then Interrupted(w.k, o, r, m)
            else if src == Any && x.link.Some? then s == x.link.value && s < |w.k.procs| && Taken(w.k, o, r, s, m)
            else if src.Of? && src.pid < |w.k.procs| && w.k.procs[src.pid].SendsTo(r) then
              s == src.pid && Taken(w.k, o, r, s, m)
            else Asleep(w.k, o, r, src, m)
  {
    s := 0;
    var k0 := Stamp(w.k, r, m);
    var procs := k0.procs;
    assert LocalOk(procs, r);
    if procs[r].hasInt && (src == Any || src == Interrupt) {
    } else if src == Any && procs[r].link.Some? {
      s := procs[r].link.value;
      assert LocalOk(procs, s);
      TakeTakes(w.k, r, s, None, m);
    } else if src.Of? && procs[src.pid].SendsTo(r) {
      s := src.pid;
      TakeTakes(w.k, r, s, FindPrev(procs, procs[r].link, None, s, Slots(|procs|)).prev, m);
    }
  }

  // ---- interrupts ----

  /** A notification of a task that waits for it wakes the task: HW_INT from INTERRUPT is in its
      buffer, with the body as it was, the latch is clear, and nothing else has changed. */
  lemma NotifyWakes(w: World, t: nat)
    requires Base(w) && t < |w.k.procs| && w.k.procs[t].AcceptsInterrupt()
    ensures var o, buf := Notify(w.k, t), w.k.procs[t].pending;
            && o.Done? && o.events == [Notified(t), IntTaken(t)] && o.k.procs[t].Runnable()
            && OnlyEntry(w.k.procs, o.k.procs, t,
                 w.k.procs[t].(receiving := false, pending := 0, recvFrom := NoTask, hasInt := false))
            && Load(o.k.mem, t, buf) == Message(Interrupt, HW_INT, Load(w.k.mem, t, buf).body)
            && OnlyAt(w.k.mem, o.k.mem, {(t, buf)})
  {
    assert LocalOk(w.k.procs, t);
  }

  /** Any other notification sets the latch and does nothing else. */
  lemma NotifyLatches(k: Kernel, t: nat)
    requires t < |k.procs| && !k.procs[t].AcceptsInterrupt()
    ensures var o := Notify(k, t);
            && o.Done? && o.events == [Notified(t)] && o.k.mem == k.mem
            && OnlyEntry(k.procs, o.k.procs, t, k.procs[t].(hasInt := true))
  {
  }

  // ---- what events stand for ----

  /** Where the receiver `r` gets its message in this step: in the buffer of its call, or where it sleeps. */
  function BufferOf(k: Kernel, step: Step, r: nat): nat
    requires r < |k.procs|
  {
    if step.ReceiveStep? && step.r == r then step.m else k.procs[r].pending
  }

  /** The event is what has happened: a sent message is that of the call; a delivered one lies in
      the receiver's buffer, and sender and receiver go on; an interrupt is answered in the buffer
      of a task that goes on. */
  predicate EventReal(k: Kernel, step: Step, k': Kernel, e: Event) {
    match e
    case Sent(s, r, msg) =>
      step.SendStep? && step.s == s && step.r == r && msg == Load(k.mem, s, step.m).(source := Of(s))
    case Delivered(s, r, msg) =>
      && s < |k'.procs| && r < |k.procs| && r < |k'.procs| && k'.procs[r].Runnable() && k'.procs[s].Runnable()
      && Load(k'.mem, r, BufferOf(k, step, r)) == msg
    case Notified(t) => step == InterruptStep(t)
    case IntTaken(t) =>
      && t < |k.procs| && t < |k'.procs| && k'.procs[t].Runnable() && !k'.procs[t].hasInt
      && Load(k'.mem, t, BufferOf(k, step, t)).source == Interrupt
      && Load(k'.mem, t, BufferOf(k, step, t)).kind == HW_INT
  }

  predicate Releases(e: Event, p: nat) {
    (e.Delivered? && (e.sender == p || e.receiver == p)) || (e.IntTaken? && e.task == p)
  }

  /** A process blocked before and not after the step has an event of the step that says why. */
  predicate Released(k: Kernel, events: seq<Event>, k': Kernel, p: nat)
    requires p < |k.procs| && p < |k'.procs|
  {
    (k.procs[p].sending && !k'.procs[p].sending) || (k.procs[p].receiving && !k'.procs[p].receiving) ==>
      exists i :: 0 <= i < |events| && Releases(events[i], p)
  }

  /** The events of the step are real, and it wakes nobody without one. */
  predicate Real(k: Kernel, step: Step, o: Outcome)
    requires o.Done?
  {
    && |o.k.procs| == |k.procs|
    && (forall i :: 0 <= i < |o.events| ==> EventReal(k, step, o.k, o.events[i]))
    && (forall p :: 0 <= p < |k.procs| ==> Released(k, o.events, o.k, p))
  }

  lemma SendReal(w: World, s: nat, r: nat, m: nat)
    requires Base(w) && s < |w.k.procs| && w.k.procs[s].Runnable() && Send(w.k, s, r, m).Done?
    ensures Real(w.k, SendStep(s, r, m), Send(w.k, s, r, m))
  {
    if w.k.procs[r].Accepts(s) {
      SendDelivers(w, s, r, m);
      var o := Send(w.k, s, r, m);
      assert Releases(o.events[1], r);
    } else {
      SendBlocks(w, s, r, m);
    }
  }

  lemma ReceiveReal(w: World, r: nat, src: Peer, m: nat)
    requires Base(w) && r < |w.k.procs| && w.k.procs[r].Runnable() && Receive(w.k, r, src, m).Done?
    ensures Real(w.k, ReceiveStep(r, src, m), Receive(w.k, r, src, m))
  {
    var o := Receive(w.k, r, src, m);
    var s := ReceiveDoes(w, r, src, m);
    assert LocalOk(w.k.procs, r);
    forall p | 0 <= p < |w.k.procs| ensures |o.k.procs| == |w.k.procs| && Released(w.k, o.events, o.k, p) {
      if o.events != [] { assert o.events[0].Delivered? ==> Releases(o.events[0], s); }
    }
  }

  /** In every step the events are real, and nobody wakes without one. */
  lemma StepReal(w: World, step: Step)
    requires Base(w) && Enabled(w.k, step) && Exec(w.k, step).Done?
    ensures Real(w.k, step, Exec(w.k, step))
  {
    match step
    case SendStep(s, r, m) => SendReal(w, s, r, m);
    case ReceiveStep(r, src, m) => ReceiveReal(w, r, src, m);
    case InterruptStep(t) =>
      if w.k.procs[t].AcceptsInterrupt() {
        NotifyWakes(w, t);
        assert Releases(Notify(w.k, t).events[1], t);
      }
    case StoreStep(p, a, msg) =>
  }
}
