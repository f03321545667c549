/** Safety of every completed step, whatever the state of the link chains: local
    consistency, acyclicity, exactly-once in-order delivery, and the interrupt latch. */
module IpcSafety {
  import opened Common
  import opened Ipc
  import opened IpcHistory
  import opened IpcDeadlock

  function After(w: World, o: Outcome): World
    requires o.Done?
  {
    World(o.k, w.log + o.events)
  }

  lemma HistoryAppend(log: seq<Event>, e: Event)
    ensures forall r: nat :: ArrivalQueue(log + [e], r) == QueueAfter(ArrivalQueue(log, r), e, r)
    ensures forall s: nat :: SentBy(log + [e], s) ==
              SentBy(log, s) + if e.Sent? && e.sender == s then [(e.receiver, e.msg)] else []
    ensures forall s: nat :: DeliveredFrom(log + [e], s) ==
              DeliveredFrom(log, s) + if e.Delivered? && e.sender == s then [(e.receiver, e.msg)] else []
    ensures forall s: nat :: PendingInterrupt(log + [e], s) ==
              if e == Notified(s) then true else if e == IntTaken(s) then false else PendingInterrupt(log, s)
  {
    assert (log + [e])[..|log|] == log;
  }

  /** A write to a buffer of a process that is not sending changes no message in flight. */
  lemma MemoryBase(w: World, p: nat, a: nat, msg: Message)
    requires Base(w) && p < |w.k.procs| && !w.k.procs[p].sending
    ensures Base(World(w.k.(mem := w.k.mem[(p, a) := msg]), w.log))
  {
    var w' := World(w.k.(mem := w.k.mem[(p, a) := msg]), w.log);
    forall r: nat ensures QueueMembers(w', r) { assert QueueMembers(w, r); }
    forall s | 0 <= s < |w.k.procs| ensures Conserved(w', s) && LatchOk(w', s) {
      assert Conserved(w, s) && LatchOk(w, s);
      assert InFlight(w'.k, s) == InFlight(w.k, s);
    }
  }

  lemma RendezvousBase(w: World, s: nat, r: nat, m: nat)
    requires Base(w) && s < |w.k.procs| && r < |w.k.procs| && s != r
    requires w.k.procs[s].Runnable() && w.k.procs[r].Accepts(s)
    requires Rendezvous(w.k, s, r, m).Done?
    ensures Base(After(w, Rendezvous(w.k, s, r, m)))
  {
    var o := Rendezvous(w.k, s, r, m);
    var w' := After(w, o);
    var e, f := o.events[0], o.events[1];
    assert w'.log == (w.log + [e]) + [f];
    forall p | 0 <= p < |o.k.procs| ensures LocalOk(o.k.procs, p) { assert LocalOk(w.k.procs, p); }
    RankedFewerEdges(w.k.procs, o.k.procs);
    forall x: nat ensures QueueMembers(w', x) { RendezvousMembers(w, w', e, f, s, r, x); }
    forall x | 0 <= x < |w.k.procs| ensures Conserved(w', x) && LatchOk(w', x) {
      assert Conserved(w, x) && LatchOk(w, x) && LocalOk(w.k.procs, x);
      assert InFlight(w'.k, x) == InFlight(w.k, x);
      RendezvousFlow(w, w', e, f, x);
    }
  }

  lemma RendezvousFlow(w: World, w': World, e: Event, f: Event, x: nat)
    requires x < |w.k.procs| == |w'.k.procs| && Conserved(w, x) && LatchOk(w, x)
    requires w'.log == (w.log + [e]) + [f] && e.Sent? && f == Delivered(e.sender, e.receiver, e.msg)
    requires InFlight(w'.k, x) == InFlight(w.k, x) && (e.sender == x ==> InFlight(w.k, x) == [])
    requires w'.k.procs[x].hasInt == w.k.procs[x].hasInt
    requires w'.k.procs[x].AcceptsInterrupt() ==> w.k.procs[x].AcceptsInterrupt()
    ensures Conserved(w', x) && LatchOk(w', x)
  {
    HistoryAppend(w.log, e);
    HistoryAppend(w.log + [e], f);
  }

  /** A message sent and delivered at once leaves every line of senders as it was. */
  lemma RendezvousMembers(w: World, w': World, e: Event, f: Event, s: nat, r: nat, x: nat)
    requires QueueMembers(w, r) && QueueMembers(w, x) && w'.log == (w.log + [e]) + [f]
    requires e.Sent? && f.Delivered? && e.sender == f.sender == s && e.receiver == f.receiver == r
    requires |w'.k.procs| == |w.k.procs| && s < |w.k.procs| && !w.k.procs[s].sending
    requires forall p :: 0 <= p < |w.k.procs| ==>
               w'.k.procs[p].sending == w.k.procs[p].sending && w'.k.procs[p].sendTo == w.k.procs[p].sendTo
    ensures QueueMembers(w', x)
  {
    QueueAppend(w.log, e, x);
    QueueAppend(w.log + [e], f, x);
    if x == r { RemoveJustAdded(ArrivalQueue(w.log, r), s); }
  }

  /** `b` is `a` with process `s` replaced by `x` and some links redirected inside the table. */
  predicate OnlyLinksBut(a: seq<Proc>, b: seq<Proc>, s: nat, x: Proc) {
    && |a| == |b| && s < |a| && b[s] == x
    && (forall p :: 0 <= p < |b| && p != s ==> b[p] == a[p].(link := b[p].link))
    && (forall p :: 0 <= p < |b| && b[p].link.Some? ==> b[p].link.value < |b|)
  }

  lemma EnqueueShape(k: Kernel, s: nat, r: nat, m: nat)
    requires Sane(k.procs) && s < |k.procs| && r < |k.procs| && s != r
    requires Enqueue(k, s, r, m).Done?
    ensures var o := Enqueue(k, s, r, m);
            && OnlyLinksBut(k.procs, o.k.procs, s,
                 k.procs[s].(sending := true, sendTo := Of(r), pending := m, link := None))
            && o.k.mem == k.mem && o.events == [Sent(s, r, Load(k.mem, s, m))]
            && m != 0
  {}

  lemma TakeShape(k: Kernel, r: nat, s: nat, prev: Option<nat>, m: nat)
    requires Sane(k.procs) && s < |k.procs| && r < |k.procs| && (prev.Some? ==> prev.value < |k.procs|)
    requires r != s && Take(k, r, s, prev, m).Done?
    ensures var o := Take(k, r, s, prev, m);
            var msg := Load(k.mem, s, k.procs[s].pending);
            && OnlyLinksBut(k.procs, o.k.procs, s,
                 k.procs[s].(sending := false, sendTo := NoTask, pending := 0, link := None))
            && o.k.mem == k.mem[(r, m) := msg] && o.events == [Delivered(s, r, msg)]
            && m != 0
  {}

  lemma LinksLocalOk(a: seq<Proc>, b: seq<Proc>, s: nat, x: Proc)
    requires AllLocalOk(a) && OnlyLinksBut(a, b, s, x) && LocalOk(b, s)
    ensures AllLocalOk(b) && Sane(b)
  {
    forall p | 0 <= p < |b| ensures LocalOk(b, p) { assert LocalOk(a, p); }
    forall p | 0 <= p < |b| && b[p].sending ensures b[p].sendTo.Of? && b[p].sendTo.pid < |b| {
      assert LocalOk(b, p);
    }
  }

  lemma EnqueueBase(w: World, s: nat, r: nat, m: nat)
    requires Base(w) && s < |w.k.procs| && r < |w.k.procs| && s != r
    requires w.k.procs[s].Runnable()
    requires DeadlockWalk(w.k.procs, r, s, Slots(|w.k.procs|)) == No
    requires Enqueue(w.k, s, r, m).Done?
    ensures Base(After(w, Enqueue(w.k, s, r, m)))
  {
    EnqueueShape(w.k, s, r, m);
    EnqueuedBase(w, Enqueue(w.k, s, r, m), s, r, m);
  }

  lemma EnqueuedBase(w: World, o: Outcome, s: nat, r: nat, m: nat)
    requires Base(w) && s < |w.k.procs| && r < |w.k.procs| && s != r && m != 0
    requires w.k.procs[s].Runnable()
    requires DeadlockWalk(w.k.procs, r, s, Slots(|w.k.procs|)) == No
    requires o.Done? && o.k.mem == w.k.mem && o.events == [Sent(s, r, Load(w.k.mem, s, m))]
    requires OnlyLinksBut(w.k.procs, o.k.procs, s,
               w.k.procs[s].(sending := true, sendTo := Of(r), pending := m, link := None))
    ensures Base(After(w, o))
  {
    var w' := After(w, o);
    assert LocalOk(w.k.procs, s);
    LinksLocalOk(w.k.procs, o.k.procs, s, o.k.procs[s]);
    DeadlockCheckExact(w.k.procs, s, r);
    RankedFewerEdges(WithEdge(w.k.procs, s, r), o.k.procs);
    forall x: nat ensures QueueMembers(w', x) {
      assert QueueMembers(w, x);
      QueueAppend(w.log, o.events[0], x);
      JoinedMembers(w, w', s, r, x);
    }
    forall x | 0 <= x < |w.k.procs| ensures Conserved(w', x) && LatchOk(w', x) {
      assert Conserved(w, x) && LatchOk(w, x);
      if x != s { assert InFlight(w'.k, x) == InFlight(w.k, x); }
      EnqueuedFlow(w, w', o.events[0], x);
    }
  }

  /** The message of a blocked send is the one in flight. */
  lemma EnqueuedFlow(w: World, w': World, e: Event, x: nat)
    requires x < |w.k.procs| == |w'.k.procs| && Conserved(w, x) && LatchOk(w, x) && w'.log == w.log + [e] && e.Sent?
    requires InFlight(w'.k, x) == InFlight(w.k, x) + if e.sender == x then [(e.receiver, e.msg)] else []
    requires e.sender == x ==> InFlight(w.k, x) == []
    requires w'.k.procs[x].hasInt == w.k.procs[x].hasInt
    requires w'.k.procs[x].AcceptsInterrupt() ==> w.k.procs[x].AcceptsInterrupt()
    ensures Conserved(w', x) && LatchOk(w', x)
  {
    HistoryAppend(w.log, e);
  }

  lemma JoinedMembers(w: World, w': World, s: nat, r: nat, x: nat)
    requires QueueMembers(w, x) && s < |w.k.procs| == |w'.k.procs| && !w.k.procs[s].sending
    requires OnlyLinksBut(w.k.procs, w'.k.procs, s, w'.k.procs[s]) && w'.k.procs[s].SendsTo(r)
    requires ArrivalQueue(w'.log, x) == if x == r then ArrivalQueue(w.log, x) + [s] else ArrivalQueue(w.log, x)
    ensures QueueMembers(w', x)
  {}

  lemma TakeBase(w: World, r: nat, s: nat, prev: Option<nat>, m: nat)
    requires Base(w) && s < |w.k.procs| && r < |w.k.procs| && (prev.Some? ==> prev.value < |w.k.procs|)
    requires ReadyToTake(w.k.procs, r, s)
    requires Take(w.k, r, s, prev, m).Done?
    ensures Base(After(w, Take(w.k, r, s, prev, m)))
  {
    TakeShape(w.k, r, s, prev, m);
    TakenBase(w, Take(w.k, r, s, prev, m), r, s, m);
  }

  lemma TakenBase(w: World, o: Outcome, r: nat, s: nat, m: nat)
    requires Base(w) && s < |w.k.procs| && r < |w.k.procs|
    requires ReadyToTake(w.k.procs, r, s)
    requires o.Done? && var msg := Load(w.k.mem, s, w.k.procs[s].pending);
             o.k.mem == w.k.mem[(r, m) := msg] && o.events == [Delivered(s, r, msg)]
    requires OnlyLinksBut(w.k.procs, o.k.procs, s,
               w.k.procs[s].(sending := false, sendTo := NoTask, pending := 0, link := None))
    ensures Base(After(w, o))
  {
    var w' := After(w, o);
    HistoryAppend(w.log, o.events[0]);
    LinksLocalOk(w.k.procs, o.k.procs, s, o.k.procs[s]);
    RankedFewerEdges(w.k.procs, o.k.procs);
    forall x: nat ensures QueueMembers(w', x) {
      assert QueueMembers(w, x);
      LeftMembers(w, w', s, r, x);
    }
    forall x | 0 <= x < |w.k.procs| ensures Conserved(w', x) && LatchOk(w', x) {
      assert Conserved(w, x) && LatchOk(w, x);
      if x != s { assert InFlight(w'.k, x) == InFlight(w.k, x); }
    }
  }

  lemma LeftMembers(w: World, w': World, s: nat, r: nat, x: nat)
    requires QueueMembers(w, x) && s < |w.k.procs| == |w'.k.procs| && w.k.procs[s].SendsTo(r)
    requires OnlyLinksBut(w.k.procs, w'.k.procs, s, w'.k.procs[s]) && !w'.k.procs[s].sending
    requires ArrivalQueue(w'.log, x) == if x == r then Remove(ArrivalQueue(w.log, x), s) else ArrivalQueue(w.log, x)
    ensures QueueMembers(w', x)
  {
    if x == r { RemoveMembers(ArrivalQueue(w.log, r), s); }
  }

  /** Notifications and their answers touch no message, and no other task's latch. */
  lemma LocalHistory(log: seq<Event>, events: seq<Event>, p: nat)
    requires events in {[], [Notified(p)], [IntTaken(p)], [Notified(p), IntTaken(p)]}
    ensures forall q: nat :: ArrivalQueue(log + events, q) == ArrivalQueue(log, q)
    ensures forall q: nat :: SentBy(log + events, q) == SentBy(log, q)
    ensures forall q: nat :: DeliveredFrom(log + events, q) == DeliveredFrom(log, q)
    ensures forall q: nat :: q != p ==> PendingInterrupt(log + events, q) == PendingInterrupt(log, q)
  {
    if events == [] {
      assert log + events == log;
    } else {
      HistoryAppend(log, events[0]);
      if |events| == 2 {
        assert log + events == (log + [events[0]]) + [events[1]];
        HistoryAppend(log + [events[0]], events[1]);
      } else {
        assert log + events == log + [events[0]];
      }
    }
  }

  /** Steps that touch one process that is not sending, and no queue. */
  lemma LocalStepBase(w: World, p: nat, x: Proc, mem: map<(nat, nat), Message>, events: seq<Event>)
    requires Base(w) && p < |w.k.procs|
    requires !w.k.procs[p].sending && !x.sending
    requires forall q: nat, a: nat :: q != p ==> Load(mem, q, a) == Load(w.k.mem, q, a)
    requires events in {[], [Notified(p)], [IntTaken(p)], [Notified(p), IntTaken(p)]}
    requires var w' := World(Kernel(w.k.procs[p := x], mem), w.log + events);
             LocalOk(w'.k.procs, p) && LatchOk(w', p)
    ensures Base(World(Kernel(w.k.procs[p := x], mem), w.log + events))
  {
    var w' := World(Kernel(w.k.procs[p := x], mem), w.log + events);
    LocalHistory(w.log, events, p);
    forall q | 0 <= q < |w.k.procs| ensures LocalOk(w'.k.procs, q) { assert LocalOk(w.k.procs, q); }
    RankedFewerEdges(w.k.procs, w'.k.procs);
    forall q: nat ensures QueueMembers(w', q) { assert QueueMembers(w, q); }
    forall q | 0 <= q < |w.k.procs| ensures Conserved(w', q) && LatchOk(w', q) {
      assert Conserved(w, q) && LatchOk(w, q);
      assert InFlight(w'.k, q) == InFlight(w.k, q);
    }
  }

  lemma SendBase(w: World, s: nat, r: nat, m: nat)
    requires Base(w) && s < |w.k.procs| && w.k.procs[s].Runnable() && Send(w.k, s, r, m).Done?
    ensures Base(After(w, Send(w.k, s, r, m)))
  {
    var k0 := Stamp(w.k, s, m);
    MemoryBase(w, s, m, Load(w.k.mem, s, m).(source := Of(s)));
    var w0 := World(k0, w.log);
    if k0.procs[r].Accepts(s) { RendezvousBase(w0, s, r, m); } else { EnqueueBase(w0, s, r, m); }
  }

  lemma ReceiveBase(w: World, r: nat, src: Peer, m: nat)
    requires Base(w) && r < |w.k.procs| && w.k.procs[r].Runnable() && Receive(w.k, r, src, m).Done?
    ensures Base(After(w, Receive(w.k, r, src, m)))
  {
    var k0 := Stamp(w.k, r, m);
    MemoryBase(w, r, m, Load(w.k.mem, r, m).(source := Of(r)));
    var w0 := World(k0, w.log);
    var procs := k0.procs;
    assert LocalOk(procs, r) && LatchOk(w0, r);
    if procs[r].hasInt && (src == Any || src == Interrupt) {
      HistoryAppend(w.log, IntTaken(r));
      LocalStepBase(w0, r, procs[r].(hasInt := false), k0.mem[(r, m) := Message(Interrupt, HW_INT, 0)], [IntTaken(r)]);
    } else if src == Any && procs[r].link.Some? {
      TakeBase(w0, r, procs[r].link.value, None, m);
    } else if src.Of? && procs[src.pid].SendsTo(r) {
      TakeBase(w0, r, src.pid, FindPrev(procs, procs[r].link, None, src.pid, Slots(|procs|)).prev, m);
    } else {
      assert w.log + [] == w.log;
      LocalStepBase(w0, r, procs[r].(receiving := true, pending := m, recvFrom := src), k0.mem, []);
    }
  }

  lemma NotifyBase(w: World, t: nat)
    requires Base(w) && t < |w.k.procs| && Notify(w.k, t).Done?
    ensures Base(After(w, Notify(w.k, t)))
  {
    var tp := w.k.procs[t];
    assert LocalOk(w.k.procs, t) && LatchOk(w, t);
    HistoryAppend(w.log, Notified(t));
    if tp.AcceptsInterrupt() {
      HistoryAppend(w.log + [Notified(t)], IntTaken(t));
      assert w.log + [Notified(t), IntTaken(t)] == (w.log + [Notified(t)]) + [IntTaken(t)];
      LocalStepBase(w, t, tp.(pending := 0, hasInt := false, receiving := false, recvFrom := NoTask),
        Notify(w.k, t).k.mem, [Notified(t), IntTaken(t)]);
    } else if tp.sending {
      LatchSenderBase(w, t);
    } else {
      LocalStepBase(w, t, tp.(hasInt := true), w.k.mem, [Notified(t)]);
    }
  }

  /** Latching an interrupt for a process that is blocked sending. */
  lemma LatchSenderBase(w: World, t: nat)
    requires Base(w) && t < |w.k.procs| && w.k.procs[t].sending
    ensures Base(World(w.k.(procs := w.k.procs[t := w.k.procs[t].(hasInt := true)]), w.log + [Notified(t)]))
  {
    var w' := World(w.k.(procs := w.k.procs[t := w.k.procs[t].(hasInt := true)]), w.log + [Notified(t)]);
    HistoryAppend(w.log, Notified(t));
    forall q | 0 <= q < |w.k.procs| ensures LocalOk(w'.k.procs, q) { assert LocalOk(w.k.procs, q); }
    RankedFewerEdges(w.k.procs, w'.k.procs);
    forall q: nat ensures QueueMembers(w', q) { assert QueueMembers(w, q); }
    forall q | 0 <= q < |w.k.procs| ensures Conserved(w', q) && LatchOk(w', q) {
      assert Conserved(w, q) && LatchOk(w, q) && LocalOk(w.k.procs, q);
      assert InFlight(w'.k, q) == InFlight(w.k, q);
    }
  }

  /** Every completed step keeps the base invariant, with no condition on the queues. */
  lemma StepBase(w: World, step: Step)
    requires Base(w) && Enabled(w.k, step) && Exec(w.k, step).Done?
    ensures Base(After(w, Exec(w.k, step)))
  {
    match step
    case SendStep(s, r, m) => SendBase(w, s, r, m);
    case ReceiveStep(r, src, m) => ReceiveBase(w, r, src, m);
    case InterruptStep(t) => NotifyBase(w, t);
    case StoreStep(p, a, msg) =>
      assert w.log + [] == w.log;
      MemoryBase(w, p, a, msg);
  }
}
