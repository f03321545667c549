/** The sender queues. One field, `q_pending_proc`, is both the head of a process's own
    queue and its link inside another process's queue, so the chains follow the arrival
    order exactly as long as no process plays both parts at once. */
module IpcQueues {
  import opened Common
  import opened Ipc
  import opened IpcHistory
  import opened IpcDeadlock
  import opened IpcSafety

  function LinkAfter(q: seq<nat>, i: int): Option<nat>
    requires -1 <= i < |q|
  {
    if i + 1 < |q| then Some(q[i + 1]) else None
  }

  /** The process at position `i` of `q` links to the one after it. */
  predicate LinkOk(procs: seq<Proc>, q: seq<nat>, i: int) {
    0 <= i < |q| && q[i] < |procs| && procs[q[i]].link == LinkAfter(q, i)
  }

  predicate Within(procs: seq<Proc>, q: seq<nat>) {
    forall i :: 0 <= i < |q| ==> q[i] < |procs|
  }

  /** Following the links from `p` visits exactly `q` and ends. */
  predicate ChainIs(procs: seq<Proc>, p: nat, q: seq<nat>) {
    && p < |procs| && procs[p].link == LinkAfter(q, -1) && Within(procs, q)
    && forall i :: 0 <= i < |q| ==> LinkOk(procs, q, i)
  }

  /** Every process that has waiting senders, or is not queued itself, heads the chain of
      its senders in arrival order. */
  predicate QueueExact(w: World, r: nat) {
    r < |w.k.procs| && (ArrivalQueue(w.log, r) != [] || !w.k.procs[r].sending) ==>
      ChainIs(w.k.procs, r, ArrivalQueue(w.log, r))
  }

  ghost predicate QueuesExact(w: World) {
    forall r: nat :: QueueExact(w, r)
  }

  /** No process has waiting senders while it is itself blocked sending. */
  predicate NoOverlap(procs: seq<Proc>) {
    forall r, s :: 0 <= r < |procs| && 0 <= s < |procs| && procs[r].sending ==> !procs[s].SendsTo(r)
  }

  lemma InitialExact(w: World)
    requires Initial(w)
    ensures QueuesExact(w)
  {}

  lemma QueueOfSender(w: World, s: nat, r: nat)
    requires Base(w) && s < |w.k.procs| && w.k.procs[s].SendsTo(r)
    ensures s in ArrivalQueue(w.log, r)
  {
    assert QueueMembers(w, r);
  }

  lemma HeadIsMember(q: seq<nat>)
    ensures q != [] ==> q[0] in q
  {}

  /** Exact queues leave no process with both waiting senders and a place in a queue. */
  lemma ExactNoOverlap(w: World)
    requires Base(w) && QueuesExact(w)
    ensures NoOverlap(w.k.procs)
  {
    var procs := w.k.procs;
    forall r, s | 0 <= r < |procs| && 0 <= s < |procs| && procs[r].sending
      ensures !procs[s].SendsTo(r)
    {
      assert LocalOk(procs, r);
      var t := procs[r].sendTo.pid;
      var qt, qr := ArrivalQueue(w.log, t), ArrivalQueue(w.log, r);
      QueueOfSender(w, r, t);
      assert QueueMembers(w, t) && QueueMembers(w, r) && QueueExact(w, t) && QueueExact(w, r);
      var i :| 0 <= i < |qt| && qt[i] == r;
      assert LinkOk(procs, qt, i);
      assert i + 1 < |qt| ==> qt[i + 1] in qt;
      HeadIsMember(qr);
    }
  }

  lemma QueueOwnerNotSending(w: World, r: nat)
    requires Base(w) && NoOverlap(w.k.procs) && r < |w.k.procs| && ArrivalQueue(w.log, r) != []
    ensures !w.k.procs[r].sending
  {
    assert QueueMembers(w, r);
    assert ArrivalQueue(w.log, r)[0] in ArrivalQueue(w.log, r);
  }

  // ---- walking a chain ----

  predicate ChainTail(procs: seq<Proc>, q: seq<nat>, j: nat) {
    j < |q| && Within(procs, q) && forall i :: j <= i < |q| ==> LinkOk(procs, q, i)
  }

  lemma {:induction false} TailOfChain(procs: seq<Proc>, q: seq<nat>, j: nat, todo: set<nat>)
    requires Sane(procs) && ChainTail(procs, q, j) && NoDuplicates(q)
    requires forall i :: j <= i < |q| ==> q[i] in todo
    ensures Tail(procs, q[j], todo) == Some(q[|q| - 1])
    decreases |q| - j
  {
    assert LinkOk(procs, q, j);
    if j + 1 < |q| {
      TailOfChain(procs, q, j + 1, todo - {q[j]});
    }
  }

  function Last(r: nat, q: seq<nat>): nat { if q == [] then r else q[|q| - 1] }

  lemma TailFromHead(procs: seq<Proc>, r: nat, q: seq<nat>)
    requires Sane(procs) && ChainIs(procs, r, q) && NoDuplicates(q) && r !in q
    ensures Tail(procs, r, Slots(|procs|)) == Some(Last(r, q))
  {
    if q != [] {
      assert ChainTail(procs, q, 0);
      TailOfChain(procs, q, 0, Slots(|procs|) - {r});
    }
  }

  lemma {:induction false} FindInChain(procs: seq<Proc>, q: seq<nat>, j: nat, at: nat, prev: Option<nat>,
                                       todo: set<nat>)
    requires Sane(procs) && ChainTail(procs, q, j) && NoDuplicates(q) && j <= at < |q|
    requires prev == if j == 0 then None else Some(q[j - 1])
    requires prev.Some? ==> prev.value < |procs|
    requires forall i :: j <= i < |q| ==> q[i] in todo
    ensures FindPrev(procs, Some(q[j]), prev, q[at], todo) == Stopped(if at == 0 then None else Some(q[at - 1]))
    decreases |q| - j
  {
    if j < at {
      assert LinkOk(procs, q, j);
      FindInChain(procs, q, j + 1, at, Some(q[j]), todo - {q[j]});
    }
  }

  // ---- sending ----

  /** A send that blocks while the sender has waiting senders of its own, or while the
      receiver is itself blocked sending. */
  predicate Clobbers(k: Kernel, step: Step) {
    && step.SendStep? && step.s < |k.procs| && step.r < |k.procs|
    && !k.procs[step.r].Accepts(step.s)
    && (k.procs[step.s].link.Some? || k.procs[step.r].sending)
  }

  lemma ChainFrame(a: seq<Proc>, b: seq<Proc>, p: nat, q: seq<nat>)
    requires ChainIs(a, p, q) && |a| == |b|
    requires a[p].link == b[p].link
    requires forall x :: x in q ==> x < |a| && a[x].link == b[x].link
    ensures ChainIs(b, p, q)
  {
    forall i | 0 <= i < |q| ensures LinkOk(b, q, i) { assert LinkOk(a, q, i); }
  }

  lemma ChainAppend(procs: seq<Proc>, procs': seq<Proc>, r: nat, q: seq<nat>, s: nat)
    requires ChainIs(procs, r, q) && NoDuplicates(q) && r !in q && s !in q && s != r
    requires s < |procs| == |procs'|
    requires procs'[s].link == None && procs'[Last(r, q)].link == Some(s)
    requires forall p :: 0 <= p < |procs| && p != s && p != Last(r, q) ==> procs'[p].link == procs[p].link
    ensures ChainIs(procs', r, q + [s])
  {
    var q' := q + [s];
    forall i | 0 <= i < |q'| ensures LinkOk(procs', q', i) {
      if i < |q| { assert LinkOk(procs, q, i); }
    }
  }

  /** What a blocking send does to the links. */
  lemma EnqueueLinks(k: Kernel, s: nat, r: nat, m: nat, tail: nat)
    requires Sane(k.procs) && s < |k.procs| && r < |k.procs| && s != r && tail < |k.procs|
    requires Enqueue(k, s, r, m).Done?
    requires Tail(k.procs, r, Slots(|k.procs|)) == Some(tail)
    ensures var procs' := Enqueue(k, s, r, m).k.procs;
            && |procs'| == |k.procs| && procs'[s].link == None
            && (tail != s ==> procs'[tail].link == Some(s))
            && (forall p :: 0 <= p < |procs'| && p != s && p != tail ==> procs'[p].link == k.procs[p].link)
  {
    var p1 := k.procs[s := k.procs[s].(sending := true, sendTo := Of(r), pending := m)];
    TailSameLinks(k.procs, p1, r, Slots(|p1|));
  }

  lemma {:induction false} TailSameLinks(a: seq<Proc>, b: seq<Proc>, p: nat, todo: set<nat>)
    requires Sane(a) && Sane(b) && |a| == |b| && p < |a|
    requires forall i :: 0 <= i < |a| ==> a[i].link == b[i].link
    ensures Tail(a, p, todo) == Tail(b, p, todo)
    decreases todo
  {
    if a[p].link.Some? && p in todo { TailSameLinks(a, b, a[p].link.value, todo - {p}); }
  }

  lemma EnqueueKeepsExact(w: World, s: nat, r: nat, m: nat)
    requires Base(w) && QueuesExact(w) && s < |w.k.procs| && r < |w.k.procs| && s != r
    requires w.k.procs[s].Runnable() && w.k.procs[s].link.None? && !w.k.procs[r].sending
    requires Enqueue(w.k, s, r, m).Done?
    ensures QueuesExact(After(w, Enqueue(w.k, s, r, m)))
  {
    var procs := w.k.procs;
    var o := Enqueue(w.k, s, r, m);
    var w' := After(w, o);
    var q := ArrivalQueue(w.log, r);
    ExactNoOverlap(w);
    assert QueueMembers(w, r);
    assert QueueExact(w, r);
    TailFromHead(procs, r, q);
    EnqueueLinks(w.k, s, r, m, Last(r, q));
    EnqueueShape(w.k, s, r, m);
    forall t: nat ensures QueueExact(w', t) {
      QueueAppend(w.log, o.events[0], t);
      if t == r {
        ChainAppend(procs, o.k.procs, r, q, s);
      } else if t < |procs| && (ArrivalQueue(w.log, t) != [] || !o.k.procs[t].sending) {
        OtherChain(w, r, t);
        assert Last(r, q) == r || Last(r, q) in q;
        ChainFrame(procs, o.k.procs, t, ArrivalQueue(w.log, t));
      }
    }
  }

  /** The chain of another queue owner shares no process with the chain of `r`. */
  lemma OtherChain(w: World, r: nat, t: nat)
    requires Base(w) && QueuesExact(w) && NoOverlap(w.k.procs)
    requires r < |w.k.procs| && t < |w.k.procs| && t != r && !w.k.procs[r].sending
    requires ArrivalQueue(w.log, t) != [] || !w.k.procs[t].sending
    ensures ChainIs(w.k.procs, t, ArrivalQueue(w.log, t))
    ensures forall x :: x in ArrivalQueue(w.log, t) ==>
              x < |w.k.procs| && x !in ArrivalQueue(w.log, r) && x != r && w.k.procs[x].SendsTo(t)
    ensures t !in ArrivalQueue(w.log, r)
  {
    assert QueueMembers(w, r) && QueueMembers(w, t) && QueueExact(w, t);
    if ArrivalQueue(w.log, t) != [] { QueueOwnerNotSending(w, t); }
  }

  lemma EnqueueBreaksExact(w: World, s: nat, r: nat, m: nat)
    requires Base(w) && QueuesExact(w) && s < |w.k.procs| && r < |w.k.procs| && s != r
    requires w.k.procs[s].Runnable() && (w.k.procs[s].link.Some? || w.k.procs[r].sending)
    requires Enqueue(w.k, s, r, m).Done?
    ensures !QueuesExact(After(w, Enqueue(w.k, s, r, m)))
  {
    var procs := w.k.procs;
    var o := Enqueue(w.k, s, r, m);
    var w' := After(w, o);
    EnqueueShape(w.k, s, r, m);
    if procs[s].link.Some? {
      QueueAppend(w.log, o.events[0], s);
      assert QueueExact(w, s) && !QueueExact(w', s);
    } else {
      assert LocalOk(procs, r);
      var t := procs[r].sendTo.pid;
      QueueOfSender(w, r, t);
      var q := ArrivalQueue(w.log, t);
      QueueAppend(w.log, o.events[0], t);
      assert QueueMembers(w, t) && QueueExact(w, t);
      var i :| 0 <= i < |q| && q[i] == r;
      assert ChainTail(procs, q, i);
      TailOfChain(procs, q, i, Slots(|procs|));
      EnqueueLinks(w.k, s, r, m, q[|q| - 1]);
      assert q[|q| - 1] in q;
      assert !LinkOk(w'.k.procs, q, |q| - 1);
      assert !QueueExact(w', t);
    }
  }

  /** A step that changes neither links nor queues, nor starts a send, keeps the chains. */
  lemma SameLinksExact(w: World, w': World, t: nat)
    requires QueueExact(w, t) && |w'.k.procs| == |w.k.procs|
    requires forall p :: 0 <= p < |w.k.procs| ==>
               w'.k.procs[p].link == w.k.procs[p].link && w'.k.procs[p].sending == w.k.procs[p].sending
    requires ArrivalQueue(w'.log, t) == ArrivalQueue(w.log, t)
    ensures QueueExact(w', t)
  {
    var q := ArrivalQueue(w.log, t);
    if t < |w.k.procs| && (q != [] || !w.k.procs[t].sending) {
      forall i | 0 <= i < |q| ensures LinkOk(w'.k.procs, q, i) { assert LinkOk(w.k.procs, q, i); }
    }
  }

  lemma RendezvousKeepsExact(w: World, s: nat, r: nat, m: nat)
    requires Base(w) && QueuesExact(w) && s < |w.k.procs| && r < |w.k.procs| && s != r
    requires w.k.procs[s].Runnable() && w.k.procs[r].Accepts(s)
    requires Rendezvous(w.k, s, r, m).Done?
    ensures QueuesExact(After(w, Rendezvous(w.k, s, r, m)))
  {
    var o := Rendezvous(w.k, s, r, m);
    var w' := After(w, o);
    var e, f := o.events[0], o.events[1];
    assert w'.log == (w.log + [e]) + [f];
    assert QueueMembers(w, r);
    RemoveJustAdded(ArrivalQueue(w.log, r), s);
    forall t: nat ensures QueueExact(w', t) {
      QueueAppend(w.log, e, t);
      QueueAppend(w.log + [e], f, t);
      SameLinksExact(w, w', t);
    }
  }

  // ---- receiving ----

  lemma ChainRemove(procs: seq<Proc>, procs': seq<Proc>, r: nat, q: seq<nat>, at: nat)
    requires ChainIs(procs, r, q) && NoDuplicates(q) && r !in q && at < |q| && |procs'| == |procs|
    requires var before := if at == 0 then r else q[at - 1];
             && procs'[before].link == procs[q[at]].link && procs'[q[at]].link == None
             && (forall p :: 0 <= p < |procs| && p != before && p != q[at] ==> procs'[p].link == procs[p].link)
    ensures ChainIs(procs', r, q[..at] + q[at + 1..])
  {
    var q' := q[..at] + q[at + 1..];
    var before := if at == 0 then r else q[at - 1];
    assert Within(procs', q');
    assert LinkOk(procs, q, at);
    assert procs'[before].link == LinkAfter(q', at - 1);
    forall i | 0 <= i < |q'| ensures LinkOk(procs', q', i) {
      if i < at { assert LinkOk(procs, q, i); } else { assert LinkOk(procs, q, i + 1); }
    }
  }

  lemma TakeLinks(k: Kernel, r: nat, s: nat, prev: Option<nat>, m: nat)
    requires r < |k.procs| && s < |k.procs| && r != s && prev != Some(s)
    requires prev.Some? ==> prev.value < |k.procs|
    requires Take(k, r, s, prev, m).Done?
    ensures var procs' := Take(k, r, s, prev, m).k.procs;
            var before := if prev.Some? then prev.value else r;
            && |procs'| == |k.procs|
            && procs'[before].link == k.procs[s].link && procs'[s].link == None
            && (forall p :: 0 <= p < |procs'| && p != before && p != s ==> procs'[p].link == k.procs[p].link)
  {}

  lemma TakeKeepsExact(w: World, r: nat, at: nat, m: nat)
    requires Base(w) && QueuesExact(w) && r < |w.k.procs| && at < |ArrivalQueue(w.log, r)|
    requires !w.k.procs[r].sending && ArrivalQueue(w.log, r)[at] < |w.k.procs|
    requires at > 0 ==> ArrivalQueue(w.log, r)[at - 1] < |w.k.procs|
    requires var q := ArrivalQueue(w.log, r);
             ReadyToTake(w.k.procs, r, q[at]) && Take(w.k, r, q[at], if at == 0 then None else Some(q[at - 1]), m).Done?
    ensures var q := ArrivalQueue(w.log, r);
            QueuesExact(After(w, Take(w.k, r, q[at], if at == 0 then None else Some(q[at - 1]), m)))
  {
    var q := ArrivalQueue(w.log, r);
    var s := q[at];
    var prev := if at == 0 then None else Some(q[at - 1]);
    var o := Take(w.k, r, s, prev, m);
    var w' := After(w, o);
    ExactNoOverlap(w);
    assert QueueMembers(w, r);
    TakeLinks(w.k, r, s, prev, m);
    TakeShape(w.k, r, s, prev, m);
    RemoveAt(q, at);
    assert QueueExact(w, r);
    forall t: nat ensures QueueExact(w', t) {
      QueueAppend(w.log, o.events[0], t);
      if t == r {
        ChainRemove(w.k.procs, o.k.procs, r, q, at);
      } else if t == s {
        if ArrivalQueue(w.log, s) != [] { QueueOwnerNotSending(w, s); }
      } else if t < |w.k.procs| && (ArrivalQueue(w.log, t) != [] || !o.k.procs[t].sending) {
        OtherChain(w, r, t);
        assert s in q && (at > 0 ==> q[at - 1] in q);
        ChainFrame(w.k.procs, o.k.procs, t, ArrivalQueue(w.log, t));
      }
    }
  }

  /** The position of a blocked sender in its receiver's queue, as the search finds it. */
  lemma SearchFindsSender(w: World, r: nat, s: nat) returns (at: nat)
    requires Base(w) && QueuesExact(w) && r < |w.k.procs| && s < |w.k.procs|
    requires !w.k.procs[r].sending && w.k.procs[s].SendsTo(r)
    ensures at < |ArrivalQueue(w.log, r)| && ArrivalQueue(w.log, r)[at] == s
    ensures Within(w.k.procs, ArrivalQueue(w.log, r))
    ensures w.k.procs[r].link == Some(ArrivalQueue(w.log, r)[0])
    ensures FindPrev(w.k.procs, w.k.procs[r].link, None, s, Slots(|w.k.procs|))
            == Stopped(if at == 0 then None else Some(ArrivalQueue(w.log, r)[at - 1]))
  {
    var q := ArrivalQueue(w.log, r);
    assert QueueMembers(w, r) && QueueExact(w, r);
    QueueOfSender(w, s, r);
    at :| 0 <= at < |q| && q[at] == s;
    assert ChainTail(w.k.procs, q, 0);
    FindInChain(w.k.procs, q, 0, at, None, Slots(|w.k.procs|));
  }

  /** Changing the memory changes no queue. */
  lemma StampExact(w: World, mem: map<(nat, nat), Message>)
    requires QueuesExact(w)
    ensures QueuesExact(World(w.k.(mem := mem), w.log))
  {
    var w' := World(w.k.(mem := mem), w.log);
    forall t: nat ensures QueueExact(w', t) { assert QueueExact(w, t); SameLinksExact(w, w', t); }
  }

  lemma SendExact(w: World, s: nat, r: nat, m: nat)
    requires Base(w) && QueuesExact(w) && s < |w.k.procs| && w.k.procs[s].Runnable()
    requires Send(w.k, s, r, m).Done?
    ensures QueuesExact(After(w, Send(w.k, s, r, m))) <==> !Clobbers(w.k, SendStep(s, r, m))
  {
    var k0 := Stamp(w.k, s, m);
    var w0 := World(k0, w.log);
    MemoryBase(w, s, m, Load(w.k.mem, s, m).(source := Of(s)));
    StampExact(w, k0.mem);
    if k0.procs[r].Accepts(s) {
      RendezvousKeepsExact(w0, s, r, m);
    } else if Clobbers(w.k, SendStep(s, r, m)) {
      EnqueueBreaksExact(w0, s, r, m);
    } else {
      EnqueueKeepsExact(w0, s, r, m);
    }
  }

  lemma ReceiveExact(w: World, r: nat, src: Peer, m: nat)
    requires Base(w) && QueuesExact(w) && r < |w.k.procs| && w.k.procs[r].Runnable()
    requires Receive(w.k, r, src, m).Done?
    ensures QueuesExact(After(w, Receive(w.k, r, src, m)))
  {
    var k0 := Stamp(w.k, r, m);
    var w0 := World(k0, w.log);
    var procs := k0.procs;
    MemoryBase(w, r, m, Load(w.k.mem, r, m).(source := Of(r)));
    StampExact(w, k0.mem);
    assert QueueExact(w0, r);
    if procs[r].hasInt && (src == Any || src == Interrupt) {
      LocalStepExact(w0, After(w0, TakeInterrupt(k0, r, m)), IntTaken(r));
    } else if src == Any && procs[r].link.Some? {
      TakeKeepsExact(w0, r, 0, m);
    } else if src.Of? && procs[src.pid].SendsTo(r) {
      var at := SearchFindsSender(w0, r, src.pid);
      TakeKeepsExact(w0, r, at, m);
    } else {
      BlockReceiveExact(w0, r, src, m);
    }
  }

  lemma BlockReceiveExact(w: World, r: nat, src: Peer, m: nat)
    requires QueuesExact(w) && r < |w.k.procs| && BlockReceive(w.k, r, src, m).Done?
    ensures QueuesExact(After(w, BlockReceive(w.k, r, src, m)))
  {
    var w' := After(w, BlockReceive(w.k, r, src, m));
    assert w.log + [] == w.log;
    forall t: nat ensures QueueExact(w', t) { assert QueueExact(w, t); SameLinksExact(w, w', t); }
  }

  lemma LocalStepExact(w: World, w': World, e: Event)
    requires QueuesExact(w) && !e.Sent? && !e.Delivered? && w'.log == w.log + [e]
    requires |w'.k.procs| == |w.k.procs|
    requires forall p :: 0 <= p < |w.k.procs| ==>
               w'.k.procs[p].link == w.k.procs[p].link && w'.k.procs[p].sending == w.k.procs[p].sending
    ensures QueuesExact(w')
  {
    forall t: nat ensures QueueExact(w', t) {
      assert QueueExact(w, t);
      QueueAppend(w.log, e, t);
      SameLinksExact(w, w', t);
    }
  }

  lemma NotifyExact(w: World, t: nat)
    requires Base(w) && QueuesExact(w) && t < |w.k.procs| && Notify(w.k, t).Done?
    ensures QueuesExact(After(w, Notify(w.k, t)))
  {
    var o := Notify(w.k, t);
    var w' := After(w, o);
    if w.k.procs[t].AcceptsInterrupt() {
      var w1 := World(w'.k, w.log + [Notified(t)]);
      LocalStepExact(w, w1, Notified(t));
      assert w'.log == w1.log + [IntTaken(t)];
      LocalStepExact(w1, w', IntTaken(t));
    } else {
      LocalStepExact(w, w', Notified(t));
    }
  }

  /** After a completed step the chains are exact if and only if the step was not a
      clobbering send. */
  lemma StepExact(w: World, step: Step)
    requires Base(w) && QueuesExact(w) && Enabled(w.k, step) && Exec(w.k, step).Done?
    ensures QueuesExact(After(w, Exec(w.k, step))) <==> !Clobbers(w.k, step)
  {
    match step
    case SendStep(s, r, m) => SendExact(w, s, r, m);
    case ReceiveStep(r, src, m) => ReceiveExact(w, r, src, m);
    case InterruptStep(t) => NotifyExact(w, t);
    case StoreStep(p, a, msg) =>
      assert w.log + [] == w.log;
      StampExact(w, w.k.mem[(p, a) := msg]);
  }
}
