/** Values shared by several parts of the model. */
module Common {
  datatype Option<T> = None | Some(value: T)

  /** All process-table indices of a table with `n` slots. */
  function Slots(n: nat): (s: set<nat>)
    ensures forall i: nat :: i in s <==> i < n
  {
    if n == 0 then {} else Slots(n - 1) + {n - 1}
  }
}

/** kernel/ipc.c: the rendezvous calls as atomic steps over the process table.

    A step either completes (`Done`), trips one of the kernel's own assertions
    (`Panic`, with the position that failed), or follows a cyclic pointer chain
    for ever (`Hang`). */
module Ipc {
  import opened Common

  /** The values of `pid_recvingfrom`, `pid_sendingto` and message sources. */
  datatype Peer = NoTask | Any | Interrupt | Of(pid: nat)

  datatype Message = Message(source: Peer, kind: int, body: int)

  const HW_INT := 1
  const ZERO := Message(Of(0), 0, 0)

  /** The fields of `struct process` that IPC reads and writes. `otherBits` holds the
      bits of `proc_state` other than SENDING and RECEIVING; `pending` is a message
      address in the process's own space, 0 being null; `link` is `q_pending_proc`. */
  datatype Proc = Proc(
    sending: bool, receiving: bool, otherBits: nat,
    pending: nat, link: Option<nat>,
    recvFrom: Peer, sendTo: Peer, hasInt: bool)
  {
    predicate Runnable() { !sending && !receiving && otherBits == 0 }

    predicate SendsTo(r: nat) { sending && sendTo == Of(r) }

    predicate Accepts(s: nat) { receiving && (recvFrom == Of(s) || recvFrom == Any) }

    predicate AcceptsInterrupt() { receiving && (recvFrom == Interrupt || recvFrom == Any) }
  }

  datatype Kernel = Kernel(procs: seq<Proc>, mem: map<(nat, nat), Message>)

  /** What a step adds to the history of the system. */
  datatype Event =
    | Sent(sender: nat, receiver: nat, msg: Message)
    | Delivered(sender: nat, receiver: nat, msg: Message)
    | Notified(task: nat)
    | IntTaken(task: nat)

  datatype Outcome = Done(k: Kernel, events: seq<Event>) | Panic(position: nat) | Hang

  // Assertions outside assert_multiple, numbered above its nine positions.
  const BAD_PEER := 10
  const DEADLOCK := 11
  const NOT_SENDING := 12
  const NOT_UNBLOCKED := 13
  const EMPTY_QUEUE := 14
  const BAD_PREV := 15

  function Load(mem: map<(nat, nat), Message>, p: nat, a: nat): Message {
    if (p, a) in mem then mem[(p, a)] else ZERO
  }

  /** Every pointer in the table points into the table. */
  predicate Sane(procs: seq<Proc>) {
    forall p :: 0 <= p < |procs| ==>
      && (procs[p].sending ==> procs[p].sendTo.Of? && procs[p].sendTo.pid < |procs|)
      && (procs[p].link.Some? ==> procs[p].link.value < |procs|)
  }

  datatype Walk = Yes | No | Loops

  /** The loop of check_deadlock from process `p`; `todo` holds the processes not yet visited. */
  function DeadlockWalk(procs: seq<Proc>, p: nat, s: nat, todo: set<nat>): Walk
    requires Sane(procs) && p < |procs|
    decreases todo
  {
    if !procs[p].sending then No
    else if procs[p].sendTo.pid == s then Yes
    else if p !in todo then Loops
    else DeadlockWalk(procs, procs[p].sendTo.pid, s, todo - {p})
  }

  /** The process at the end of the link chain that starts at `p`, if the chain ends. */
  function Tail(procs: seq<Proc>, p: nat, todo: set<nat>): (t: Option<nat>)
    requires Sane(procs) && p < |procs|
    ensures t.Some? ==> t.value < |procs|
    decreases todo
  {
    if procs[p].link.None? then Some(p)
    else if p !in todo then None
    else Tail(procs, procs[p].link.value, todo - {p})
  }

  datatype Search = Stopped(prev: Option<nat>) | Circles

  /** The queue search of kernel_msg_rcv: the process visited just before `s`, or before
      the end of the chain when `s` is not on it. */
  function FindPrev(procs: seq<Proc>, p: Option<nat>, prev: Option<nat>, s: nat, todo: set<nat>): (f: Search)
    requires Sane(procs) && (p.Some? ==> p.value < |procs|) && (prev.Some? ==> prev.value < |procs|)
    ensures f.Stopped? && f.prev.Some? ==> f.prev.value < |procs|
    decreases todo
  {
    if p.None? || p.value == s then Stopped(prev)
    else if p.value !in todo then Circles
    else FindPrev(procs, procs[p.value].link, p, s, todo - {p.value})
  }

  /** sys_send_rcv_handler: the caller's pid is written into the message buffer. */
  function Stamp(k: Kernel, p: nat, m: nat): Kernel {
    k.(mem := k.mem[(p, m) := Load(k.mem, p, m).(source := Of(p))])
  }

  /** kernel_msg_send, second half: the receiver is already waiting for this message. */
  function Rendezvous(k: Kernel, s: nat, r: nat, m: nat): Outcome
    requires s < |k.procs| && r < |k.procs|
  {
    var rp := k.procs[r];
    if rp.pending == 0 || m == 0 then Panic(1) else
    var msg := Load(k.mem, s, m);
    var rp' := rp.(pending := 0, receiving := false, recvFrom := NoTask);
    var procs' := k.procs[r := rp'];
    if !rp'.Runnable() then Panic(NOT_UNBLOCKED)
    else if rp'.sendTo != NoTask || !procs'[s].Runnable() || procs'[s].pending != 0
            || procs'[s].recvFrom != NoTask || procs'[s].sendTo != NoTask then Panic(2)
    else Done(Kernel(procs', k.mem[(r, rp.pending) := msg]), [Sent(s, r, msg), Delivered(s, r, msg)])
  }

  /** kernel_msg_send, other half: the sender joins the receiver's queue and blocks. */
  function Enqueue(k: Kernel, s: nat, r: nat, m: nat): Outcome
    requires Sane(k.procs) && s < |k.procs| && r < |k.procs|
  {
    if k.procs[s].receiving || k.procs[s].otherBits != 0 then Panic(NOT_SENDING) else
    var p1 := k.procs[s := k.procs[s].(sending := true, sendTo := Of(r), pending := m)];
    var tail := Tail(p1, r, Slots(|p1|));
    if tail.None? then Hang else
    var p2 := p1[tail.value := p1[tail.value].(link := Some(s))];
    var p3 := p2[s := p2[s].(link := None)];
    if m == 0 || p3[s].recvFrom != NoTask then Panic(3)
    else Done(Kernel(p3, k.mem), [Sent(s, r, Load(k.mem, s, m))])
  }

  /** Process `s` calls SEND to `r` with the message at address `m`. */
  function Send(k: Kernel, s: nat, r: nat, m: nat): Outcome
    requires Sane(k.procs) && s < |k.procs|
  {
    if r >= |k.procs| || r == s then Panic(BAD_PEER) else
    var k0 := Stamp(k, s, m);
    match DeadlockWalk(k0.procs, r, s, Slots(|k0.procs|))
    case Loops => Hang
    case Yes => Panic(DEADLOCK)
    case No =>
      if k0.procs[r].Accepts(s) then Rendezvous(k0, s, r, m) else Enqueue(k0, s, r, m)
  }

  /** Positions 5 and 6 of assert_multiple. */
  predicate ReadyToTake(procs: seq<Proc>, r: nat, s: nat)
    requires r < |procs| && s < |procs|
  {
    && procs[r].Runnable() && procs[r].pending == 0
    && procs[r].recvFrom == NoTask && procs[r].sendTo == NoTask && procs[r].link.Some?
    && procs[s].sending && !procs[s].receiving && procs[s].otherBits == 0
    && procs[s].pending != 0 && procs[s].recvFrom == NoTask && procs[s].sendTo == Of(r)
  }

  /** Takes `s` out of the chain of `r`, `prev` being the process visited before it. */
  function Unlink(procs: seq<Proc>, r: nat, s: nat, prev: Option<nat>): seq<Proc>
    requires r < |procs| && s < |procs| && (prev.Some? ==> prev.value < |procs|)
  {
    var before := if prev.Some? then prev.value else r;
    var p1 := procs[before := procs[before].(link := procs[s].link)];
    p1[s := p1[s].(link := None)]
  }

  /** kernel_msg_rcv: the message of the blocked sender `s` is copied and `s` released. */
  function Take(k: Kernel, r: nat, s: nat, prev: Option<nat>, m: nat): Outcome
    requires r < |k.procs| && s < |k.procs| && (prev.Some? ==> prev.value < |k.procs|)
  {
    if (k.procs[r].link == Some(s)) != prev.None? then Panic(BAD_PREV) else
    var p2 := Unlink(k.procs, r, s, prev);
    if m == 0 || p2[s].pending == 0 then Panic(7) else
    var msg := Load(k.mem, s, p2[s].pending);
    var sp := p2[s].(pending := 0, sendTo := NoTask, sending := false);
    if !sp.Runnable() then Panic(NOT_UNBLOCKED)
    else Done(Kernel(p2[s := sp], k.mem[(r, m) := msg]), [Delivered(s, r, msg)])
  }

  /** kernel_msg_rcv: nobody is sending, the receiver blocks. */
  function BlockReceive(k: Kernel, r: nat, src: Peer, m: nat): Outcome
    requires r < |k.procs|
  {
    var rp := k.procs[r].(receiving := true, pending := m, recvFrom := src);
    if rp.sending || rp.otherBits != 0 || m == 0 || src == NoTask || rp.sendTo != NoTask || rp.hasInt
    then Panic(8)
    else Done(Kernel(k.procs[r := rp], k.mem), [])
  }

  /** kernel_msg_rcv: a latched interrupt answers the call at once. */
  function TakeInterrupt(k: Kernel, r: nat, m: nat): Outcome
    requires r < |k.procs|
  {
    var rp := k.procs[r].(hasInt := false);
    if m == 0 || !rp.Runnable() || rp.pending != 0 || rp.sendTo != NoTask then Panic(4)
    else Done(Kernel(k.procs[r := rp], k.mem[(r, m) := Message(Interrupt, HW_INT, 0)]), [IntTaken(r)])
  }

  /** Process `r` calls RECEIVE from `src` into the buffer at address `m`. */
  function Receive(k: Kernel, r: nat, src: Peer, m: nat): Outcome
    requires Sane(k.procs) && r < |k.procs|
  {
    if src == NoTask || (src.Of? && (src.pid >= |k.procs| || src.pid == r)) then Panic(BAD_PEER) else
    var k0 := Stamp(k, r, m);
    var procs := k0.procs;
    if procs[r].hasInt && (src == Any || src == Interrupt) then TakeInterrupt(k0, r, m)
    else if src == Any && procs[r].link.Some? then
      var s := procs[r].link.value;
      if ReadyToTake(procs, r, s) then Take(k0, r, s, None, m) else Panic(5)
    else if src.Of? && procs[src.pid].SendsTo(r) then
      if procs[r].link.None? then Panic(EMPTY_QUEUE) else
      match FindPrev(procs, procs[r].link, None, src.pid, Slots(|procs|))
      case Circles => Hang
      case Stopped(prev) =>
        if ReadyToTake(procs, r, src.pid) then Take(k0, r, src.pid, prev, m) else Panic(6)
    else BlockReceive(k0, r, src, m)
  }

  /** hw_int_notification. */
  function Notify(k: Kernel, t: nat): Outcome
    requires t < |k.procs|
  {
    var tp := k.procs[t];
    if tp.AcceptsInterrupt() then
      var tp' := tp.(pending := 0, hasInt := false, receiving := false, recvFrom := NoTask);
      var msg := Load(k.mem, t, tp.pending).(source := Interrupt, kind := HW_INT);
      if !tp'.Runnable() || tp'.sendTo != NoTask then Panic(9)
      else Done(Kernel(k.procs[t := tp'], k.mem[(t, tp.pending) := msg]), [Notified(t), IntTaken(t)])
    else Done(k.(procs := k.procs[t := tp.(hasInt := true)]), [Notified(t)])
  }

  /** One atomic step: a system call, a hardware interrupt, or a runnable process writing
      one of its own message buffers. */
  datatype Step =
    | SendStep(s: nat, r: nat, m: nat)
    | ReceiveStep(r: nat, src: Peer, m: nat)
    | InterruptStep(t: nat)
    | StoreStep(p: nat, a: nat, msg: Message)

  /** System calls and stores are made by a runnable process. */
  predicate Enabled(k: Kernel, step: Step) {
    match step
    case SendStep(s, _, _) => s < |k.procs| && k.procs[s].Runnable()
    case ReceiveStep(r, _, _) => r < |k.procs| && k.procs[r].Runnable()
    case InterruptStep(t) => t < |k.procs|
    case StoreStep(p, _, _) => p < |k.procs| && k.procs[p].Runnable()
  }

  function Exec(k: Kernel, step: Step): Outcome
    requires Sane(k.procs) && Enabled(k, step)
  {
    match step
    case SendStep(s, r, m) => Send(k, s, r, m)
    case ReceiveStep(r, src, m) => Receive(k, r, src, m)
    case InterruptStep(t) => Notify(k, t)
    case StoreStep(p, a, msg) => Done(k.(mem := k.mem[(p, a) := msg]), [])
  }
}
