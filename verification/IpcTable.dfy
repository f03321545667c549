/** kernel/ipc.c in its own form: a process table updated in place, with the pointer walks
    as loops. Each method is proved against the atomic step of module Ipc. */
module IpcTable {
  import opened Common
  import opened Ipc

  class ProcessTable {
    const table: array<Proc>
    var mem: map<(nat, nat), Message>

    constructor (n: nat, idle: Proc)
      ensures table.Length == n && fresh(table)
      ensures State() == Kernel(seq(n, i => idle), map[])
    {
      table := new Proc[n](i => idle);
      mem := map[];
      new;
      assert table[..] == seq(n, i => idle);
    }

    /** The table as a value. */
    ghost function State(): Kernel
      reads this, table
    {
      Kernel(table[..], mem)
    }

    /** check_deadlock. */
    method CheckDeadlock(s: nat, r: nat) returns (answer: bool)
      requires Sane(table[..]) && s < table.Length && r < table.Length
      requires DeadlockWalk(table[..], r, s, Slots(table.Length)) != Loops
      ensures answer <==> DeadlockWalk(table[..], r, s, Slots(table.Length)) == Yes
    {
      var p: nat := r;
      ghost var todo := Slots(table.Length);
      while table[p].sending
        invariant p < table.Length
        invariant DeadlockWalk(table[..], p, s, todo) == DeadlockWalk(table[..], r, s, Slots(table.Length))
        decreases todo
      {
        if table[p].sendTo == Of(s) {
          return true;
        }
        todo := todo - {p};
        p := table[p].sendTo.pid;
      }
      return false;
    }

    /** kernel_msg_send: a completed call makes exactly the step `Send`; `ok` is false when
        the kernel panics, and then the machine has stopped. */
    method KernelMsgSend(s: nat, r: nat, m: nat) returns (ok: bool)
      requires Sane(table[..]) && s < table.Length
      requires Send(State(), s, r, m) != Hang
      modifies this, table
      ensures ok == Send(old(State()), s, r, m).Done?
      ensures ok ==> State() == Send(old(State()), s, r, m).k
    {
      if r >= table.Length || r == s { return false; }
      mem := mem[(s, m) := Load(mem, s, m).(source := Of(s))];
      ghost var k0 := State();
      var deadlock := CheckDeadlock(s, r);
      if deadlock { return false; }
      if table[r].Accepts(s) {
        ok := DeliverNow(s, r, m);
      } else {
        ok := JoinQueue(s, r, m);
      }
    }

    method DeliverNow(s: nat, r: nat, m: nat) returns (ok: bool)
      requires s < table.Length && r < table.Length && s != r
      modifies this, table
      ensures ok == Rendezvous(old(State()), s, r, m).Done?
      ensures ok ==> State() == Rendezvous(old(State()), s, r, m).k
    {
      if table[r].pending == 0 || m == 0 { return false; }
      mem := mem[(r, table[r].pending) := Load(mem, s, m)];
      table[r] := table[r].(pending := 0, receiving := false, recvFrom := NoTask);
      if !table[r].Runnable() { return false; }
      ok := table[r].sendTo == NoTask && table[s].Runnable() && table[s].pending == 0
            && table[s].recvFrom == NoTask && table[s].sendTo == NoTask;
    }

    method JoinQueue(s: nat, r: nat, m: nat) returns (ok: bool)
      requires Sane(table[..]) && s < table.Length && r < table.Length && s != r
      requires Enqueue(State(), s, r, m) != Hang
      modifies table
      ensures ok == Enqueue(old(State()), s, r, m).Done?
      ensures ok ==> State() == Enqueue(old(State()), s, r, m).k
    {
      table[s] := table[s].(sending := true);
      if table[s].receiving || table[s].otherBits != 0 { return false; }
      table[s] := table[s].(sendTo := Of(r), pending := m);
      ghost var p1 := table[..];
      assert p1 == old(table[..])[s := old(table[s]).(sending := true, sendTo := Of(r), pending := m)];
      if table[r].link.Some? {
        var p: nat := table[r].link.value;
        ghost var todo := Slots(table.Length) - {r};
        assert Tail(p1, r, Slots(table.Length)) == Tail(p1, p, todo);
        while table[p].link.Some?
          invariant p < table.Length && table[..] == p1
          invariant Tail(p1, p, todo) == Tail(p1, r, Slots(table.Length))
          decreases todo
        {
          todo := todo - {p};
          p := table[p].link.value;
        }
        table[p] := table[p].(link := Some(s));
      } else {
        table[r] := table[r].(link := Some(s));
      }
      table[s] := table[s].(link := None);
      ok := m != 0 && table[s].recvFrom == NoTask;
    }

    /** kernel_msg_rcv, specified like KernelMsgSend. */
    method KernelMsgRcv(r: nat, src: Peer, m: nat) returns (ok: bool)
      requires Sane(table[..]) && r < table.Length
      requires Receive(State(), r, src, m) != Hang
      modifies this, table
      ensures ok == Receive(old(State()), r, src, m).Done?
      ensures ok ==> State() == Receive(old(State()), r, src, m).k
    {
      if src == NoTask || (src.Of? && (src.pid >= table.Length || src.pid == r)) { return false; }
      mem := mem[(r, m) := Load(mem, r, m).(source := Of(r))];
      ghost var k0 := State();
      if table[r].hasInt && (src == Any || src == Interrupt) {
        if m == 0 { return false; }
        mem := mem[(r, m) := Message(Interrupt, HW_INT, 0)];
        table[r] := table[r].(hasInt := false);
        ok := table[r].Runnable() && table[r].pending == 0 && table[r].sendTo == NoTask;
        return;
      }
      if src == Any && table[r].link.Some? {
        var s := table[r].link.value;
        if !ReadyToTake(table[..], r, s) { return false; }
        ok := TakeFrom(r, s, None, m);
        return;
      }
      if src.Of? && table[src.pid].SendsTo(r) {
        if table[r].link.None? { return false; }
        var prev := SearchQueue(r, src.pid);
        if !ReadyToTake(table[..], r, src.pid) { return false; }
        ok := TakeFrom(r, src.pid, prev, m);
        return;
      }
      table[r] := table[r].(receiving := true, pending := m, recvFrom := src);
      ok := !table[r].sending && table[r].otherBits == 0 && m != 0
            && table[r].sendTo == NoTask && !table[r].hasInt;
    }

    /** The queue search of kernel_msg_rcv. */
    method SearchQueue(r: nat, s: nat) returns (prev: Option<nat>)
      requires Sane(table[..]) && r < table.Length && s < table.Length
      requires FindPrev(table[..], table[r].link, None, s, Slots(table.Length)) != Circles
      ensures FindPrev(table[..], table[r].link, None, s, Slots(table.Length)) == Stopped(prev)
    {
      prev := None;
      var p := table[r].link;
      ghost var todo := Slots(table.Length);
      while p.Some? && p.value != s
        invariant p.Some? ==> p.value < table.Length
        invariant prev.Some? ==> prev.value < table.Length
        invariant FindPrev(table[..], p, prev, s, todo)
                  == FindPrev(table[..], table[r].link, None, s, Slots(table.Length))
        decreases todo
      {
        prev := p;
        todo := todo - {p.value};
        p := table[p.value].link;
      }
    }

    method TakeFrom(r: nat, s: nat, prev: Option<nat>, m: nat) returns (ok: bool)
      requires r < table.Length && s < table.Length && r != s
      requires prev.Some? ==> prev.value < table.Length
      modifies this, table
      ensures ok == Take(old(State()), r, s, prev, m).Done?
      ensures ok ==> State() == Take(old(State()), r, s, prev, m).k
    {
      if table[r].link == Some(s) {
        if prev.Some? { return false; }
        table[r] := table[r].(link := table[s].link);
      } else {
        if prev.None? { return false; }
        table[prev.value] := table[prev.value].(link := table[s].link);
      }
      table[s] := table[s].(link := None);
      if m == 0 || table[s].pending == 0 { return false; }
      mem := mem[(r, m) := Load(mem, s, table[s].pending)];
      table[s] := table[s].(pending := 0, sendTo := NoTask, sending := false);
      ok := table[s].Runnable();
    }

    /** hw_int_notification. */
    method HwIntNotification(t: nat) returns (ok: bool)
      requires t < table.Length
      modifies this, table
      ensures ok == Notify(old(State()), t).Done?
      ensures ok ==> State() == Notify(old(State()), t).k
    {
      if table[t].AcceptsInterrupt() {
        mem := mem[(t, table[t].pending) := Load(mem, t, table[t].pending).(source := Interrupt, kind := HW_INT)];
        table[t] := table[t].(pending := 0, hasInt := false, receiving := false, recvFrom := NoTask);
        ok := table[t].Runnable() && table[t].sendTo == NoTask;
      } else {
        table[t] := table[t].(hasInt := true);
        ok := true;
      }
    }
  }
}
