/** task/pm on the table itself: the loops of do_fork, do_exit and do_wait, each proved to
    compute the step that PmRuns reasons about. */
module PmTable {
  import opened Common
  import opened Pm

  class ProcessManager {
    const table: array<Proc>
    const natives: nat
    const init: nat
    /** What has been asked of the manager and sent by it. */
    var log: seq<Event>

    constructor (table: array<Proc>, natives: nat, init: nat)
      ensures this.table == table && this.natives == natives && this.init == init && log == []
    {
      this.table, this.natives, this.init, log := table, natives, init, [];
    }

    ghost function State(): Pm
      reads this, table
    {
      Pm(table[..], natives, init, log)
    }

    method ProcCleanup(i: nat)
      requires i < table.Length && table[i].parent.Some?
      modifies table, this`log
      ensures State() == Cleanup(old(State()), i)
    {
      log := log + [Reply(table[i].parent.value, Some(i), table[i].status)];
      table[i] := Proc(true, false, false, table[i].parent, table[i].status);
    }

    /** The first free slot becomes a copy of the caller; None is the return value -1. */
    method DoFork(p: nat) returns (child: Option<nat>)
      requires p < table.Length
      modifies table, this`log
      ensures State() == Fork(old(State()), p)
      ensures child.None? <==> forall j :: 0 <= j < table.Length ==> !old(table[j].free)
      ensures child.Some? ==>
            child.value < table.Length && old(table[child.value].free) && table[child.value].parent == Some(p)
    {
      var c: nat := 0;
      while c < table.Length && !table[c].free
        invariant c <= table.Length
        invariant forall j :: 0 <= j < c ==> !table[j].free
        invariant FirstFree(table[..], c) == FirstFree(table[..], 0)
      {
        c := c + 1;
      }
      if c == table.Length { return None; }
      table[c] := table[p].(parent := Some(p));
      log := log + [Forked(c, p)];
      child := Some(c);
    }

    method DoExit(p: nat, status: int)
      requires p < table.Length && init < table.Length
      requires table[p].parent.Some? && table[p].parent.value < table.Length
      modifies table, this`log
      ensures State() == Exit(old(State()), p, status)
    {
      var q := table[p].parent.value;
      table[p] := table[p].(status := status);
      log := log + [Exited(p, status)];
      if table[q].waiting {
        table[q] := table[q].(waiting := false);
        ProcCleanup(p);
      } else {
        table[p] := table[p].(hanging := true);
      }
      assert State() == ExitSelf(old(State()), p, status);
      for i := 0 to table.Length
        invariant Reparent(State(), p, i) == Exit(old(State()), p, status)
      {
        ReparentSlot(p, i);
      }
    }

    /** One round of the loop over the exiting process's children. */
    method ReparentSlot(p: nat, i: nat)
      requires i < table.Length && init < table.Length
      modifies table, this`log
      ensures State() == ReparentOne(old(State()), p, i)
    {
      if table[i].parent == Some(p) {
        table[i] := table[i].(parent := Some(init));
        if table[init].waiting && table[i].hanging {
          table[init] := table[init].(waiting := false);
          ProcCleanup(i);
        }
      }
    }

    method DoWait(p: nat)
      requires p < table.Length
      modifies table, this`log
      ensures State() == Wait(old(State()), p)
    {
      log := log + [Waited(p)];
      var children := 0;
      for i := 0 to table.Length
        invariant State() == old(State()).(log := old(log) + [Waited(p)])
        invariant HangingChild(table[..], p, i) == HangingChild(table[..], p, 0)
        invariant children >= 0
        invariant children > 0 <==> exists j :: 0 <= j < i && table[j].parent == Some(p)
      {
        if table[i].parent == Some(p) {
          children := children + 1;
          if table[i].hanging {
            ProcCleanup(i);
            return;
          }
        }
      }
      if children > 0 {
        table[p] := table[p].(waiting := true);
      } else {
        log := log + [Reply(p, None, 0)];
      }
    }
  }
}
