/** kernel/process.c (schedule) and device/timer.c (clock_handler): tick-based choice of the
    process to run, with a refill when every runnable process has used its ticks. */
module Scheduler {

  datatype Proc = Proc(runnable: bool, ticks: nat, priority: nat)

  /** The process table and p_proc_ready. */
  datatype Sched = Sched(procs: seq<Proc>, current: nat)

  /** The first loop of schedule, from entry `i` on: `greatest` ticks so far, held by `chosen`. */
  function Scan(procs: seq<Proc>, i: nat, greatest: nat, chosen: nat): (nat, nat)
    requires i <= |procs|
    decreases |procs| - i
  {
    if i == |procs| then (greatest, chosen)
    else if procs[i].runnable && procs[i].ticks > greatest then Scan(procs, i + 1, procs[i].ticks, i)
    else Scan(procs, i + 1, greatest, chosen)
  }

  function Refilled(p: Proc): Proc { if p.runnable then p.(ticks := p.priority) else p }

  /** The second loop of schedule. */
  function Refill(procs: seq<Proc>): (r: seq<Proc>)
    ensures |r| == |procs| && forall i :: 0 <= i < |procs| ==> r[i] == Refilled(procs[i])
  {
    if procs == [] then [] else [Refilled(procs[0])] + Refill(procs[1..])
  }

  /** schedule ends exactly when some runnable process has ticks left or a positive priority. */
  predicate CanSchedule(procs: seq<Proc>) {
    exists i :: 0 <= i < |procs| && procs[i].runnable && (procs[i].ticks > 0 || procs[i].priority > 0)
  }

  function Schedule(s: Sched): Sched {
    var (g, c) := Scan(s.procs, 0, 0, s.current);
    if g > 0 then Sched(s.procs, c)
    else Sched(Refill(s.procs), Scan(Refill(s.procs), 0, 0, s.current).1)
  }

  /** What `Scan` finds: the first entry with the most ticks among the runnable ones. */
  predicate IsFirstGreatest(procs: seq<Proc>, g: nat, c: nat) {
    && c < |procs| && procs[c].runnable && procs[c].ticks == g && g > 0
    && (forall j :: 0 <= j < |procs| && procs[j].runnable ==> procs[j].ticks <= g)
    && (forall j :: 0 <= j < c && procs[j].runnable ==> procs[j].ticks < g)
  }

  predicate Exhausted(procs: seq<Proc>) {
    forall j :: 0 <= j < |procs| && procs[j].runnable ==> procs[j].ticks == 0
  }

  lemma {:induction false} ScanFinds(procs: seq<Proc>, i: nat, g: nat, c: nat, c0: nat)
    requires i <= |procs|
    requires if g == 0 then c == c0 && forall j :: 0 <= j < i && procs[j].runnable ==> procs[j].ticks == 0
             else c < i && procs[c].runnable && procs[c].ticks == g
                  && (forall j :: 0 <= j < i && procs[j].runnable ==> procs[j].ticks <= g)
                  && (forall j :: 0 <= j < c && procs[j].runnable ==> procs[j].ticks < g)
    ensures var (g', c') := Scan(procs, i, g, c);
            if g' == 0 then c' == c0 && Exhausted(procs) else IsFirstGreatest(procs, g', c')
    decreases |procs| - i
  {
    if i < |procs| {
      if procs[i].runnable && procs[i].ticks > g {
        ScanFinds(procs, i + 1, procs[i].ticks, i, c0);
      } else {
        ScanFinds(procs, i + 1, g, c, c0);
      }
    }
  }

  /** From `a` to `b` every runnable process got as many ticks as its priority; the others have theirs
      as before. */
  predicate TopsUp(a: seq<Proc>, b: seq<Proc>) {
    && |b| == |a|
    && forall i :: 0 <= i < |a| ==> b[i] == a[i].(ticks := if a[i].runnable then a[i].priority else a[i].ticks)
  }

  /** The first runnable process with the greatest priority. */
  predicate IsFirstByPriority(procs: seq<Proc>, c: nat) {
    && c < |procs| && procs[c].runnable && procs[c].priority > 0
    && (forall j :: 0 <= j < |procs| && procs[j].runnable ==> procs[j].priority <= procs[c].priority)
    && (forall j :: 0 <= j < c && procs[j].runnable ==> procs[j].priority < procs[c].priority)
  }

  /** What schedule has to come to: the first runnable process with the most ticks, the table as it
      was; or, when all runnable processes had run out, each with its priority in ticks and the first
      one with the greatest priority chosen. */
  predicate Chosen(s: Sched, s': Sched) {
    if Exhausted(s.procs) then TopsUp(s.procs, s'.procs) && IsFirstByPriority(s.procs, s'.current)
    else && s'.procs == s.procs && s'.current < |s.procs|
         && IsFirstGreatest(s.procs, s.procs[s'.current].ticks, s'.current)
  }

  /** schedule picks the first runnable process with the most ticks, after giving every
      runnable process its priority in ticks exactly when all of them had run out. */
  lemma ScheduleChooses(s: Sched)
    requires CanSchedule(s.procs)
    ensures var s' := Schedule(s);
            && Chosen(s, s') && s'.current < |s'.procs|
            && IsFirstGreatest(s'.procs, s'.procs[s'.current].ticks, s'.current)
  {
    ScanFinds(s.procs, 0, 0, s.current, s.current);
    if Exhausted(s.procs) {
      var g, c := RefillFinds(s.procs, s.current);
      ToppedUpChoice(s.procs, Refill(s.procs), g, c);
    }
  }

  /** The second round of schedule, over the refilled table. */
  lemma RefillFinds(procs: seq<Proc>, c0: nat) returns (g: nat, c: nat)
    requires CanSchedule(procs) && Exhausted(procs)
    ensures TopsUp(procs, Refill(procs))
    ensures Scan(Refill(procs), 0, 0, c0) == (g, c) && IsFirstGreatest(Refill(procs), g, c)
  {
    var r := Refill(procs);
    g, c := Scan(r, 0, 0, c0).0, Scan(r, 0, 0, c0).1;
    ScanFinds(r, 0, 0, c0, c0);
    var i :| 0 <= i < |procs| && procs[i].runnable && (procs[i].ticks > 0 || procs[i].priority > 0);
    assert r[i] == Refilled(procs[i]);
  }

  /** After a top-up the most ticks are the greatest priority. */
  lemma ToppedUpChoice(a: seq<Proc>, b: seq<Proc>, g: nat, c: nat)
    requires TopsUp(a, b) && IsFirstGreatest(b, g, c)
    ensures IsFirstByPriority(a, c)
  {
    forall j | 0 <= j < |a| && a[j].runnable
      ensures a[j].priority <= g && (j < c ==> a[j].priority < g)
    {
      assert b[j].runnable && b[j].ticks == a[j].priority;
    }
  }

  /** When no runnable process has ticks or priority, the loop of schedule goes round for ever:
      it finds nothing, and a refill leaves it in the same situation. */
  lemma ScheduleStuck(procs: seq<Proc>, c: nat)
    requires !CanSchedule(procs)
    ensures Scan(procs, 0, 0, c).0 == 0 && !CanSchedule(Refill(procs))
  {
    ScanFinds(procs, 0, 0, c, c);
    var r := Refill(procs);
    forall i | 0 <= i < |procs| ensures !(r[i].runnable && (r[i].ticks > 0 || r[i].priority > 0)) {
      assert !(procs[i].runnable && (procs[i].ticks > 0 || procs[i].priority > 0));
      assert r[i] == Refilled(procs[i]);
    }
  }

  // ---- the steps ----

  datatype Step = Clock | BlockCurrent | Unblock(q: nat) | BlockOther(q: nat)

  /** A process may block only while another stays runnable; only processes with a positive
      priority become runnable. */
  predicate Enabled(s: Sched, step: Step) {
    && s.current < |s.procs|
    && match step
       case Clock => true
       case BlockCurrent => exists i :: 0 <= i < |s.procs| && i != s.current && s.procs[i].runnable
       case Unblock(q) => q < |s.procs| && s.procs[q].priority > 0
       case BlockOther(q) => q < |s.procs| && q != s.current
  }

  /** clock_handler with no nested interrupt, and the state changes made by block and unblock. */
  function Exec(s: Sched, step: Step): Sched
    requires Enabled(s, step)
  {
    match step
    case Clock =>
      var p := s.procs[s.current];
      var s1 := Sched(s.procs[s.current := p.(ticks := if p.ticks > 0 then p.ticks - 1 else 0)], s.current);
      if s1.procs[s.current].ticks > 0 then s1 else Schedule(s1)
    case BlockCurrent => Schedule(Sched(s.procs[s.current := s.procs[s.current].(runnable := false)], s.current))
    case Unblock(q) => s.(procs := s.procs[q := s.procs[q].(runnable := true)])
    case BlockOther(q) => s.(procs := s.procs[q := s.procs[q].(runnable := false)])
  }

  /** The running process is runnable and has ticks left; nobody has more ticks than its
      priority; runnable processes have a positive priority. */
  predicate Ok(s: Sched) {
    && s.current < |s.procs| && s.procs[s.current].runnable && s.procs[s.current].ticks > 0
    && forall i :: 0 <= i < |s.procs| ==>
         s.procs[i].ticks <= s.procs[i].priority && (s.procs[i].runnable ==> s.procs[i].priority > 0)
  }

  /** The table made at boot: native processes are runnable with as many ticks as their priority,
      which is positive, the other slots are neither; the first process runs. */
  predicate Initial(s: Sched) {
    && s.current == 0 < |s.procs| && s.procs[0].runnable
    && forall i :: 0 <= i < |s.procs| ==>
         && s.procs[i].ticks == s.procs[i].priority
         && (s.procs[i].runnable ==> s.procs[i].priority > 0)
  }

  lemma InitialOk(s: Sched)
    requires Initial(s)
    ensures Ok(s)
  {
  }

  /** In a well-formed state the clock handler can always go on. */
  lemma ClockReady(s: Sched)
    requires Ok(s)
    ensures Enabled(s, Clock)
    ensures CanSchedule(s.procs[s.current := s.procs[s.current].(ticks := 0)])
  {
    var procs' := s.procs[s.current := s.procs[s.current].(ticks := 0)];
    assert procs'[s.current].runnable && procs'[s.current].priority > 0;
  }

  /** A clock tick takes exactly one tick from the running process and nothing from the others; the
      process stays in place while it has ticks left, and schedule chooses when it has none. */
  lemma ClockDoes(s: Sched)
    requires Ok(s)
    ensures var left := s.procs[s.current].ticks - 1;
            var s1 := s.(procs := s.procs[s.current := s.procs[s.current].(ticks := left)]);
            if left > 0 then Exec(s, Clock) == s1 else Chosen(s1, Exec(s, Clock))
  {
    ClockReady(s);
    if s.procs[s.current].ticks == 1 {
      ScheduleChooses(s.(procs := s.procs[s.current := s.procs[s.current].(ticks := 0)]));
    }
  }

  /** Blocking the running process takes it out and chooses among the others; blocking or unblocking
      another one changes that one only and leaves the running process in place. */
  lemma BlockDoes(s: Sched, step: Step)
    requires Ok(s) && Enabled(s, step) && step != Clock
    ensures match step
            case BlockCurrent =>
              Chosen(s.(procs := s.procs[s.current := s.procs[s.current].(runnable := false)]), Exec(s, step))
            case Unblock(q) => Exec(s, step) == s.(procs := s.procs[q := s.procs[q].(runnable := true)])
            case BlockOther(q) => Exec(s, step) == s.(procs := s.procs[q := s.procs[q].(runnable := false)])
            case Clock => true
  {
    if step == BlockCurrent {
      var i :| 0 <= i < |s.procs| && i != s.current && s.procs[i].runnable;
      var s1 := s.(procs := s.procs[s.current := s.procs[s.current].(runnable := false)]);
      assert s1.procs[i].runnable && s1.procs[i].priority > 0;
      ScheduleChooses(s1);
    }
  }

  // ---- sums over the table ----

  function SumTicks(procs: seq<Proc>): nat {
    if procs == [] then 0 else SumTicks(procs[..|procs| - 1]) + procs[|procs| - 1].ticks
  }

  function SumPriority(procs: seq<Proc>): nat {
    if procs == [] then 0 else SumPriority(procs[..|procs| - 1]) + procs[|procs| - 1].priority
  }

  lemma {:induction false} SumUpdate(procs: seq<Proc>, i: nat, x: Proc)
    requires i < |procs|
    ensures SumTicks(procs[i := x]) == SumTicks(procs) - procs[i].ticks + x.ticks
    ensures SumPriority(procs[i := x]) == SumPriority(procs) - procs[i].priority + x.priority
  {
    var n := |procs| - 1;
    if i < n {
      SumUpdate(procs[..n], i, x);
      assert procs[i := x][..n] == procs[..n][i := x];
    } else {
      assert procs[i := x][..n] == procs[..n];
    }
  }

  lemma {:induction false} SumMember(procs: seq<Proc>, i: nat)
    requires i < |procs|
    ensures procs[i].ticks <= SumTicks(procs) && procs[i].priority <= SumPriority(procs)
  {
    if i < |procs| - 1 { SumMember(procs[..|procs| - 1], i); }
  }

  lemma {:induction false} SumBounded(procs: seq<Proc>)
    requires forall i :: 0 <= i < |procs| ==> procs[i].ticks <= procs[i].priority
    ensures SumTicks(procs) <= SumPriority(procs)
  {
    if procs != [] { SumBounded(procs[..|procs| - 1]); }
  }

  lemma {:induction false} SumSamePriority(a: seq<Proc>, b: seq<Proc>)
    requires |a| == |b| && forall i :: 0 <= i < |a| ==> a[i].priority == b[i].priority
    ensures SumPriority(a) == SumPriority(b)
  {
    if a != [] { SumSamePriority(a[..|a| - 1], b[..|b| - 1]); }
  }

  // ---- bounded waiting ----

  /** An upper bound on the clock ticks before `p` is chosen: the ticks the others can still
      use, plus a whole round when `p` itself has none left. */
  function Wait(s: Sched, p: nat): int
    requires p < |s.procs|
  {
    SumTicks(s.procs) - s.procs[p].ticks + if s.procs[p].ticks > 0 then 0 else SumPriority(s.procs)
  }

  lemma WaitBounds(s: Sched, p: nat)
    requires Ok(s) && p < |s.procs|
    ensures 0 <= Wait(s, p) <= 2 * SumPriority(s.procs)
  {
    SumMember(s.procs, p);
    SumBounded(s.procs);
  }

  /** schedule keeps the table well formed, changes no priority and raises no waiting time. */
  lemma ScheduleOk(s: Sched, p: nat)
    requires CanSchedule(s.procs) && p < |s.procs| && s.procs[p].runnable
    requires forall i :: 0 <= i < |s.procs| ==>
               s.procs[i].ticks <= s.procs[i].priority && (s.procs[i].runnable ==> s.procs[i].priority > 0)
    ensures Ok(Schedule(s)) && |Schedule(s).procs| == |s.procs|
    ensures SumPriority(Schedule(s).procs) == SumPriority(s.procs)
    ensures Wait(Schedule(s), p) <= Wait(s, p)
  {
    ScheduleChooses(s);
    if Exhausted(s.procs) {
      var r := Refill(s.procs);
      SumSamePriority(r, s.procs);
      SumBounded(r);
      SumMember(s.procs, p);
      assert r[p] == Refilled(s.procs[p]);
    }
  }

  lemma ClockStep(s: Sched, p: nat)
    requires Ok(s) && p < |s.procs| && s.procs[p].runnable && p != s.current
    ensures Ok(Exec(s, Clock)) && |Exec(s, Clock).procs| == |s.procs|
    ensures SumPriority(Exec(s, Clock).procs) == SumPriority(s.procs)
    ensures Wait(Exec(s, Clock), p) <= Wait(s, p) - 1
  {
    var c := s.procs[s.current];
    var s1 := Sched(s.procs[s.current := c.(ticks := c.ticks - 1)], s.current);
    SumUpdate(s.procs, s.current, c.(ticks := c.ticks - 1));
    assert Wait(s1, p) == Wait(s, p) - 1;
    if c.ticks == 1 {
      assert s1.procs[p].runnable && s1.procs[p].priority > 0;
      ScheduleOk(s1, p);
    }
  }

  /** Every step keeps the invariant and never raises the wait of a runnable process that is
      not running; a clock tick lowers it. */
  lemma StepWaits(s: Sched, step: Step, p: nat)
    requires Ok(s) && Enabled(s, step) && p < |s.procs| && s.procs[p].runnable && p != s.current
    requires Exec(s, step).procs[p].runnable
    ensures Ok(Exec(s, step)) && |Exec(s, step).procs| == |s.procs|
    ensures SumPriority(Exec(s, step).procs) == SumPriority(s.procs)
    ensures Wait(Exec(s, step), p) <= Wait(s, p) - if step == Clock then 1 else 0
  {
    match step
    case Clock => ClockStep(s, p);
    case BlockCurrent =>
      var x := s.procs[s.current].(runnable := false);
      SumUpdate(s.procs, s.current, x);
      var s1 := Sched(s.procs[s.current := x], s.current);
      assert s1.procs[p].runnable && s1.procs[p].priority > 0;
      ScheduleOk(s1, p);
    case Unblock(q) => SumUpdate(s.procs, q, s.procs[q].(runnable := true));
    case BlockOther(q) => SumUpdate(s.procs, q, s.procs[q].(runnable := false));
  }

  function ClockTicks(steps: seq<Step>): nat {
    if steps == [] then 0 else ClockTicks(steps[..|steps| - 1]) + if steps[|steps| - 1] == Clock then 1 else 0
  }

  predicate StepTo(s: Sched, step: Step, s': Sched) {
    Enabled(s, step) && s' == Exec(s, step)
  }

  predicate IsRun(states: seq<Sched>, steps: seq<Step>) {
    && |states| == |steps| + 1 && Ok(states[0])
    && forall i :: 0 <= i < |steps| ==> StepTo(states[i], steps[i], states[i + 1])
  }

  /** `p` stays runnable through the run and is never the running process. */
  predicate Starves(states: seq<Sched>, p: nat) {
    forall i :: 0 <= i < |states| ==> p < |states[i].procs| && states[i].procs[p].runnable && states[i].current != p
  }

  lemma {:induction false} RunWaits(states: seq<Sched>, steps: seq<Step>, p: nat)
    requires IsRun(states, steps) && Starves(states, p)
    ensures Ok(states[|steps|]) && SumPriority(states[|steps|].procs) == SumPriority(states[0].procs)
    ensures Wait(states[|steps|], p) + ClockTicks(steps) <= Wait(states[0], p)
    decreases |steps|
  {
    if |steps| > 0 {
      var n := |steps| - 1;
      var a, b := states[..n + 1], steps[..n];
      assert IsRun(a, b) by {
        forall i | 0 <= i < |b| ensures StepTo(a[i], b[i], a[i + 1]) {
          assert StepTo(states[i], steps[i], states[i + 1]);
        }
      }
      RunWaits(a, b, p);
      assert StepTo(states[n], steps[n], states[n + 1]);
      StepWaits(states[n], steps[n], p);
    }
  }

  /** No starvation: a process that stays runnable without being chosen sees at most twice
      the sum of all priorities in clock ticks. */
  lemma NoStarvation(states: seq<Sched>, steps: seq<Step>, p: nat)
    requires IsRun(states, steps) && Starves(states, p)
    ensures ClockTicks(steps) <= 2 * SumPriority(states[0].procs)
  {
    RunWaits(states, steps, p);
    WaitBounds(states[0], p);
    WaitBounds(states[|steps|], p);
  }

  // ---- the loops ----

  class ReadyTable {
    const table: array<Proc>
    var current: nat
    var sysTicks: nat

    const MAX_TICKS := 0x7FFFABCD

    constructor (procs: seq<Proc>, c: nat)
      ensures State() == Sched(procs, c) && fresh(table) && sysTicks == 0
    {
      table := new Proc[|procs|](i requires 0 <= i < |procs| => procs[i]);
      current, sysTicks := c, 0;
      new;
      assert table[..] == procs;
    }

    ghost function State(): Sched
      reads this, table
    {
      Sched(table[..], current)
    }

    /** schedule. */
    method ScheduleNext()
      requires CanSchedule(table[..])
      modifies this`current, table
      ensures State() == Schedule(old(State())) && Chosen(old(State()), State())
    {
      ScheduleChooses(State());
      var greatest := 0;
      ghost var rounds := 2;
      while greatest == 0
        invariant if greatest > 0 then State() == Schedule(old(State()))
                  else current == old(current) && rounds > 0
                       && (rounds == 2 ==> table[..] == old(table[..]))
                       && (rounds == 1 ==> Exhausted(old(table[..])) && table[..] == Refill(old(table[..])))
        invariant rounds <= 2
        decreases rounds
      {
        ScanFinds(table[..], 0, 0, current, current);
        ScheduleChooses(old(State()));
        greatest := ScanLoop();
        if greatest == 0 {
          RefillLoop();
        }
        rounds := rounds - 1;
      }
    }

    method ScanLoop() returns (greatest: nat)
      modifies this`current
      ensures (greatest, current) == Scan(table[..], 0, 0, old(current))
    {
      greatest := 0;
      var p := 0;
      while p < table.Length
        invariant 0 <= p <= table.Length
        invariant Scan(table[..], p, greatest, current) == Scan(table[..], 0, 0, old(current))
      {
        if table[p].runnable && table[p].ticks > greatest {
          greatest := table[p].ticks;
          current := p;
        }
        p := p + 1;
      }
    }

    method RefillLoop()
      modifies table
      ensures table[..] == Refill(old(table[..]))
    {
      var p := 0;
      while p < table.Length
        invariant 0 <= p <= table.Length
        invariant forall i :: 0 <= i < table.Length ==>
              table[i] == if i < p then Refilled(old(table[i])) else old(table[i])
      {
        if table[p].runnable {
          table[p] := table[p].(ticks := table[p].priority);
        }
        p := p + 1;
      }
    }

    /** clock_handler with no nested interrupt; waking the terminal is left out. When the running
        process has no ticks left afterwards, some runnable one must have ticks or priority. */
    method ClockHandler()
      requires Enabled(State(), Clock)
      requires table[current].ticks > 1 || CanSchedule(table[..][current := table[current].(ticks := 0)])
      modifies this, table
      ensures State() == Exec(old(State()), Clock)
      ensures sysTicks == if old(sysTicks) + 1 >= MAX_TICKS then 0 else old(sysTicks) + 1
    {
      sysTicks := sysTicks + 1;
      if sysTicks >= MAX_TICKS {
        sysTicks := 0;
      }
      if table[current].ticks > 0 {
        table[current] := table[current].(ticks := table[current].ticks - 1);
      }
      if table[current].ticks > 0 {
        return;
      }
      assert table[..] == old(table[..])[current := old(table[current]).(ticks := 0)];
      ScheduleNext();
    }
  }
}
