/** Every run of fork, exit and wait keeps the process tree and its history in order. */
module PmRuns {
  import opened Common
  import opened Pm

  lemma Append(log: seq<Event>, e: Event, init: nat)
    ensures forall j: nat :: PhaseOf(log + [e], j) ==
              match e
              case Forked(c, _) => if c == j then Live else PhaseOf(log, j)
              case Exited(p, st) => if p == j then Zombie(st) else PhaseOf(log, j)
              case Reply(_, c, _) => if c == Some(j) then Gone else PhaseOf(log, j)
              case Waited(_) => PhaseOf(log, j)
    ensures forall j: nat :: ParentOf(log + [e], j, init) ==
              match e
              case Forked(c, q) => if c == j then Some(q) else ParentOf(log, j, init)
              case Exited(p, _) => if ParentOf(log, j, init) == Some(p) then Some(init) else ParentOf(log, j, init)
              case _ => ParentOf(log, j, init)
    ensures forall j: nat :: Pending(log + [e], j) ==
              match e
              case Waited(p) => p == j || Pending(log, j)
              case Reply(to, _, _) => to != j && Pending(log, j)
              case _ => Pending(log, j)
    ensures Legal(log + [e], init) <==> Legal(log, init) && Justified(log, e, init)
  {
    assert (log + [e])[..|log|] == log;
  }

  lemma SameRank(a: seq<Proc>, b: seq<Proc>, natives: nat, init: nat)
    requires Ranked(a, natives, init) && |a| == |b|
    requires forall j :: natives <= j < |b| && !b[j].free ==>
          !a[j].free && (b[j].parent == a[j].parent || b[j].parent == Some(init))
    ensures Ranked(b, natives, init)
  {
    var rank: seq<nat> :| IsRank(a, natives, init, rank);
    assert IsRank(b, natives, init, rank);
  }

  // ---- fork ----

  lemma ForkRank(pm: Pm, p: nat, c: nat)
    requires Ok(pm, None) && p < |pm.procs| && pm.natives <= c < |pm.procs| && pm.procs[c].free && p != c
    ensures Ranked(pm.procs[c := pm.procs[p].(parent := Some(p))], pm.natives, pm.init)
  {
    var procs' := pm.procs[c := pm.procs[p].(parent := Some(p))];
    var rank: seq<nat> :| IsRank(pm.procs, pm.natives, pm.init, rank);
    var rank' := rank[c := rank[p] + 1];
    forall j | pm.natives <= j < |procs'| && !procs'[j].free
      ensures rank'[j] > 0
      ensures (procs'[j].parent.Some? && procs'[j].parent.value < |procs'| ==> rank'[j] > rank'[procs'[j].parent.value])
    {
      if j != c { assert ParentOk(pm.procs, pm.natives, pm.init, j, None); }
    }
    assert IsRank(procs', pm.natives, pm.init, rank');
  }

  lemma ForkOk(pm: Pm, p: nat)
    requires Ok(pm, None) && p < |pm.procs| && pm.procs[p].Active() && (p == pm.init || p >= pm.natives)
    ensures Ok(Fork(pm, p), None)
  {
    var r := FirstFree(pm.procs, 0);
    if r.Some? {
      var c := r.value;
      var pm' := Fork(pm, p);
      assert SlotOk(pm.procs, pm.natives, pm.init, c) && HistoryOk(pm, c, None);
      assert SlotOk(pm.procs, pm.natives, pm.init, p);
      Append(pm.log, Forked(c, p), pm.init);
      ForkRank(pm, p, c);
      forall j | 0 <= j < |pm.procs|
        ensures SlotOk(pm'.procs, pm.natives, pm.init, j) && ParentOk(pm'.procs, pm.natives, pm.init, j, None)
      {
        ForkSlot(pm, p, c, j);
      }
      forall j | 0 <= j < |pm.procs| ensures HistoryOk(pm', j, None) { ForkHistory(pm, p, c, j); }
      ForkTold(pm, p, c);
    }
  }

  lemma ForkSlot(pm: Pm, p: nat, c: nat, j: nat)
    requires Core(pm, None) && p < |pm.procs| && pm.procs[p].Active() && (p == pm.init || p >= pm.natives)
    requires pm.natives <= c < |pm.procs| && pm.procs[c].free && j < |pm.procs|
    ensures var procs' := pm.procs[c := pm.procs[p].(parent := Some(p))];
      SlotOk(procs', pm.natives, pm.init, j) && ParentOk(procs', pm.natives, pm.init, j, None)
  {
    assert SlotOk(pm.procs, pm.natives, pm.init, j) && ParentOk(pm.procs, pm.natives, pm.init, j, None);
    assert SlotOk(pm.procs, pm.natives, pm.init, c) && SlotOk(pm.procs, pm.natives, pm.init, p);
  }

  lemma ForkHistory(pm: Pm, p: nat, c: nat, j: nat)
    requires Core(pm, None) && p < |pm.procs| && pm.procs[p].Active()
    requires pm.natives <= c < |pm.procs| && pm.procs[c].free && j < |pm.procs|
    ensures var procs' := pm.procs[c := pm.procs[p].(parent := Some(p))];
      HistoryOk(pm.(procs := procs', log := pm.log + [Forked(c, p)]), j, None)
  {
    Append(pm.log, Forked(c, p), pm.init);
    assert SlotOk(pm.procs, pm.natives, pm.init, c) && HistoryOk(pm, j, None);
  }

  lemma ForkTold(pm: Pm, p: nat, c: nat)
    requires Ok(pm, None) && p < |pm.procs| && pm.procs[p].Active() && c < |pm.procs| && pm.procs[c].free
    ensures AllTold(pm.procs[c := pm.procs[p].(parent := Some(p))])
  {
    var procs' := pm.procs[c := pm.procs[p].(parent := Some(p))];
    assert SlotOk(pm.procs, pm.natives, pm.init, c);
    forall q, j | 0 <= q < |pm.procs| && 0 <= j < |pm.procs| ensures NoneMissed(procs', q, j) {
      assert NoneMissed(pm.procs, q, j);
    }
  }

  // ---- the parts exit and wait are made of ----

  function StartWait(pm: Pm, p: nat): Pm
    requires p < |pm.procs|
  {
    pm.(procs := pm.procs[p := pm.procs[p].(waiting := true)], log := pm.log + [Waited(p)])
  }

  function Hang(pm: Pm, p: nat, status: int): Pm
    requires p < |pm.procs|
  {
    pm.(procs := pm.procs[p := pm.procs[p].(status := status, hanging := true)], log := pm.log + [Exited(p, status)])
  }

  function Reap(pm: Pm, q: nat, c: nat): Pm
    requires q < |pm.procs| && c < |pm.procs| && q != c && pm.procs[c].parent.Some?
  {
    Cleanup(pm.(procs := pm.procs[q := pm.procs[q].(waiting := false)]), c)
  }

  lemma StartWaitCore(pm: Pm, p: nat)
    requires Core(pm, None) && p < |pm.procs| && pm.procs[p].Active() && (p == pm.init || p >= pm.natives)
    ensures Core(StartWait(pm, p), None)
  {
    var pm' := StartWait(pm, p);
    Append(pm.log, Waited(p), pm.init);
    SameRank(pm.procs, pm'.procs, pm.natives, pm.init);
    assert HistoryOk(pm, p, None);
    forall j | 0 <= j < |pm.procs|
      ensures SlotOk(pm'.procs, pm.natives, pm.init, j) && ParentOk(pm'.procs, pm.natives, pm.init, j, None)
      ensures HistoryOk(pm', j, None)
    {
      assert SlotOk(pm.procs, pm.natives, pm.init, j) && ParentOk(pm.procs, pm.natives, pm.init, j, None);
      assert HistoryOk(pm, j, None);
    }
  }

  lemma HangCore(pm: Pm, p: nat, status: int)
    requires Core(pm, None) && pm.natives <= p < |pm.procs| && pm.procs[p].Active()
    ensures Core(Hang(pm, p, status), Some(p))
  {
    var pm' := Hang(pm, p, status);
    Append(pm.log, Exited(p, status), pm.init);
    SameRank(pm.procs, pm'.procs, pm.natives, pm.init);
    assert HistoryOk(pm, p, None) && ParentOk(pm.procs, pm.natives, pm.init, p, None);
    forall j | 0 <= j < |pm.procs|
      ensures SlotOk(pm'.procs, pm.natives, pm.init, j) && ParentOk(pm'.procs, pm.natives, pm.init, j, Some(p))
      ensures HistoryOk(pm', j, Some(p))
    {
      assert SlotOk(pm.procs, pm.natives, pm.init, j) && ParentOk(pm.procs, pm.natives, pm.init, j, None);
      assert HistoryOk(pm, j, None);
    }
  }

  lemma ReapCore(pm: Pm, q: nat, c: nat, gone: Option<nat>)
    requires Core(pm, gone) && q < |pm.procs| && c < |pm.procs| && pm.procs[q].waiting
    requires pm.procs[c].hanging && pm.procs[c].parent == Some(q) && gone != Some(q)
    ensures q != c && Core(Reap(pm, q, c), gone)
  {
    assert SlotOk(pm.procs, pm.natives, pm.init, c) && SlotOk(pm.procs, pm.natives, pm.init, q);
    assert HistoryOk(pm, c, gone) && HistoryOk(pm, q, gone);
    var pm' := Reap(pm, q, c);
    Append(pm.log, Reply(q, Some(c), pm.procs[c].status), pm.init);
    SameRank(pm.procs, pm'.procs, pm.natives, pm.init);
    forall j | 0 <= j < |pm.procs|
      ensures SlotOk(pm'.procs, pm.natives, pm.init, j) && ParentOk(pm'.procs, pm.natives, pm.init, j, gone)
      ensures HistoryOk(pm', j, gone)
    {
      assert SlotOk(pm.procs, pm.natives, pm.init, j) && ParentOk(pm.procs, pm.natives, pm.init, j, gone);
      assert HistoryOk(pm, j, gone);
    }
  }

  lemma ReapTold(pm: Pm, q: nat, c: nat)
    requires q < |pm.procs| && c < |pm.procs| && q != c && pm.procs[c].parent.Some?
    requires forall w, j {:trigger NoneMissed(pm.procs, w, j)} ::
               0 <= w < |pm.procs| && 0 <= j < |pm.procs| && w != q ==> NoneMissed(pm.procs, w, j)
    ensures AllTold(Reap(pm, q, c).procs)
  {
    var pm' := Reap(pm, q, c);
    forall w, j | 0 <= w < |pm.procs| && 0 <= j < |pm.procs| ensures NoneMissed(pm'.procs, w, j) {
      assert w != q ==> NoneMissed(pm.procs, w, j);
    }
  }

  // ---- wait ----

  lemma WaitOk(pm: Pm, p: nat)
    requires Ok(pm, None) && p < |pm.procs| && pm.procs[p].Active() && (p == pm.init || p >= pm.natives)
    ensures Ok(Wait(pm, p), None)
  {
    StartWaitCore(pm, p);
    var w := StartWait(pm, p);
    var h := HangingChild(pm.procs, p, 0);
    forall u, j | 0 <= u < |pm.procs| && 0 <= j < |pm.procs| && u != p ensures NoneMissed(w.procs, u, j) {
      assert NoneMissed(pm.procs, u, j);
    }
    if h.Some? {
      ReapCore(w, p, h.value, None);
      ReapTold(w, p, h.value);
      assert w.procs[p := w.procs[p].(waiting := false)] == pm.procs;
      assert Wait(pm, p) == Reap(w, p, h.value);
    } else if CountsChild(pm.procs, p) {
      assert Wait(pm, p) == w;
      forall j | 0 <= j < |pm.procs| ensures NoneMissed(w.procs, p, j) {}
    } else {
      RefusedCore(pm, p);
    }
  }

  /** A process that no slot names as parent has no children in the history either. */
  lemma NoChildren(pm: Pm, p: nat)
    requires Core(pm, None) && !CountsChild(pm.procs, p)
    ensures Childless(pm.log, p, pm.init)
  {
    forall c: nat | PhaseOf(pm.log, c) != Gone ensures ParentOf(pm.log, c, pm.init) != Some(p) {
      assert HistoryOk(pm, c, None);
    }
  }

  /** do_wait without any child: the answer comes at once. */
  lemma RefusedCore(pm: Pm, p: nat)
    requires Ok(pm, None) && p < |pm.procs| && pm.procs[p].Active() && !CountsChild(pm.procs, p)
    ensures Core(pm.(log := pm.log + [Waited(p)] + [Reply(p, None, 0)]), None)
  {
    var pm' := pm.(log := pm.log + [Waited(p)] + [Reply(p, None, 0)]);
    Append(pm.log, Waited(p), pm.init);
    Append(pm.log + [Waited(p)], Reply(p, None, 0), pm.init);
    NoChildren(pm, p);
    assert HistoryOk(pm, p, None);
    forall j | 0 <= j < |pm.procs| ensures HistoryOk(pm', j, None) {
      assert HistoryOk(pm, j, None);
    }
    forall j | 0 <= j < |pm.procs|
      ensures SlotOk(pm'.procs, pm.natives, pm.init, j) && ParentOk(pm'.procs, pm.natives, pm.init, j, None)
    {
      assert SlotOk(pm.procs, pm.natives, pm.init, j) && ParentOk(pm.procs, pm.natives, pm.init, j, None);
    }
  }

  // ---- exit ----

  lemma ExitSelfOk(pm: Pm, p: nat, status: int)
    requires Ok(pm, None) && pm.natives <= p < |pm.procs| && pm.procs[p].Active()
    ensures pm.procs[p].parent.Some? && pm.procs[p].parent.value < |pm.procs|
    ensures Ok(ExitSelf(pm, p, status), Some(p))
  {
    assert ParentOk(pm.procs, pm.natives, pm.init, p, None);
    var q := pm.procs[p].parent.value;
    HangCore(pm, p, status);
    var h := Hang(pm, p, status);
    forall w, j | 0 <= w < |pm.procs| && 0 <= j < |pm.procs| && w != q ensures NoneMissed(h.procs, w, j) {
      assert NoneMissed(pm.procs, w, j);
    }
    var pm' := ExitSelf(pm, p, status);
    if pm.procs[q].waiting {
      ReapCore(h, q, p, Some(p));
      ReapTold(h, q, p);
      assert pm'.procs == Reap(h, q, p).procs;
    } else {
      assert pm'.procs == h.procs;
      forall j | 0 <= j < |pm.procs| ensures NoneMissed(h.procs, q, j) {}
    }
  }

  function Adopt(pm: Pm, i: nat): Pm
    requires i < |pm.procs|
  {
    pm.(procs := pm.procs[i := pm.procs[i].(parent := Some(pm.init))])
  }

  lemma AdoptCore(pm: Pm, p: nat, i: nat)
    requires Core(pm, Some(p)) && p >= pm.natives && i < |pm.procs| && pm.procs[i].parent == Some(p)
    ensures Core(Adopt(pm, i), Some(p))
  {
    var pm' := Adopt(pm, i);
    SameRank(pm.procs, pm'.procs, pm.natives, pm.init);
    assert SlotOk(pm.procs, pm.natives, pm.init, pm.init);
    forall j | 0 <= j < |pm.procs|
      ensures SlotOk(pm'.procs, pm.natives, pm.init, j) && ParentOk(pm'.procs, pm.natives, pm.init, j, Some(p))
      ensures HistoryOk(pm', j, Some(p))
    {
      assert SlotOk(pm.procs, pm.natives, pm.init, j) && ParentOk(pm.procs, pm.natives, pm.init, j, Some(p));
      assert HistoryOk(pm, j, Some(p));
    }
  }

  lemma ReparentOneOk(pm: Pm, p: nat, i: nat)
    requires Ok(pm, Some(p)) && p >= pm.natives && i < |pm.procs|
    ensures Ok(ReparentOne(pm, p, i), Some(p))
    ensures ReparentOne(pm, p, i).procs[i].parent != Some(p)
    ensures forall j :: 0 <= j < |pm.procs| && j != i ==> ReparentOne(pm, p, i).procs[j].parent == pm.procs[j].parent
  {
    if pm.procs[i].parent == Some(p) {
      AdoptCore(pm, p, i);
      var a := Adopt(pm, i);
      assert SlotOk(pm.procs, pm.natives, pm.init, i) && SlotOk(pm.procs, pm.natives, pm.init, pm.init);
      forall w, j | 0 <= w < |pm.procs| && 0 <= j < |pm.procs| && (w != pm.init || j != i)
        ensures NoneMissed(a.procs, w, j)
      {
        assert NoneMissed(pm.procs, w, j);
      }
      if a.procs[pm.init].waiting && a.procs[i].hanging {
        ReapCore(a, pm.init, i, Some(p));
        ReapTold(a, pm.init, i);
        assert ReparentOne(pm, p, i) == Reap(a, pm.init, i);
      } else {
        assert NoneMissed(a.procs, pm.init, i);
      }
    }
  }

  lemma {:induction false} ReparentOk(pm: Pm, p: nat, i: nat)
    requires Ok(pm, Some(p)) && p >= pm.natives && i <= |pm.procs|
    requires forall j :: 0 <= j < i ==> pm.procs[j].parent != Some(p)
    ensures Ok(Reparent(pm, p, i), None)
    decreases |pm.procs| - i
  {
    if i < |pm.procs| {
      ReparentOneOk(pm, p, i);
      ReparentOk(ReparentOne(pm, p, i), p, i + 1);
    } else {
      forall j | 0 <= j < |pm.procs|
        ensures ParentOk(pm.procs, pm.natives, pm.init, j, None) && HistoryOk(pm, j, None)
      {
        assert ParentOk(pm.procs, pm.natives, pm.init, j, Some(p)) && HistoryOk(pm, j, Some(p));
      }
    }
  }

  lemma ExitOk(pm: Pm, p: nat, status: int)
    requires Ok(pm, None) && pm.natives <= p < |pm.procs| && pm.procs[p].Active()
    ensures pm.procs[p].parent.Some? && pm.procs[p].parent.value < |pm.procs|
    ensures Ok(Exit(pm, p, status), None)
  {
    ExitSelfOk(pm, p, status);
    ReparentOk(ExitSelf(pm, p, status), p, 0);
  }

  // ---- runs ----

  datatype Call = DoFork(pid: nat) | DoExit(pid: nat, code: int) | DoWait(pid: nat)

  /** A process that is neither waiting nor exited calls the process manager; INIT and the
      forked processes fork and wait, forked processes exit. */
  predicate Enabled(pm: Pm, c: Call) {
    && c.pid < |pm.procs| && pm.procs[c.pid].Active()
    && (c.pid >= pm.natives || (c.pid == pm.init && !c.DoExit?))
  }

  /** One call; None where the caller could not have made it. */
  function Step(pm: Pm, c: Call): Option<Pm> {
    if !Enabled(pm, c) then None else
    match c
    case DoFork(p) => Some(Fork(pm, p))
    case DoWait(p) => Some(Wait(pm, p))
    case DoExit(p, st) =>
      if pm.procs[p].parent.Some? && pm.procs[p].parent.value < |pm.procs| && pm.init < |pm.procs|
      then Some(Exit(pm, p, st)) else None
  }

  function Exec(pm: Pm, calls: seq<Call>): Option<Pm>
    decreases |calls|
  {
    if calls == [] then Some(pm) else
    match Step(pm, calls[0])
    case None => None
    case Some(pm') => Exec(pm', calls[1..])
  }

  lemma StepOk(pm: Pm, c: Call)
    requires Ok(pm, None) && Enabled(pm, c)
    ensures Step(pm, c).Some? && Ok(Step(pm, c).value, None)
  {
    match c
    case DoFork(p) => ForkOk(pm, p);
    case DoWait(p) => WaitOk(pm, p);
    case DoExit(p, st) => ExitOk(pm, p, st);
  }

  lemma {:induction false} ExecFrame(pm: Pm, calls: seq<Call>)
    requires Exec(pm, calls).Some?
    ensures var e := Exec(pm, calls).value; |e.procs| == |pm.procs| && e.natives == pm.natives && e.init == pm.init
    decreases |calls|
  {
    if calls != [] { ExecFrame(Step(pm, calls[0]).value, calls[1..]); }
  }

  lemma {:induction false} ExecOk(pm: Pm, calls: seq<Call>)
    requires Ok(pm, None) && Exec(pm, calls).Some?
    ensures Ok(Exec(pm, calls).value, None)
    decreases |calls|
  {
    if calls != [] {
      StepOk(pm, calls[0]);
      ExecOk(Step(pm, calls[0]).value, calls[1..]);
    }
  }

  /** Every run from boot: the parent forest, the waits and the history stay in order. */
  lemma RunOk(pm: Pm, calls: seq<Call>)
    requires Initial(pm) && Exec(pm, calls).Some?
    ensures Ok(Exec(pm, calls).value, None)
  {
    InitialOk(pm);
    ExecOk(pm, calls);
  }

  // ---- what that means ----

  /** Following parents from `j`, at most `n` times and through forked processes in use, leads to INIT. */
  predicate Reaches(pm: Pm, j: nat, n: nat)
    decreases n
  {
    j == pm.init || (n > 0 && pm.natives <= j < |pm.procs| && !pm.procs[j].free && pm.procs[j].parent.Some?
                     && Reaches(pm, pm.procs[j].parent.value, n - 1))
  }

  lemma {:induction false} RankReaches(pm: Pm, rank: seq<nat>, j: nat)
    requires Ok(pm, None) && IsRank(pm.procs, pm.natives, pm.init, rank)
    requires j < |pm.procs| && (j == pm.init || (j >= pm.natives && !pm.procs[j].free))
    ensures Reaches(pm, j, rank[j])
    decreases rank[j]
  {
    if j != pm.init {
      assert ParentOk(pm.procs, pm.natives, pm.init, j, None);
      var q := pm.procs[j].parent.value;
      RankReaches(pm, rank, q);
      ReachesMore(pm, q, rank[q], rank[j] - 1);
    }
  }

  lemma {:induction false} ReachesMore(pm: Pm, j: nat, n: nat, m: nat)
    requires Reaches(pm, j, n) && n <= m
    ensures Reaches(pm, j, m)
    decreases n
  {
    if j != pm.init { ReachesMore(pm, pm.procs[j].parent.value, n - 1, m - 1); }
  }

  /** In every run each forked process in use descends from INIT. */
  lemma DescendsFromInit(pm: Pm, calls: seq<Call>, j: nat)
    requires Initial(pm) && Exec(pm, calls).Some?
    requires var e := Exec(pm, calls).value; e.natives <= j < |e.procs| && !e.procs[j].free
    ensures exists n: nat :: Reaches(Exec(pm, calls).value, j, n)
  {
    RunOk(pm, calls);
    var e := Exec(pm, calls).value;
    var rank: seq<nat> :| IsRank(e.procs, e.natives, e.init, rank);
    RankReaches(e, rank, j);
  }

  lemma {:induction false} LegalPrefix(log: seq<Event>, init: nat, n: nat)
    requires Legal(log, init) && n < |log|
    ensures Legal(log[..n], init) && Justified(log[..n], log[n], init)
    decreases |log|
  {
    if n < |log| - 1 {
      LegalPrefix(log[..|log| - 1], init, n);
      assert log[..|log| - 1][..n] == log[..n];
    }
  }

  /** A slot that is gone after `m` events and exited after `n` has exited in between, with the status it now shows. */
  lemma {:induction false} ExitBetween(log: seq<Event>, c: nat, m: nat, n: nat)
    requires m <= n <= |log| && PhaseOf(log[..m], c) == Gone && PhaseOf(log[..n], c).Zombie?
    ensures exists k :: m <= k < n && log[k] == Exited(c, PhaseOf(log[..n], c).status)
    decreases n
  {
    assert n > m;
    assert log[..n][..n - 1] == log[..n - 1];
    if log[n - 1] != Exited(c, PhaseOf(log[..n], c).status) {
      ExitBetween(log, c, m, n - 1);
    }
  }

  lemma {:induction false} WaitBetween(log: seq<Event>, q: nat, m: nat, n: nat)
    requires m <= n <= |log| && !Pending(log[..m], q) && Pending(log[..n], q)
    ensures exists k :: m <= k < n && log[k] == Waited(q)
    decreases n
  {
    assert n > m;
    assert log[..n][..n - 1] == log[..n - 1];
    if log[n - 1] != Waited(q) {
      WaitBetween(log, q, m, n - 1);
    }
  }

  /** No exit status is sent twice and no wait is answered twice: between two statuses of one
      slot lies the second one's exit, between two answers to one process its next wait. */
  lemma SentOnce(pm: Pm, calls: seq<Call>, a: nat, b: nat)
    requires Initial(pm) && Exec(pm, calls).Some?
    requires var log := Exec(pm, calls).value.log; a < b < |log| && log[a].Reply? && log[b].Reply?
    ensures var log := Exec(pm, calls).value.log;
      && (log[a].about == log[b].about && log[a].about.Some? ==>
            exists k :: a < k < b && log[k] == Exited(log[b].about.value, log[b].status))
      && (log[a].to == log[b].to ==> exists k :: a < k < b && log[k] == Waited(log[b].to))
  {
    RunOk(pm, calls);
    var e := Exec(pm, calls).value;
    LegalPrefix(e.log, e.init, b);
    assert e.log[..a + 1] == e.log[..a] + [e.log[a]];
    Append(e.log[..a], e.log[a], e.init);
    if e.log[a].about == e.log[b].about && e.log[a].about.Some? {
      ExitBetween(e.log, e.log[a].about.value, a + 1, b);
    }
    if e.log[a].to == e.log[b].to {
      WaitBetween(e.log, e.log[a].to, a + 1, b);
    }
  }

  /** A status is sent to the parent of that moment, in answer to a wait of it, after an exit with that status. */
  lemma SentToParent(pm: Pm, calls: seq<Call>, b: nat)
    requires Initial(pm) && Exec(pm, calls).Some?
    requires var log := Exec(pm, calls).value.log; b < |log| && log[b].Reply? && log[b].about.Some?
    ensures var e := Exec(pm, calls).value; var c := e.log[b].about.value;
      && ParentOf(e.log[..b], c, e.init) == Some(e.log[b].to)
      && (exists k :: 0 <= k < b && e.log[k] == Exited(c, e.log[b].status))
      && (exists k :: 0 <= k < b && e.log[k] == Waited(e.log[b].to))
  {
    RunOk(pm, calls);
    var e := Exec(pm, calls).value;
    LegalPrefix(e.log, e.init, b);
    assert e.log[..0] == [];
    ExitBetween(e.log, e.log[b].about.value, 0, b);
    WaitBetween(e.log, e.log[b].to, 0, b);
  }

  /** The error reply is sent only to a process that has no child, live or a zombie, at that moment. */
  lemma RefusedChildless(pm: Pm, calls: seq<Call>, b: nat)
    requires Initial(pm) && Exec(pm, calls).Some?
    requires var log := Exec(pm, calls).value.log; b < |log| && log[b].Reply? && log[b].about.None?
    ensures var e := Exec(pm, calls).value;
            Childless(e.log[..b], e.log[b].to, e.init) && exists k :: 0 <= k < b && e.log[k] == Waited(e.log[b].to)
  {
    RunOk(pm, calls);
    var e := Exec(pm, calls).value;
    LegalPrefix(e.log, e.init, b);
    assert e.log[..0] == [];
    WaitBetween(e.log, e.log[b].to, 0, b);
  }

  // ---- children that are no more ----

  predicate HasChild(pm: Pm, p: nat) {
    exists j :: 0 <= j < |pm.procs| && !pm.procs[j].free && pm.procs[j].parent == Some(p)
  }

  predicate HasStaleSlot(pm: Pm, p: nat) {
    exists j :: 0 <= j < |pm.procs| && pm.procs[j].free && pm.procs[j].parent == Some(p)
  }

  /** `p` waits though no process in use is its child. */
  predicate Hopeless(pm: Pm, p: nat)
  {
    p < |pm.procs| && pm.procs[p].waiting && !HasChild(pm, p)
  }

  /** A wait without children is answered with an error, as promised, exactly when no free slot
      still names the caller as its parent; otherwise the caller waits for nobody. */
  lemma HopelessExactly(pm: Pm, p: nat)
    requires Ok(pm, None) && Enabled(pm, DoWait(p))
    ensures Hopeless(Wait(pm, p), p) <==> !HasChild(pm, p) && HasStaleSlot(pm, p)
    ensures !HasChild(pm, p) && !HasStaleSlot(pm, p) ==> Wait(pm, p).log == pm.log + [Waited(p)] + [Reply(p, None, 0)]
  {
    var pm' := Wait(pm, p);
    var h := HangingChild(pm.procs, p, 0);
    if h.Some? {
      assert SlotOk(pm.procs, pm.natives, pm.init, h.value);
      assert !pm'.procs[p].waiting;
    } else {
      assert forall j :: 0 <= j < |pm.procs| ==>
            pm'.procs[j].free == pm.procs[j].free && pm'.procs[j].parent == pm.procs[j].parent;
      assert CountsChild(pm.procs, p) <==> HasChild(pm, p) || HasStaleSlot(pm, p) by {
        assert forall j :: 0 <= j < |pm.procs| && pm.procs[j].parent == Some(p) ==>
              HasChild(pm, p) || HasStaleSlot(pm, p);
      }
    }
  }

  lemma ReparentOneHopeless(pm: Pm, e: nat, i: nat, p: nat)
    requires Hopeless(pm, p) && p != pm.init && p != e && i < |pm.procs| && pm.init < |pm.procs| && !pm.procs[p].hanging
    ensures Hopeless(ReparentOne(pm, e, i), p) && !ReparentOne(pm, e, i).procs[p].hanging
  {
    var pm' := ReparentOne(pm, e, i);
    forall j | 0 <= j < |pm.procs| ensures pm'.procs[j].free || pm'.procs[j].parent != Some(p) {
      assert pm.procs[j].free || pm.procs[j].parent != Some(p);
    }
  }

  lemma {:induction false} ReparentHopeless(pm: Pm, e: nat, i: nat, p: nat)
    requires Hopeless(pm, p) && p != pm.init && p != e && i <= |pm.procs| && pm.init < |pm.procs|
    requires !pm.procs[p].hanging
    ensures Hopeless(Reparent(pm, e, i), p)
    decreases |pm.procs| - i
  {
    if i < |pm.procs| {
      ReparentOneHopeless(pm, e, i, p);
      ReparentHopeless(ReparentOne(pm, e, i), e, i + 1, p);
    }
  }

  lemma ExitHopeless(pm: Pm, e: nat, status: int, p: nat)
    requires Ok(pm, None) && Hopeless(pm, p) && p != pm.init && pm.natives <= e < |pm.procs| && pm.procs[e].Active()
    requires pm.procs[e].parent.Some? && pm.procs[e].parent.value < |pm.procs|
    ensures Hopeless(Exit(pm, e, status), p)
  {
    assert SlotOk(pm.procs, pm.natives, pm.init, p);
    assert forall j :: 0 <= j < |pm.procs| ==> pm.procs[j].free || pm.procs[j].parent != Some(p);
    var x := ExitSelf(pm, e, status);
    assert x.procs[p].waiting && !x.procs[p].hanging;
    assert forall j :: 0 <= j < |pm.procs| ==> x.procs[j].free || x.procs[j].parent != Some(p);
    ReparentHopeless(x, e, 0, p);
  }

  lemma StepHopeless(pm: Pm, c: Call, p: nat)
    requires Ok(pm, None) && Hopeless(pm, p) && p != pm.init && Enabled(pm, c)
    ensures Step(pm, c).Some? && Hopeless(Step(pm, c).value, p)
  {
    StepOk(pm, c);
    assert SlotOk(pm.procs, pm.natives, pm.init, p);
    assert forall j :: 0 <= j < |pm.procs| ==> pm.procs[j].free || pm.procs[j].parent != Some(p);
    match c
    case DoFork(_) =>
    case DoWait(_) =>
    case DoExit(e, st) => ExitHopeless(pm, e, st, p);
  }

  /** Such a forked process is never woken again, whatever the others do. */
  lemma {:induction false} HopelessForever(pm: Pm, calls: seq<Call>, p: nat)
    requires Ok(pm, None) && Hopeless(pm, p) && p != pm.init && Exec(pm, calls).Some?
    ensures Hopeless(Exec(pm, calls).value, p)
    decreases |calls|
  {
    if calls != [] {
      StepHopeless(pm, calls[0], p);
      StepOk(pm, calls[0]);
      HopelessForever(Step(pm, calls[0]).value, calls[1..], p);
    }
  }

  lemma {:induction false} LastBeforeInit(pm: Pm, j: nat, n: nat)
    requires Reaches(pm, j, n) && j != pm.init
    ensures HasChild(pm, pm.init)
    decreases n
  {
    var q := pm.procs[j].parent.value;
    if q != pm.init { LastBeforeInit(pm, q, n - 1); }
  }

  /** When it is INIT that waits for nobody, no process is left that could make any call. */
  lemma InitHopelessEndsAll(pm: Pm, c: Call)
    requires Ok(pm, None) && Hopeless(pm, pm.init)
    ensures !Enabled(pm, c)
  {
    if pm.natives <= c.pid < |pm.procs| && !pm.procs[c.pid].free {
      var rank: seq<nat> :| IsRank(pm.procs, pm.natives, pm.init, rank);
      RankReaches(pm, rank, c.pid);
      assert Reaches(pm, c.pid, rank[c.pid]);
      assert !HasChild(pm, pm.init);
      LastBeforeInit(pm, c.pid, rank[c.pid]);
    }
  }

  lemma {:induction false} ReparentNone(pm: Pm, p: nat, i: nat)
    requires i <= |pm.procs| && pm.init < |pm.procs|
    requires forall j :: 0 <= j < |pm.procs| ==> pm.procs[j].parent != Some(p)
    ensures Reparent(pm, p, i) == pm
    decreases |pm.procs| - i
  {
    if i < |pm.procs| { ReparentNone(pm, p, i + 1); }
  }

  lemma ExecThree(pm: Pm, a: Call, b: Call, c: Call)
    ensures Exec(pm, [a, b, c]) ==
      match Step(pm, a) case None => None case Some(x) => match Step(x, b) case None => None case Some(y) => Step(y, c)
  {
    assert [a, b, c][1..] == [b, c] && [b, c][1..] == [c] && [c][1..] == [];
    assert forall y :: Exec(y, [c]) == Step(y, c);
    assert forall x :: Exec(x, [b, c]) == match Step(x, b) case None => None case Some(y) => Step(y, c);
  }

  /** INIT forks a child and waits for it, and the child exits: INIT runs again, childless, with one stale slot. */
  lemma OneChild(pm: Pm, status: int)
    requires Initial(pm) && pm.natives < |pm.procs|
    ensures var r := Exec(pm, [DoFork(pm.init), DoWait(pm.init), DoExit(pm.natives, status)]);
      r.Some? && Enabled(r.value, DoWait(pm.init)) && !HasChild(r.value, pm.init) && HasStaleSlot(r.value, pm.init)
  {
    var c := pm.natives;
    ExecThree(pm, DoFork(pm.init), DoWait(pm.init), DoExit(c, status));
    ForkThenWait(pm);
    var w := Wait(Fork(pm, pm.init), pm.init);
    var x := ExitSelf(w, c, status);
    assert x.procs[c].free && x.procs[c].parent == Some(pm.init);
    ReparentNone(x, c, 0);
  }

  lemma ForkThenWait(pm: Pm)
    requires Initial(pm) && pm.natives < |pm.procs|
    ensures var c, f := pm.natives, Fork(pm, pm.init);
      && Step(pm, DoFork(pm.init)) == Some(f) && |f.procs| == |pm.procs| && f.natives == pm.natives && f.init == pm.init
      && Step(f, DoWait(pm.init)) == Some(Wait(f, pm.init))
      && Wait(f, pm.init).natives == pm.natives && Wait(f, pm.init).init == pm.init
      && var child, waiter := pm.procs[pm.init].(parent := Some(pm.init)), pm.procs[pm.init].(waiting := true);
         Wait(f, pm.init).procs == pm.procs[c := child][pm.init := waiter]
  {
    assert pm.procs[pm.natives].free;
    var f := Fork(pm, pm.init);
    assert f.procs[pm.natives].parent == Some(pm.init);
  }

  /** From there INIT waits for nobody, and by InitHopelessEndsAll nothing ever happens again. */
  lemma SecondWaitHopeless(pm: Pm, status: int)
    requires Initial(pm) && pm.natives < |pm.procs|
    ensures exists e :: Exec(pm, [DoFork(pm.init), DoWait(pm.init), DoExit(pm.natives, status)]) == Some(e)
              && pm.init < |e.procs| && Hopeless(Wait(e, pm.init), pm.init)
              && forall c :: !Enabled(Wait(e, pm.init), c)
  {
    OneChild(pm, status);
    var calls := [DoFork(pm.init), DoWait(pm.init), DoExit(pm.natives, status)];
    RunOk(pm, calls);
    var e := Exec(pm, calls).value;
    ExecFrame(pm, calls);
    HopelessExactly(e, pm.init);
    WaitOk(e, pm.init);
    forall c ensures !Enabled(Wait(e, pm.init), c) { InitHopelessEndsAll(Wait(e, pm.init), c); }
  }
}
