/** The deadlock check: the "is sending to" graph never has a cycle, so the walk of
    check_deadlock ends, and it answers yes exactly when the new edge would close one. */
module IpcDeadlock {
  import opened Common
  import opened Ipc
  import opened IpcHistory

  /** A route along "is sending to" edges. */
  predicate IsPath(procs: seq<Proc>, path: seq<nat>) {
    && path != []
    && (forall i :: 0 <= i < |path| ==> path[i] < |procs|)
    && (forall i :: 0 <= i < |path| - 1 ==> procs[path[i]].SendsTo(path[i + 1]))
  }

  ghost predicate HasCycle(procs: seq<Proc>) {
    exists path: seq<nat> :: IsPath(procs, path) && |path| >= 2 && path[0] == path[|path| - 1]
  }

  function WithEdge(procs: seq<Proc>, s: nat, r: nat): seq<Proc>
    requires s < |procs|
  {
    procs[s := procs[s].(sending := true, sendTo := Of(r))]
  }

  lemma {:induction false} PathFalls(procs: seq<Proc>, rank: seq<nat>, path: seq<nat>)
    requires Sane(procs) && IsRank(procs, rank) && IsPath(procs, path) && |path| >= 2
    ensures rank[path[0]] > rank[path[|path| - 1]]
  {
    assert procs[path[0]].SendsTo(path[1]);
    if |path| > 2 {
      var rest := path[1..];
      assert forall i :: 0 <= i < |rest| - 1 ==> procs[rest[i]].SendsTo(rest[i + 1]);
      PathFalls(procs, rank, rest);
    }
  }

  /** A ranked graph has no cycle. */
  lemma RankedHasNoCycle(procs: seq<Proc>)
    requires Sane(procs) && Ranked(procs)
    ensures !HasCycle(procs)
  {
    var rank: seq<nat> :| IsRank(procs, rank);
    forall path: seq<nat> | IsPath(procs, path) && |path| >= 2 ensures path[0] != path[|path| - 1] {
      PathFalls(procs, rank, path);
    }
  }

  /** `s` lies on the chain of edges that starts at `p`. */
  ghost predicate Reaches(procs: seq<Proc>, rank: seq<nat>, p: nat, s: nat)
    requires Sane(procs) && IsRank(procs, rank) && p < |procs|
    decreases rank[p]
  {
    p == s || (procs[p].sending && Reaches(procs, rank, procs[p].sendTo.pid, s))
  }

  lemma {:induction false} WalkDecides(procs: seq<Proc>, rank: seq<nat>, p: nat, s: nat, todo: set<nat>)
    requires Sane(procs) && IsRank(procs, rank) && p < |procs|
    requires forall x: nat :: x < |procs| && x !in todo ==> rank[x] > rank[p]
    ensures DeadlockWalk(procs, p, s, todo) ==
            if procs[p].sending && Reaches(procs, rank, procs[p].sendTo.pid, s) then Yes else No
    decreases rank[p]
  {
    if procs[p].sending && procs[p].sendTo.pid != s {
      WalkDecides(procs, rank, procs[p].sendTo.pid, s, todo - {p});
    }
  }

  lemma {:induction false} ReachGivesPath(procs: seq<Proc>, rank: seq<nat>, p: nat, s: nat) returns (path: seq<nat>)
    requires Sane(procs) && IsRank(procs, rank) && p < |procs| && Reaches(procs, rank, p, s)
    ensures IsPath(procs, path) && path[0] == p && path[|path| - 1] == s
    decreases rank[p]
  {
    if p == s {
      path := [p];
    } else {
      var rest := ReachGivesPath(procs, rank, procs[p].sendTo.pid, s);
      path := [p] + rest;
    }
  }

  lemma NewRank(procs: seq<Proc>, rank: seq<nat>, s: nat, r: nat)
    requires Sane(procs) && IsRank(procs, rank) && s < |procs| && r < |procs|
    requires !procs[s].sending && !Reaches(procs, rank, r, s)
    ensures Ranked(WithEdge(procs, s, r))
  {
    var rank' := seq(|procs|, p requires 0 <= p < |procs| =>
      if Reaches(procs, rank, p, s) then rank[p] + rank[r] + 1 else rank[p]);
    assert IsRank(WithEdge(procs, s, r), rank');
  }

  lemma PathClosesCycle(procs: seq<Proc>, path: seq<nat>, s: nat, r: nat)
    requires s < |procs| && !procs[s].sending
    requires IsPath(procs, path) && path[0] == r && path[|path| - 1] == s
    ensures HasCycle(WithEdge(procs, s, r))
  {
    var procs' := WithEdge(procs, s, r);
    var cycle := [s] + path;
    forall i | 0 <= i < |cycle| - 1 ensures procs'[cycle[i]].SendsTo(cycle[i + 1]) {
      if i > 0 { assert procs[path[i - 1]].SendsTo(path[i]); }
    }
    assert IsPath(procs', cycle);
  }

  /** In an acyclic table the deadlock walk ends, and it says yes exactly when the edge
      from `s` to `r` would close a cycle; otherwise the table stays acyclic. */
  lemma DeadlockCheckExact(procs: seq<Proc>, s: nat, r: nat)
    requires Sane(procs) && Ranked(procs) && s < |procs| && r < |procs| && s != r
    requires !procs[s].sending
    ensures var answer := DeadlockWalk(procs, r, s, Slots(|procs|));
            && answer != Loops
            && (answer == Yes <==> HasCycle(WithEdge(procs, s, r)))
            && (answer == No ==> Ranked(WithEdge(procs, s, r)))
  {
    var rank: seq<nat> :| IsRank(procs, rank);
    WalkDecides(procs, rank, r, s, Slots(|procs|));
    if Reaches(procs, rank, r, s) {
      var path := ReachGivesPath(procs, rank, r, s);
      PathClosesCycle(procs, path, s, r);
    } else {
      NewRank(procs, rank, s, r);
      RankedHasNoCycle(WithEdge(procs, s, r));
    }
  }

  /** The graph of `b` has no edge that `a` lacks. */
  predicate FewerEdges(a: seq<Proc>, b: seq<Proc>) {
    && |a| == |b|
    && forall p :: 0 <= p < |a| ==> b[p].sending ==> a[p].sending && a[p].sendTo == b[p].sendTo
  }

  lemma RankedFewerEdges(a: seq<Proc>, b: seq<Proc>)
    requires Sane(a) && Sane(b) && Ranked(a) && FewerEdges(a, b)
    ensures Ranked(b)
  {
    var rank: seq<nat> :| IsRank(a, rank);
    assert IsRank(b, rank);
  }
}
