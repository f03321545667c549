/** Every run of file system calls keeps the cache coherent with the disk, the reference counts
    accounted for and the sector map equal to the extents of the live files, up to the two kinds
    of call that make the directory unsafe; and it keeps the directory a map of names, up to the
    calls that damage it. Both kinds are named exactly. */
module FsRuns {
  import opened FsModel
  import opened FsSteps
  import opened FsFrames
  import opened FsCalls
  import opened FsNames

  // ---- one call ----

  /** The call keeps a reference that no descriptor accounts for. */
  predicate Leaks(fs: Fs, step: Step)
    requires Readable(fs)
  {
    step.UnlinkStep? && LeakingUnlink(fs, step.path)
  }

  /** The references that the call leaves behind. */
  function Leaked(fs: Fs, step: Step): multiset<nat>
    requires Readable(fs)
  {
    if Leaks(fs, step) then multiset{LeakedSlot(fs, step.path)} else multiset{}
  }

  /** The call takes the root's size past its sectors, or makes an entry name a dead inode or one that
      another entry names. */
  predicate Wild(fs: Fs, step: Step)
    requires Readable(fs)
  {
    match step
    case OpenStep(_, path, creat, _, _) => WildOpen(fs, path, creat)
    case TransferStep(p, fd, pos) => SpoilingTransfer(fs, RowAt(p, fs.nfiles) + fd, pos)
    case _ => false
  }

  /** The call damages the directory. */
  predicate Spoils(fs: Fs, step: Step)
    requires Readable(fs)
  {
    match step
    case OpenStep(_, path, creat, rdwr, trunc) => SpoilingOpen(fs, path, creat, rdwr, trunc)
    case UnlinkStep(path) => HidingUnlink(fs, path)
    case TransferStep(p, fd, pos) => SpoilingTransfer(fs, RowAt(p, fs.nfiles) + fd, pos)
    case _ => false
  }

  /** Every completed call keeps cache, counts and maps; it holds one more reference exactly when it is
      a refused unlink of anything but "/", and leaves the directory safe if and only if it is not
      wild. */
  lemma StepCore(fs: Fs, step: Step)
    requires SafeOk(fs) && Enabled(fs, step) && Exec(fs, step).Ok?
    ensures var fs' := Exec(fs, step).value.0;
            CoreOk(fs') && fs'.held == fs.held + Leaked(fs, step) && (SafeDir(fs') <==> !Wild(fs, step))
  {
    match step
    case OpenStep(p, path, creat, rdwr, trunc) => OpenCore(fs, p, path, creat, rdwr, trunc);
    case UnlinkStep(path) => UnlinkCore(fs, path);
    case TransferStep(p, fd, pos) => TransferCore(fs, RowAt(p, fs.nfiles) + fd, pos);
    case _ => QuietStep(fs, step);
  }

  /** The calls that touch neither files nor names. */
  lemma QuietStep(fs: Fs, step: Step)
    requires SafeOk(fs) && Enabled(fs, step) && Exec(fs, step).Ok?
    requires step.CloseStep? || step.StatStep? || step.ForkStep? || step.ExitStep?
    ensures var fs' := Exec(fs, step).value.0;
            CoreOk(fs') && fs'.held == fs.held && SafeDir(fs') && (DirectoryOk(fs') <==> DirectoryOk(fs))
  {
    match step {
      case CloseStep(p, fd) => CloseOk(fs, p, fd);
      case StatStep(path) => StatOk(fs, path);
      case ForkStep(parent, child) => ForkOk(fs, parent, child);
      case ExitStep(p) => ExitOk(fs, p);
    }
    SameDirectoryOk(fs, Exec(fs, step).value.0);
  }

  /** A completed call keeps the directory in order if and only if it does not damage it. */
  lemma StepNames(fs: Fs, step: Step)
    requires FsOk(fs) && Enabled(fs, step) && Exec(fs, step).Ok?
    ensures DirectoryOk(Exec(fs, step).value.0) <==> !Spoils(fs, step)
  {
    match step
    case OpenStep(p, path, creat, rdwr, trunc) => OpenDirectory(fs, p, path, creat, rdwr, trunc);
    case UnlinkStep(path) => UnlinkExact(fs, path);
    case TransferStep(p, fd, pos) => TransferDirectory(fs, RowAt(p, fs.nfiles) + fd, pos);
    case _ =>
      OrderIsSafe(fs);
      QuietStep(fs, step);
  }

  // ---- runs ----

  ghost predicate StepTo(fs: Fs, step: Step, fs': Fs) {
    && Readable(fs) && Enabled(fs, step) && !Wild(fs, step)
    && Exec(fs, step).Ok? && Exec(fs, step).value.0 == fs'
  }

  ghost predicate RunStep(states: seq<Fs>, steps: seq<Step>, i: nat) {
    i < |steps| && i + 1 < |states| && StepTo(states[i], steps[i], states[i + 1])
  }

  ghost predicate IsRun(states: seq<Fs>, steps: seq<Step>) {
    && |states| == |steps| + 1 && SafeOk(states[0])
    && forall i :: 0 <= i < |steps| ==> RunStep(states, steps, i)
  }

  /** In every run of calls that are not wild, refused and hiding unlinks and truncations of the root
      included, each state has a coherent inode cache, counts that account for every reference, a
      sector map that is exactly the disjoint extents in use, and a directory that leads to no
      dead file. */
  lemma {:induction false} RunSafe(states: seq<Fs>, steps: seq<Step>, i: nat)
    requires IsRun(states, steps) && i < |states|
    ensures SafeOk(states[i])
  {
    if i > 0 {
      RunSafe(states, steps, i - 1);
      assert RunStep(states, steps, i - 1);
      StepCore(states[i - 1], steps[i - 1]);
    }
  }

  /** The references that call `i` leaves behind. */
  ghost function LeakedAt(states: seq<Fs>, steps: seq<Step>, i: nat): multiset<nat> {
    if i < |states| && i < |steps| && Readable(states[i]) then Leaked(states[i], steps[i]) else multiset{}
  }

  ghost function Total(ms: seq<multiset<nat>>, n: nat): multiset<nat>
    requires n <= |ms|
  {
    if n == 0 then multiset{} else Total(ms, n - 1) + ms[n - 1]
  }

  lemma {:induction false} Accumulates(held: seq<multiset<nat>>, more: seq<multiset<nat>>, n: nat)
    requires n <= |more| < |held| && forall j :: 0 <= j < |more| ==> held[j + 1] == held[j] + more[j]
    ensures held[n] == held[0] + Total(more, n)
  {
    if n > 0 {
      Accumulates(held, more, n - 1);
      assert held[n - 1 + 1] == held[n - 1] + more[n - 1];
    }
  }

  /** The references left behind by the first `i` calls. */
  ghost function LeakedBy(states: seq<Fs>, steps: seq<Step>, i: nat): multiset<nat> {
    Total(seq(i, j requires 0 <= j => LeakedAt(states, steps, j)), i)
  }

  lemma RunStepHeld(states: seq<Fs>, steps: seq<Step>, j: nat)
    requires IsRun(states, steps) && j < |steps|
    ensures states[j + 1].held == states[j].held + LeakedAt(states, steps, j)
  {
    RunSafe(states, steps, j);
    assert RunStep(states, steps, j);
    StepCore(states[j], steps[j]);
  }

  /** The references held are those of the start and those left behind by refused unlinks; so the
      counts are exact as long as there is none. */
  lemma RunHeld(states: seq<Fs>, steps: seq<Step>, i: nat)
    requires IsRun(states, steps) && i <= |steps|
    ensures states[i].held == states[0].held + LeakedBy(states, steps, i)
  {
    var held := seq(i + 1, j requires 0 <= j < |states| => states[j].held);
    var more := seq(i, j requires 0 <= j => LeakedAt(states, steps, j));
    forall j | 0 <= j < |more| ensures held[j + 1] == held[j] + more[j] { RunStepHeld(states, steps, j); }
    Accumulates(held, more, i);
  }

  /** Call `j` damages the directory. */
  ghost predicate Damaged(states: seq<Fs>, steps: seq<Step>, j: nat) {
    RunStep(states, steps, j) && Spoils(states[j], steps[j])
  }

  ghost predicate Orderly(states: seq<Fs>, j: nat) {
    j < |states| && DirectoryOk(states[j])
  }

  lemma RunStepNames(states: seq<Fs>, steps: seq<Step>, i: nat)
    requires IsRun(states, steps) && i < |steps|
    ensures Orderly(states, i) ==> (Orderly(states, i + 1) <==> !Damaged(states, steps, i))
  {
    assert RunStep(states, steps, i);
    if Orderly(states, i) {
      RunSafe(states, steps, i);
      StepNames(states[i], steps[i]);
    }
  }

  /** What holds at the start and is lost exactly by bad steps holds as long as there is none. */
  lemma {:induction false} HoldsUntil(good: seq<bool>, bad: seq<bool>, n: nat)
    requires n <= |bad| < |good| && good[0] && forall j :: 0 <= j < |bad| && good[j] ==> good[j + 1] != bad[j]
    ensures (forall j :: 0 <= j <= n ==> good[j]) <==> (forall j :: 0 <= j < n ==> !bad[j])
  {
    if n > 0 {
      HoldsUntil(good, bad, n - 1);
      assert good[n - 1] ==> good[n - 1 + 1] != bad[n - 1];
    }
  }

  /** The directory names exactly the live files in every state up to `i` if and only if none of the
      first `i` calls damages it. */
  lemma RunNames(states: seq<Fs>, steps: seq<Step>, i: nat)
    requires IsRun(states, steps) && i <= |steps| && Orderly(states, 0)
    ensures (forall j :: 0 <= j <= i ==> Orderly(states, j)) <==>
            (forall j :: 0 <= j < i ==> !Damaged(states, steps, j))
  {
    var good := seq(i + 1, j requires 0 <= j => Orderly(states, j));
    var bad := seq(i, j requires 0 <= j => Damaged(states, steps, j));
    forall j | 0 <= j < |bad| && good[j] ensures good[j + 1] != bad[j] { RunStepNames(states, steps, j); }
    HoldsUntil(good, bad, i);
    assert forall j :: 0 <= j <= i ==> good[j] == Orderly(states, j);
    assert forall j :: 0 <= j < i ==> bad[j] == Damaged(states, steps, j);
  }
}
