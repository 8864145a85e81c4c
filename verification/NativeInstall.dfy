/**
 * ensureNativeBinaries of npm/lib/bootstrap.js: check for both binaries, take
 * the install lock, check again, then copy them in from a release or from a
 * source build.  Callers interleave with one another at every file-system call,
 * and processes may exit at any of them.
 */
module NativeInstall {
  import opened Wrappers
  import L = InstallLock

  type Caller = L.Caller

  /** A file's bytes may still be arriving; chmod makes it executable. */
  datatype File = File(whole: bool, executable: bool)

  /** The two destinations under installRoot/bin. */
  datatype Root = Root(main: Option<File>, hooks: Option<File>)

  datatype Source = Release | LocalBuild

  datatype Binary = Main | Hooks

  /** Progress of copyFileAtomic; Preparing also covers download, extraction and build. */
  datatype Stage = Preparing | TempOpen | TempWhole | TempReady | DestinationRemoved

  datatype Phase =
    | Fresh
    | MainSeen
    | Acquiring
    | Locked
    | LockedMainSeen
    | Copying(source: Source, binary: Binary, stage: Stage, temp: File)
    | CleaningUp(copied: bool)
    | Finishing(ok: bool)
    | Returned
    | Threw

  /**
   * `forceSource` are the callers that skip the release, `workspace` those with
   * a local Cargo workspace to fall back on, and `cleanupMayThrow` says whether
   * removing the release's temporary directory may fail.
   */
  datatype Config = Config(lock: L.Config, forceSource: set<Caller>, workspace: set<Caller>, cleanupMayThrow: bool)

  /** `installs` counts the copy loops that ran to the end. */
  datatype State = State(lock: L.State, phase: map<Caller, Phase>, root: Root, installs: nat)

  datatype Step =
    | LockStep(step: L.Step)
    | CheckMain(c: Caller)
    | CheckHooks(c: Caller)
    | RecheckMain(c: Caller)
    | RecheckHooks(c: Caller)
    | OpenTemp(c: Caller)
    | FillTemp(c: Caller)
    | Chmod(c: Caller)
    | RemoveDestination(c: Caller)
    | Rename(c: Caller)
    | CopyFails(c: Caller)
    | CleanUp(c: Caller, throws: bool)

  predicate Running(cfg: Config, s: State, c: Caller) {
    L.Running(cfg.lock, s.lock, c) && c in s.phase
  }

  predicate AtStage(cfg: Config, s: State, c: Caller, stage: Stage) {
    Running(cfg, s, c) && s.phase[c].Copying? && s.phase[c].stage == stage
  }

  predicate Enabled(cfg: Config, s: State, step: Step) {
    match step
    case LockStep(l) =>
      L.Enabled(cfg.lock, s.lock, l) &&
      (match l
       case Exit(_) => true
       case Release(c, _) => c in s.phase && s.phase[c].Finishing?
       case _ => l.c in s.phase && s.phase[l.c].Acquiring?)
    case CheckMain(c) => Running(cfg, s, c) && s.phase[c].Fresh?
    case CheckHooks(c) => Running(cfg, s, c) && s.phase[c].MainSeen?
    case RecheckMain(c) => Running(cfg, s, c) && s.phase[c].Locked?
    case RecheckHooks(c) => Running(cfg, s, c) && s.phase[c].LockedMainSeen?
    case OpenTemp(c) => AtStage(cfg, s, c, Preparing)
    case FillTemp(c) => AtStage(cfg, s, c, TempOpen)
    case Chmod(c) => AtStage(cfg, s, c, TempWhole)
    case RemoveDestination(c) => AtStage(cfg, s, c, TempReady)
    case Rename(c) => AtStage(cfg, s, c, DestinationRemoved)
    case CopyFails(c) => Running(cfg, s, c) && s.phase[c].Copying?
    case CleanUp(c, throws) => Running(cfg, s, c) && s.phase[c].CleaningUp? && (throws ==> cfg.cleanupMayThrow)
  }

  const NO_TEMP := File(false, false)

  function StartCopy(source: Source, binary: Binary): Phase {
    Copying(source, binary, Preparing, NO_TEMP)
  }

  /** The source build, or the error when there is no workspace to build in. */
  function Fallback(cfg: Config, c: Caller): Phase {
    if c in cfg.workspace then StartCopy(LocalBuild, Main) else Finishing(false)
  }

  /** What follows the second check when a binary is missing. */
  function StartInstall(cfg: Config, c: Caller): Phase {
    if c in cfg.forceSource then Fallback(cfg, c) else StartCopy(Release, Main)
  }

  function Place(root: Root, binary: Binary, file: Option<File>): Root {
    match binary
    case Main => root.(main := file)
    case Hooks => root.(hooks := file)
  }

  /** Where a caller goes when the lock layer takes the given step for it. */
  function AfterLockStep(phase: Phase, step: L.Step): Phase
    requires step.Release? ==> phase.Finishing?
  {
    match step
    case WritePid(_) => Locked
    case WriteFails(_, _) => Threw
    case Throw(_) => Threw
    case Release(_, removed) => if phase.ok && removed then Returned else Threw
    case _ => phase
  }

  function AfterRename(p: Phase): Phase
    requires p.Copying?
  {
    match p.binary
    case Main => StartCopy(p.source, Hooks)
    case Hooks => if p.source.Release? then CleaningUp(true) else Finishing(true)
  }

  function Apply(cfg: Config, s: State, step: Step): State
    requires Enabled(cfg, s, step)
  {
    match step
    case LockStep(l) =>
      var lock := L.Apply(cfg.lock, s.lock, l);
      if l.Exit? then s.(lock := lock) else s.(lock := lock, phase := s.phase[l.c := AfterLockStep(s.phase[l.c], l)])
    case CheckMain(c) => Goto(s, c, if s.root.main.Some? then MainSeen else Acquiring)
    case CheckHooks(c) => Goto(s, c, if s.root.hooks.Some? then Returned else Acquiring)
    case RecheckMain(c) => Goto(s, c, if s.root.main.Some? then LockedMainSeen else StartInstall(cfg, c))
    case RecheckHooks(c) => Goto(s, c, if s.root.hooks.Some? then Finishing(true) else StartInstall(cfg, c))
    case OpenTemp(c) => Goto(s, c, s.phase[c].(stage := TempOpen, temp := File(false, false)))
    case FillTemp(c) => Goto(s, c, s.phase[c].(stage := TempWhole, temp := s.phase[c].temp.(whole := true)))
    case Chmod(c) => Goto(s, c, s.phase[c].(stage := TempReady, temp := s.phase[c].temp.(executable := true)))
    case RemoveDestination(c) =>
      Goto(s, c, s.phase[c].(stage := DestinationRemoved)).(root := Place(s.root, s.phase[c].binary, None))
    case Rename(c) =>
      var p := s.phase[c];
      Goto(s, c, AfterRename(p)).(root := Place(s.root, p.binary, Some(p.temp)),
                                  installs := if p.binary.Hooks? then s.installs + 1 else s.installs)
    case CopyFails(c) => Goto(s, c, if s.phase[c].source.Release? then CleaningUp(false) else Finishing(false))
    case CleanUp(c, throws) =>
      Goto(s, c, if s.phase[c].copied && !throws then Finishing(true) else Fallback(cfg, c))
  }

  function Goto(s: State, c: Caller, phase: Phase): State {
    s.(phase := s.phase[c := phase])
  }

  predicate Complete(file: Option<File>) {
    file.Some? && file.value.whole && file.value.executable
  }

  /** Both binaries in place, whole and executable. */
  predicate Installed(root: Root) {
    Complete(root.main) && Complete(root.hooks)
  }

  /** Hooks present means main present, and whatever is present is complete. */
  predicate RootOk(root: Root) {
    && (root.main.Some? ==> Complete(root.main))
    && (root.hooks.Some? ==> Installed(root))
  }

  function Init(cfg: Config, root: Root): State {
    State(L.Init(cfg.lock), map c | c in cfg.lock.pidOf :: Fresh, root, 0)
  }

  predicate CanRun(cfg: Config, s: State, steps: seq<Step>)
    decreases |steps|
  {
    steps == [] ||
    (Enabled(cfg, s, steps[0]) && CanRun(cfg, Apply(cfg, s, steps[0]), steps[1..]))
  }

  function Run(cfg: Config, s: State, steps: seq<Step>): State
    requires CanRun(cfg, s, steps)
    decreases |steps|
  {
    if steps == [] then s else Run(cfg, Apply(cfg, s, steps[0]), steps[1..])
  }

  /** Some run from an acceptable root (an empty one, for instance) ends in s. */
  ghost predicate Reachable(cfg: Config, s: State) {
    exists root, steps :: RootOk(root) && CanRun(cfg, Init(cfg, root), steps) && Run(cfg, Init(cfg, root), steps) == s
  }

  /** Someone copies a release in, and a failing cleanup would send it on to a source build. */
  ghost predicate CleanupHazard(cfg: Config) {
    cfg.cleanupMayThrow && exists c :: c in cfg.lock.pidOf && c !in cfg.forceSource && c in cfg.workspace
  }

  // ----- the invariant -----

  predicate InCritical(p: Phase) {
    p.Locked? || p.LockedMainSeen? || p.Copying? || p.CleaningUp? || p.Finishing?
  }

  /** Being between the two lock calls is holding the lock. */
  ghost predicate Coupled(cfg: Config, s: State) {
    && s.phase.Keys == cfg.lock.pidOf.Keys == s.lock.pc.Keys
    && L.Reachable(cfg.lock, s.lock)
    && (forall c :: c in s.phase ==> (InCritical(s.phase[c]) <==> s.lock.pc[c].Held?))
  }

  /** What a caller may rely on where it is. */
  ghost predicate PhaseOk(cfg: Config, c: Caller, p: Phase, root: Root) {
    match p
    case Copying(source, binary, stage, temp) =>
      && root.hooks.None?
      && (source.Release? ==> c !in cfg.forceSource)
      && (binary.Hooks? ==> Complete(root.main))
      && (stage.TempWhole? ==> temp.whole)
      && (stage.TempReady? || stage.DestinationRemoved? ==> Complete(Some(temp)))
    case CleaningUp(copied) => c !in cfg.forceSource && (copied <==> root.hooks.Some?)
    case Finishing(ok) => ok ==> root.hooks.Some?
    case _ => true
  }

  ghost predicate Inv(cfg: Config, s: State) {
    && Coupled(cfg, s)
    && RootOk(s.root)
    && (forall c :: Running(cfg, s, c) ==> PhaseOk(cfg, c, s.phase[c], s.root))
    && (forall c :: c in s.phase && s.phase[c].Returned? ==> s.root.hooks.Some?)
    && s.installs <= 1
    && (s.installs == 1 ==> s.root.hooks.Some?)
  }

  /** What one caller's step may do to the lock counters: Held begins with WritePid and ends with Release. */
  lemma LockStepShape(cfg: L.Config, s: L.State, step: L.Step)
    requires L.Enabled(cfg, s, step) && !step.Exit?
    ensures step.c in s.pc && L.Apply(cfg, s, step).pc == s.pc[step.c := L.Apply(cfg, s, step).pc[step.c]]
    ensures L.Apply(cfg, s, step).pc[step.c].Held? <==> step.WritePid?
    ensures s.pc[step.c].Held? <==> step.Release?
    ensures L.Apply(cfg, s, step).alive == s.alive
  {
  }

  lemma MoveKeepsCoupling(cfg: Config, s: State, c: Caller, lock: L.State, phase: Phase)
    requires Coupled(cfg, s) && c in s.phase && L.Reachable(cfg.lock, lock)
    requires c in lock.pc && lock.pc == s.lock.pc[c := lock.pc[c]] && (InCritical(phase) <==> lock.pc[c].Held?)
    ensures Coupled(cfg, s.(lock := lock, phase := s.phase[c := phase]))
  {
  }

  lemma AfterLockStepCoupled(phase: Phase, step: L.Step)
    requires step.Release? ==> phase.Finishing?
    requires !step.Release? ==> phase.Acquiring?
    ensures InCritical(AfterLockStep(phase, step)) <==> step.WritePid?
  {
  }

  lemma LockStepKeepsCoupling(cfg: Config, s: State, l: L.Step)
    requires Coupled(cfg, s) && Enabled(cfg, s, LockStep(l))
    ensures Coupled(cfg, Apply(cfg, s, LockStep(l)))
  {
    L.StepReaches(cfg.lock, s.lock, l);
    if l.Exit? {
      assert L.Apply(cfg.lock, s.lock, l).pc == s.lock.pc;
    } else {
      LockStepShape(cfg.lock, s.lock, l);
      AfterLockStepCoupled(s.phase[l.c], l);
      MoveKeepsCoupling(cfg, s, l.c, L.Apply(cfg.lock, s.lock, l), AfterLockStep(s.phase[l.c], l));
    }
  }

  /** A step of the install itself moves one running caller, in or out of the copy loops but not of the lock. */
  lemma OwnStepShape(cfg: Config, s: State, step: Step)
    requires Enabled(cfg, s, step) && !step.LockStep?
    ensures Running(cfg, s, step.c) && Apply(cfg, s, step).lock == s.lock
    ensures step.c in Apply(cfg, s, step).phase
    ensures Apply(cfg, s, step).phase == s.phase[step.c := Apply(cfg, s, step).phase[step.c]]
    ensures InCritical(Apply(cfg, s, step).phase[step.c]) <==> InCritical(s.phase[step.c])
  {
  }

  lemma StepKeepsCoupling(cfg: Config, s: State, step: Step)
    requires Coupled(cfg, s) && Enabled(cfg, s, step)
    ensures Coupled(cfg, Apply(cfg, s, step))
  {
    if step.LockStep? {
      LockStepKeepsCoupling(cfg, s, step.step);
    } else {
      OwnStepShape(cfg, s, step);
      OwnMoveKeepsCoupling(cfg, s, Apply(cfg, s, step), step.c);
    }
  }

  lemma OwnMoveKeepsCoupling(cfg: Config, s: State, t: State, c: Caller)
    requires Coupled(cfg, s) && c in s.phase && c in t.phase && t.lock == s.lock && t.phase == s.phase[c := t.phase[c]]
    requires InCritical(t.phase[c]) <==> InCritical(s.phase[c])
    ensures Coupled(cfg, t)
  {
  }

  /** Only one running caller is between the two lock calls. */
  lemma {:induction false} OneInCritical(cfg: Config, s: State, c: Caller, d: Caller)
    requires Coupled(cfg, s) && L.Safe(cfg.lock)
    requires Running(cfg, s, c) && Running(cfg, s, d) && InCritical(s.phase[c]) && InCritical(s.phase[d])
    ensures c == d
  {
    assert L.Inside(cfg.lock, s.lock, c) && L.Inside(cfg.lock, s.lock, d);
  }

  /** The step's own caller keeps its part, and the root stays acceptable. */
  lemma StepKeepsOwnPhase(cfg: Config, s: State, step: Step)
    requires Inv(cfg, s) && L.Safe(cfg.lock) && !CleanupHazard(cfg) && Enabled(cfg, s, step) && !step.LockStep?
    ensures var t := Apply(cfg, s, step);
      && RootOk(t.root) && PhaseOk(cfg, step.c, t.phase[step.c], t.root)
      && (t.phase[step.c].Returned? ==> t.root.hooks.Some?)
      && (s.root.hooks.Some? ==> t.root == s.root)
      && (s.root != t.root ==> InCritical(s.phase[step.c]))
      && t.installs <= 1 && (t.installs == 1 ==> t.root.hooks.Some?)
  {
    OwnStepShape(cfg, s, step);
    assert PhaseOk(cfg, step.c, s.phase[step.c], s.root);
    if s.phase[step.c].Copying? {
      CopyStepKeepsPhase(cfg, s, step);
    } else {
      OtherStepKeepsPhase(cfg, s, step);
    }
  }

  lemma CopyStepKeepsPhase(cfg: Config, s: State, step: Step)
    requires RootOk(s.root) && Enabled(cfg, s, step) && !step.LockStep? && s.phase[step.c].Copying?
    requires PhaseOk(cfg, step.c, s.phase[step.c], s.root)
    requires s.installs <= 1 && (s.installs == 1 ==> s.root.hooks.Some?)
    ensures var t := Apply(cfg, s, step);
      && RootOk(t.root) && PhaseOk(cfg, step.c, t.phase[step.c], t.root) && !t.phase[step.c].Returned?
      && t.installs <= 1 && (t.installs == 1 ==> t.root.hooks.Some?)
  {
  }

  lemma OtherStepKeepsPhase(cfg: Config, s: State, step: Step)
    requires RootOk(s.root) && !CleanupHazard(cfg) && Enabled(cfg, s, step) && !step.LockStep?
    requires PhaseOk(cfg, step.c, s.phase[step.c], s.root) && !s.phase[step.c].Copying?
    ensures var t := Apply(cfg, s, step);
      && t.root == s.root && t.installs == s.installs && PhaseOk(cfg, step.c, t.phase[step.c], t.root)
      && (t.phase[step.c].Returned? ==> t.root.hooks.Some?)
  {
  }

  /** What the phase after a lock step claims is nothing new. */
  lemma LockStepPhaseOk(cfg: Config, s: State, l: L.Step)
    requires Inv(cfg, s) && Enabled(cfg, s, LockStep(l)) && !l.Exit?
    ensures var p := AfterLockStep(s.phase[l.c], l);
      PhaseOk(cfg, l.c, p, s.root) && (p.Returned? ==> s.root.hooks.Some?)
  {
    LockStepShape(cfg.lock, s.lock, l);
    assert Running(cfg, s, l.c);
  }

  /** Moving one caller to a phase that claims nothing new keeps the invariant while the root stays. */
  lemma MoveKeepsInv(cfg: Config, s: State, t: State, c: Caller)
    requires Inv(cfg, s) && Coupled(cfg, t) && t.root == s.root && t.installs == s.installs
    requires c in t.phase && t.phase == s.phase[c := t.phase[c]] && t.lock.alive <= s.lock.alive
    requires PhaseOk(cfg, c, t.phase[c], s.root) && (t.phase[c].Returned? ==> s.root.hooks.Some?)
    ensures Inv(cfg, t)
  {
    forall d | Running(cfg, t, d) ensures PhaseOk(cfg, d, t.phase[d], t.root) {
      assert d != c ==> Running(cfg, s, d);
    }
  }

  lemma ExitKeepsInv(cfg: Config, s: State, t: State)
    requires Inv(cfg, s) && Coupled(cfg, t) && t.root == s.root && t.installs == s.installs && t.phase == s.phase
    requires t.lock.pc == s.lock.pc && t.lock.alive <= s.lock.alive
    ensures Inv(cfg, t)
  {
    forall d | Running(cfg, t, d) ensures PhaseOk(cfg, d, t.phase[d], t.root) { assert Running(cfg, s, d); }
  }

  lemma LockStepKeepsInv(cfg: Config, s: State, l: L.Step)
    requires Inv(cfg, s) && Enabled(cfg, s, LockStep(l))
    ensures Inv(cfg, Apply(cfg, s, LockStep(l)))
  {
    var t := Apply(cfg, s, LockStep(l));
    LockStepKeepsCoupling(cfg, s, l);
    if l.Exit? {
      ExitKeepsInv(cfg, s, t);
    } else {
      LockStepShape(cfg.lock, s.lock, l);
      LockStepPhaseOk(cfg, s, l);
      MoveKeepsInv(cfg, s, t, l.c);
    }
  }

  /** A step of c that keeps its own part keeps everyone's: whoever else is between the lock calls has exited. */
  lemma OwnMoveKeepsInv(cfg: Config, s: State, t: State, c: Caller)
    requires Inv(cfg, s) && L.Safe(cfg.lock) && Running(cfg, s, c) && Coupled(cfg, t)
    requires t.lock == s.lock && c in t.phase && t.phase == s.phase[c := t.phase[c]]
    requires RootOk(t.root) && PhaseOk(cfg, c, t.phase[c], t.root) && (t.phase[c].Returned? ==> t.root.hooks.Some?)
    requires (s.root.hooks.Some? ==> t.root == s.root) && (s.root != t.root ==> InCritical(s.phase[c]))
    requires t.installs <= 1 && (t.installs == 1 ==> t.root.hooks.Some?)
    ensures Inv(cfg, t)
  {
    forall d | Running(cfg, t, d) ensures PhaseOk(cfg, d, t.phase[d], t.root) {
      if d != c {
        assert Running(cfg, s, d) && PhaseOk(cfg, d, s.phase[d], s.root);
        if s.root != t.root && InCritical(s.phase[d]) { OneInCritical(cfg, s, c, d); }
      }
    }
  }

  lemma OwnStepKeepsInv(cfg: Config, s: State, step: Step)
    requires Inv(cfg, s) && L.Safe(cfg.lock) && !CleanupHazard(cfg) && Enabled(cfg, s, step) && !step.LockStep?
    ensures Inv(cfg, Apply(cfg, s, step))
  {
    StepKeepsCoupling(cfg, s, step);
    StepKeepsOwnPhase(cfg, s, step);
    OwnStepShape(cfg, s, step);
    OwnMoveKeepsInv(cfg, s, Apply(cfg, s, step), step.c);
  }

  lemma {:induction false} StepKeepsInv(cfg: Config, s: State, step: Step)
    requires Inv(cfg, s) && L.Safe(cfg.lock) && !CleanupHazard(cfg) && Enabled(cfg, s, step)
    ensures Inv(cfg, Apply(cfg, s, step))
    ensures Installed(s.root) ==> Installed(Apply(cfg, s, step).root)
  {
    if step.LockStep? {
      LockStepKeepsInv(cfg, s, step.step);
    } else {
      OwnStepKeepsInv(cfg, s, step);
      StepKeepsOwnPhase(cfg, s, step);
    }
  }

  lemma {:induction false} RunKeepsInv(cfg: Config, s: State, steps: seq<Step>)
    requires Inv(cfg, s) && L.Safe(cfg.lock) && !CleanupHazard(cfg) && CanRun(cfg, s, steps)
    ensures Inv(cfg, Run(cfg, s, steps))
    ensures Installed(s.root) ==> Installed(Run(cfg, s, steps).root)
    decreases |steps|
  {
    if steps != [] {
      StepKeepsInv(cfg, s, steps[0]);
      RunKeepsInv(cfg, Apply(cfg, s, steps[0]), steps[1..]);
    }
  }

  lemma ReachableInv(cfg: Config, s: State)
    requires L.Safe(cfg.lock) && !CleanupHazard(cfg) && Reachable(cfg, s)
    ensures Inv(cfg, s)
  {
    var root, steps :| RootOk(root) && CanRun(cfg, Init(cfg, root), steps) && Run(cfg, Init(cfg, root), steps) == s;
    L.InitReachable(cfg.lock);
    RunKeepsInv(cfg, Init(cfg, root), steps);
  }

  // ----- what a caller may rely on -----

  /**
   * Once any call has returned its paths, both binaries are whole and executable
   * in that state and after every continuation of the run.
   */
  lemma {:induction false} ReturnedMeansInstalledForGood(cfg: Config, s: State, c: Caller, more: seq<Step>)
    requires L.Safe(cfg.lock) && !CleanupHazard(cfg) && Reachable(cfg, s)
    requires c in s.phase && s.phase[c].Returned? && CanRun(cfg, s, more)
    ensures Installed(s.root) && Installed(Run(cfg, s, more).root)
  {
    ReachableInv(cfg, s);
    RunKeepsInv(cfg, s, more);
  }

  // ----- the failing run -----

  lemma {:induction false} RunExtends(cfg: Config, s: State, steps: seq<Step>, step: Step)
    requires CanRun(cfg, s, steps) && Enabled(cfg, Run(cfg, s, steps), step)
    ensures CanRun(cfg, s, steps + [step])
    ensures Run(cfg, s, steps + [step]) == Apply(cfg, Run(cfg, s, steps), step)
    decreases |steps|
  {
    var all := steps + [step];
    if steps == [] {
      assert all[1..] == [];
      assert CanRun(cfg, Apply(cfg, s, step), all[1..]);
    } else {
      assert all[0] == steps[0] && all[1..] == steps[1..] + [step];
      RunExtends(cfg, Apply(cfg, s, steps[0]), steps[1..], step);
    }
  }

  /** Some run from the empty root ends in s. */
  ghost predicate FromEmpty(cfg: Config, s: State) {
    exists steps :: CanRun(cfg, Init(cfg, EMPTY), steps) && Run(cfg, Init(cfg, EMPTY), steps) == s
  }

  const EMPTY := Root(None, None)

  lemma FromEmptyReachable(cfg: Config, s: State)
    requires FromEmpty(cfg, s)
    ensures Reachable(cfg, s)
  {
  }

  lemma StepReaches(cfg: Config, s: State, step: Step)
    requires FromEmpty(cfg, s) && Enabled(cfg, s, step)
    ensures FromEmpty(cfg, Apply(cfg, s, step))
  {
    var steps :| CanRun(cfg, Init(cfg, EMPTY), steps) && Run(cfg, Init(cfg, EMPTY), steps) == s;
    RunExtends(cfg, Init(cfg, EMPTY), steps, step);
  }

  /** Everyone but c runs and has not started. */
  ghost predicate OthersFresh(cfg: Config, s: State, c: Caller) {
    forall d :: d in cfg.lock.pidOf && d != c ==>
      Running(cfg, s, d) && s.phase[d].Fresh? && s.lock.pc[d].Out?
  }

  /** c has found nothing installed and comes to the lock. */
  lemma ComesToLock(cfg: Config, c: Caller) returns (s: State)
    requires c in cfg.lock.pidOf
    ensures FromEmpty(cfg, s) && Running(cfg, s, c) && s.phase[c].Acquiring? && OthersFresh(cfg, s, c)
    ensures s.root == EMPTY && s.installs == 0 && s.lock.lock.None? && c in s.lock.pc && s.lock.pc[c].Out?
  {
    s := Init(cfg, EMPTY);
    assert CanRun(cfg, s, []) && Run(cfg, s, []) == s;
    assert cfg.lock.pidOf[c] in cfg.lock.pidOf.Values;
    StepReaches(cfg, s, CheckMain(c));
    s := Apply(cfg, s, CheckMain(c));
  }

  /** c in the locked region with the empty root, about to choose how to install. */
  lemma ReachesChoice(cfg: Config, c: Caller) returns (s: State)
    requires c in cfg.lock.pidOf
    ensures FromEmpty(cfg, s) && Running(cfg, s, c) && OthersFresh(cfg, s, c)
    ensures s.root == EMPTY && s.phase[c] == StartInstall(cfg, c) && s.installs == 0 && s.lock.lock.Some?
  {
    s := ComesToLock(cfg, c);
    s := TakesLock(cfg, s, c);
    StepReaches(cfg, s, RecheckMain(c));
    s := Apply(cfg, s, RecheckMain(c));
  }

  /** A caller acquires the free lock. */
  lemma TakesLock(cfg: Config, s: State, c: Caller) returns (t: State)
    requires FromEmpty(cfg, s) && Running(cfg, s, c) && s.phase[c].Acquiring?
    requires s.lock.lock.None? && c in s.lock.pc && s.lock.pc[c].Out?
    ensures FromEmpty(cfg, t) && Running(cfg, t, c)
    ensures t.phase == s.phase[c := Locked] && t.root == s.root && t.installs == s.installs
    ensures t.lock.pc == s.lock.pc[c := t.lock.pc[c]] && t.lock.alive == s.lock.alive && t.lock.lock.Some?
  {
    t := CreatesLock(cfg, s, c);
    StepReaches(cfg, t, LockStep(L.WritePid(c)));
    t := Apply(cfg, t, LockStep(L.WritePid(c)));
  }

  lemma CreatesLock(cfg: Config, s: State, c: Caller) returns (t: State)
    requires FromEmpty(cfg, s) && Running(cfg, s, c) && s.phase[c].Acquiring?
    requires s.lock.lock.None? && c in s.lock.pc && s.lock.pc[c].Out?
    ensures FromEmpty(cfg, t) && Running(cfg, t, c) && t == s.(lock := t.lock)
    ensures t.lock.pc == s.lock.pc[c := t.lock.pc[c]] && t.lock.pc[c].Opened? && t.lock.alive == s.lock.alive
    ensures t.lock.lock.Some?
  {
    StepReaches(cfg, s, LockStep(L.Begin(c)));
    t := Apply(cfg, s, LockStep(L.Begin(c)));
    assert t.phase == s.phase;
    StepReaches(cfg, t, LockStep(L.Create(c)));
    t := Apply(cfg, t, LockStep(L.Create(c)));
    assert t.phase == s.phase;
  }

  /** t is s with c moved on: nobody else has moved and nobody has exited. */
  predicate MovedAlone(s: State, t: State, c: Caller) {
    c in s.phase && t.lock == s.lock && t.phase.Keys == s.phase.Keys && t.phase == s.phase[c := t.phase[c]]
  }

  /** One successful copyFileAtomic up to, but not including, the rename. */
  lemma CopiesUpToRename(cfg: Config, s: State, c: Caller) returns (t: State)
    requires FromEmpty(cfg, s) && AtStage(cfg, s, c, Preparing)
    ensures FromEmpty(cfg, t) && AtStage(cfg, t, c, DestinationRemoved) && MovedAlone(s, t, c)
    ensures t.phase[c] == s.phase[c].(stage := DestinationRemoved, temp := File(true, true))
    ensures t.root == Place(s.root, s.phase[c].binary, None) && t.installs == s.installs
  {
    t := FillsTemp(cfg, s, c);
    StepReaches(cfg, t, Chmod(c));             t := Apply(cfg, t, Chmod(c));
    StepReaches(cfg, t, RemoveDestination(c)); t := Apply(cfg, t, RemoveDestination(c));
  }

  lemma FillsTemp(cfg: Config, s: State, c: Caller) returns (t: State)
    requires FromEmpty(cfg, s) && AtStage(cfg, s, c, Preparing)
    ensures FromEmpty(cfg, t) && AtStage(cfg, t, c, TempWhole) && MovedAlone(s, t, c)
    ensures t.phase[c] == s.phase[c].(stage := TempWhole, temp := File(true, false))
    ensures t.root == s.root && t.installs == s.installs
  {
    StepReaches(cfg, s, OpenTemp(c)); t := Apply(cfg, s, OpenTemp(c));
    StepReaches(cfg, t, FillTemp(c)); t := Apply(cfg, t, FillTemp(c));
  }

  /** One whole copyFileAtomic. */
  lemma CopiesOne(cfg: Config, s: State, c: Caller) returns (t: State)
    requires FromEmpty(cfg, s) && AtStage(cfg, s, c, Preparing)
    ensures FromEmpty(cfg, t) && MovedAlone(s, t, c) && t.phase[c] == AfterRename(s.phase[c])
    ensures t.root == Place(s.root, s.phase[c].binary, Some(File(true, true)))
    ensures t.installs == s.installs + if s.phase[c].binary.Hooks? then 1 else 0
  {
    t := CopiesUpToRename(cfg, s, c);
    StepReaches(cfg, t, Rename(c));
    t := Apply(cfg, t, Rename(c));
  }

  /** Both release copies succeed. */
  lemma CopiesRelease(cfg: Config, c: Caller) returns (s: State)
    requires c in cfg.lock.pidOf && c !in cfg.forceSource
    ensures FromEmpty(cfg, s) && Running(cfg, s, c) && OthersFresh(cfg, s, c)
    ensures s.phase[c] == CleaningUp(true) && Installed(s.root) && s.installs == 1 && s.lock.lock.Some?
  {
    s := ReachesChoice(cfg, c);
    s := CopiesOne(cfg, s, c);
    s := CopiesOne(cfg, s, c);
  }

  /** A state in which c has copied a release in, and the cleanup throws: the source build starts over. */
  lemma StartsOver(cfg: Config, s: State, c: Caller) returns (t: State)
    requires cfg.cleanupMayThrow && c in cfg.workspace
    requires FromEmpty(cfg, s) && Running(cfg, s, c) && s.phase[c].CleaningUp?
    ensures FromEmpty(cfg, t) && AtStage(cfg, t, c, DestinationRemoved) && t.root == s.root.(main := None)
    ensures t.installs == s.installs
    ensures t.phase == s.phase[c := Copying(LocalBuild, Main, DestinationRemoved, File(true, true))]
  {
    StepReaches(cfg, s, CleanUp(c, true));
    t := CopiesUpToRename(cfg, Apply(cfg, s, CleanUp(c, true)), c);
  }

  /** Both release copies succeed, the cleanup throws, and the source build removes main under hooks. */
  lemma {:induction false} CleanupThrowsAfterCopying(cfg: Config, c: Caller) returns (s: State)
    requires cfg.cleanupMayThrow && c in cfg.lock.pidOf && c !in cfg.forceSource && c in cfg.workspace
    ensures FromEmpty(cfg, s) && Reachable(cfg, s) && s.root.main.None? && s.root.hooks.Some?
    ensures AtStage(cfg, s, c, DestinationRemoved) && s.installs == 1
    ensures s.phase[c] == Copying(LocalBuild, Main, DestinationRemoved, File(true, true))
  {
    s := CopiesRelease(cfg, c);
    s := StartsOver(cfg, s, c);
    FromEmptyReachable(cfg, s);
  }

  /** The source build then finishes a second install. */
  lemma InstallsTwice(cfg: Config, c: Caller) returns (s: State)
    requires cfg.cleanupMayThrow && c in cfg.lock.pidOf && c !in cfg.forceSource && c in cfg.workspace
    ensures FromEmpty(cfg, s) && Reachable(cfg, s) && s.installs == 2
  {
    s := CleanupThrowsAfterCopying(cfg, c);
    StepReaches(cfg, s, Rename(c));
    s := CopiesOne(cfg, Apply(cfg, s, Rename(c)), c);
    FromEmptyReachable(cfg, s);
  }

  /** Before the cleanup throws, another caller finds both binaries and returns; then main is removed. */
  lemma ReturnsBeforeRemoval(cfg: Config, c: Caller, d: Caller) returns (s: State)
    requires cfg.cleanupMayThrow && c in cfg.lock.pidOf && c !in cfg.forceSource && c in cfg.workspace
    requires d in cfg.lock.pidOf && d != c
    ensures FromEmpty(cfg, s) && Reachable(cfg, s) && d in s.phase && s.phase[d].Returned? && !Installed(s.root)
  {
    s := CopiesRelease(cfg, c);
    StepReaches(cfg, s, CheckMain(d));  s := Apply(cfg, s, CheckMain(d));
    StepReaches(cfg, s, CheckHooks(d)); s := Apply(cfg, s, CheckHooks(d));
    s := StartsOver(cfg, s, c);
    FromEmptyReachable(cfg, s);
  }

  // ----- what a call comes to -----

  lemma {:induction false} RunKeepsCoupling(cfg: Config, s: State, steps: seq<Step>)
    requires Coupled(cfg, s) && CanRun(cfg, s, steps)
    ensures Coupled(cfg, Run(cfg, s, steps))
    decreases |steps|
  {
    if steps != [] {
      StepKeepsCoupling(cfg, s, steps[0]);
      RunKeepsCoupling(cfg, Apply(cfg, s, steps[0]), steps[1..]);
    }
  }

  lemma FromEmptyCoupled(cfg: Config, s: State)
    requires FromEmpty(cfg, s)
    ensures Coupled(cfg, s)
  {
    var steps :| CanRun(cfg, Init(cfg, EMPTY), steps) && Run(cfg, Init(cfg, EMPTY), steps) == s;
    L.InitReachable(cfg.lock);
    RunKeepsCoupling(cfg, Init(cfg, EMPTY), steps);
  }

  /** c releases the lock; the call ends by whether the install and the removal of the lock went well. */
  lemma Releases(cfg: Config, s: State, c: Caller, removed: bool) returns (t: State)
    requires FromEmpty(cfg, s) && Running(cfg, s, c) && s.phase[c].Finishing?
    ensures FromEmpty(cfg, t)
    ensures t.phase == s.phase[c := if s.phase[c].ok && removed then Returned else Threw]
    ensures t.root == s.root && t.installs == s.installs && t.lock.alive == s.lock.alive
    ensures t.lock.lock == if removed then None else s.lock.lock
    ensures c in s.lock.pc && t.lock.pc == s.lock.pc[c := L.Out]
  {
    FromEmptyCoupled(cfg, s);
    StepReaches(cfg, s, LockStep(L.Release(c, removed)));
    t := Apply(cfg, s, LockStep(L.Release(c, removed)));
  }

  /** c alone copies both binaries in. */
  lemma CopiesBoth(cfg: Config, s: State, c: Caller) returns (t: State)
    requires FromEmpty(cfg, s) && Running(cfg, s, c) && s.phase[c].Copying?
    requires s.phase[c] == StartCopy(s.phase[c].source, Main)
    ensures FromEmpty(cfg, t) && MovedAlone(s, t, c) && Installed(t.root) && t.installs == s.installs + 1
    ensures t.phase[c] == if s.phase[c].source.Release? then CleaningUp(true) else Finishing(true)
  {
    t := CopiesOne(cfg, s, c);
    t := CopiesOne(cfg, t, c);
  }

  /** Others have not started and run on, and the lock is free again. */
  ghost predicate OthersUntouched(cfg: Config, s: State, c: Caller) {
    OthersFresh(cfg, s, c) && s.lock.lock.None?
  }

  /** The release is downloaded and copied in, its temporary directory removed, and the lock released. */
  lemma ReturnsFromRelease(cfg: Config, c: Caller) returns (s: State)
    requires c in cfg.lock.pidOf && c !in cfg.forceSource
    ensures FromEmpty(cfg, s) && c in s.phase && s.phase[c].Returned?
    ensures Installed(s.root) && s.installs == 1 && OthersUntouched(cfg, s, c)
  {
    s := CopiesRelease(cfg, c);
    StepReaches(cfg, s, CleanUp(c, false));
    s := Releases(cfg, Apply(cfg, s, CleanUp(c, false)), c, true);
  }

  /** c after its release install failed, whether or not removing its temporary directory failed too. */
  lemma ReleaseFails(cfg: Config, c: Caller, throws: bool) returns (s: State)
    requires c in cfg.lock.pidOf && c !in cfg.forceSource && (throws ==> cfg.cleanupMayThrow)
    ensures FromEmpty(cfg, s) && Running(cfg, s, c) && OthersFresh(cfg, s, c)
    ensures s.root == EMPTY && s.installs == 0
    ensures s.phase[c] == if c in cfg.workspace then StartCopy(LocalBuild, Main) else Finishing(false)
  {
    s := ReachesChoice(cfg, c);
    StepReaches(cfg, s, CopyFails(c));       s := Apply(cfg, s, CopyFails(c));
    StepReaches(cfg, s, CleanUp(c, throws)); s := Apply(cfg, s, CleanUp(c, throws));
  }

  /** A caller with a workspace returns from a source build, after a failed release or when told to skip it. */
  lemma ReturnsFromBuild(cfg: Config, c: Caller, throws: bool) returns (s: State)
    requires c in cfg.lock.pidOf && c in cfg.workspace && (throws ==> cfg.cleanupMayThrow)
    ensures FromEmpty(cfg, s) && c in s.phase && s.phase[c].Returned?
    ensures Installed(s.root) && s.installs == 1 && OthersUntouched(cfg, s, c)
  {
    if c in cfg.forceSource {
      s := ReachesChoice(cfg, c);
    } else {
      s := ReleaseFails(cfg, c, throws);
    }
    s := CopiesBoth(cfg, s, c);
    s := Releases(cfg, s, c, true);
  }

  /** When every way to install is skipped, missing or fails, the call throws, and the lock is free for the next. */
  lemma ThrowsWithNothing(cfg: Config, c: Caller) returns (s: State)
    requires c in cfg.lock.pidOf
    ensures FromEmpty(cfg, s) && c in s.phase && s.phase[c].Threw?
    ensures s.root == EMPTY && s.installs == 0 && OthersUntouched(cfg, s, c)
  {
    if c in cfg.forceSource {
      s := ReachesChoice(cfg, c);
    } else {
      s := ReleaseFails(cfg, c, false);
    }
    if c in cfg.workspace {
      StepReaches(cfg, s, CopyFails(c)); s := Apply(cfg, s, CopyFails(c));
    }
    s := Releases(cfg, s, c, true);
  }

  /** A call that cannot open the lock file throws. */
  lemma ThrowsAtLock(cfg: Config, c: Caller) returns (s: State)
    requires c in cfg.lock.pidOf
    ensures FromEmpty(cfg, s) && c in s.phase && s.phase[c].Threw? && OthersUntouched(cfg, s, c)
    ensures s.root == EMPTY && s.installs == 0
  {
    s := ComesToLock(cfg, c);
    StepReaches(cfg, s, LockStep(L.Begin(c))); s := Apply(cfg, s, LockStep(L.Begin(c)));
    StepReaches(cfg, s, LockStep(L.Throw(c))); s := Apply(cfg, s, LockStep(L.Throw(c)));
  }

  /** So does one whose pid cannot be written, and its lock file stays behind. */
  lemma ThrowsAtWrite(cfg: Config, c: Caller) returns (s: State)
    requires c in cfg.lock.pidOf
    ensures FromEmpty(cfg, s) && c in s.phase && s.phase[c].Threw? && OthersFresh(cfg, s, c)
    ensures s.root == EMPTY && s.installs == 0 && s.lock.lock.Some?
  {
    s := ComesToLock(cfg, c);
    s := CreatesLock(cfg, s, c);
    StepReaches(cfg, s, LockStep(L.WriteFails(c, false)));
    s := Apply(cfg, s, LockStep(L.WriteFails(c, false)));
  }

  /** A call that installed both binaries still throws when its lock file cannot be removed. */
  lemma ThrowsThoughInstalled(cfg: Config, c: Caller) returns (s: State)
    requires c in cfg.lock.pidOf && c !in cfg.forceSource
    ensures FromEmpty(cfg, s) && c in s.phase && s.phase[c].Threw? && Installed(s.root) && s.installs == 1
    ensures s.lock.lock.Some?
  {
    s := CopiesRelease(cfg, c);
    StepReaches(cfg, s, CleanUp(c, false));
    s := Releases(cfg, Apply(cfg, s, CleanUp(c, false)), c, false);
  }

  /** d comes to the lock with main already there but hooks missing, and c then completes its install. */
  lemma InstallsPast(cfg: Config, c: Caller, d: Caller) returns (s: State)
    requires c in cfg.lock.pidOf && c !in cfg.forceSource && d in cfg.lock.pidOf && d != c
    ensures FromEmpty(cfg, s) && Running(cfg, s, c) && Running(cfg, s, d)
    ensures s.phase[c] == CleaningUp(true) && s.phase[d].Acquiring? && Installed(s.root) && s.installs == 1
    ensures d in s.lock.pc && s.lock.pc[d].Out?
  {
    s := ReachesChoice(cfg, c);
    s := CopiesOne(cfg, s, c);
    StepReaches(cfg, s, CheckMain(d));  s := Apply(cfg, s, CheckMain(d));
    StepReaches(cfg, s, CheckHooks(d)); s := Apply(cfg, s, CheckHooks(d));
    s := CopiesOne(cfg, s, c);
  }

  /** c finishes and frees the lock while d is at it. */
  lemma FreesFor(cfg: Config, c: Caller, d: Caller) returns (s: State)
    requires c in cfg.lock.pidOf && c !in cfg.forceSource && d in cfg.lock.pidOf && d != c
    ensures FromEmpty(cfg, s) && Running(cfg, s, c) && Running(cfg, s, d)
    ensures s.phase[c].Returned? && s.phase[d].Acquiring? && Installed(s.root) && s.installs == 1
    ensures d in s.lock.pc && s.lock.pc[d].Out? && s.lock.lock.None?
  {
    s := InstallsPast(cfg, c, d);
    StepReaches(cfg, s, CleanUp(c, false));
    s := Releases(cfg, Apply(cfg, s, CleanUp(c, false)), c, true);
  }

  /** A caller that came to the lock meanwhile finds the binaries behind it and returns without copying anything. */
  lemma ReturnsAfterWaiting(cfg: Config, c: Caller, d: Caller) returns (s: State)
    requires c in cfg.lock.pidOf && c !in cfg.forceSource && d in cfg.lock.pidOf && d != c
    ensures FromEmpty(cfg, s) && c in s.phase && d in s.phase && s.phase[c].Returned? && s.phase[d].Returned?
    ensures Installed(s.root) && s.installs == 1 && s.lock.lock.None?
  {
    s := FreesFor(cfg, c, d);
    s := TakesLock(cfg, s, d);
    StepReaches(cfg, s, RecheckMain(d));  s := Apply(cfg, s, RecheckMain(d));
    StepReaches(cfg, s, RecheckHooks(d)); s := Apply(cfg, s, RecheckHooks(d));
    s := Releases(cfg, s, d, true);
  }

  /** Some caller may download a release or has a workspace to build in. */
  ghost predicate SomeoneCanInstall(cfg: Config) {
    exists d :: d in cfg.lock.pidOf && (d !in cfg.forceSource || d in cfg.workspace)
  }

  /** Nothing was ever copied, and nobody has come past the checks. */
  ghost predicate NothingYet(cfg: Config, s: State) {
    && s.phase.Keys == cfg.lock.pidOf.Keys && s.root == EMPTY && s.installs == 0
    && (forall c :: c in s.phase ==>
          s.phase[c].Fresh? || s.phase[c].Acquiring? || s.phase[c].Locked? || s.phase[c] == Finishing(false) ||
          s.phase[c].Threw?)
  }

  lemma StepKeepsNothing(cfg: Config, s: State, step: Step)
    requires NothingYet(cfg, s) && !SomeoneCanInstall(cfg) && Enabled(cfg, s, step)
    ensures NothingYet(cfg, Apply(cfg, s, step))
  {
    if !step.LockStep? {
      assert step.c in cfg.forceSource && step.c !in cfg.workspace;
    } else if !step.step.Exit? {
      assert step.step.c in s.phase;
    }
  }

  lemma {:induction false} RunKeepsNothing(cfg: Config, s: State, steps: seq<Step>)
    requires NothingYet(cfg, s) && !SomeoneCanInstall(cfg) && CanRun(cfg, s, steps)
    ensures NothingYet(cfg, Run(cfg, s, steps))
    decreases |steps|
  {
    if steps != [] {
      StepKeepsNothing(cfg, s, steps[0]);
      RunKeepsNothing(cfg, Apply(cfg, s, steps[0]), steps[1..]);
    }
  }

  /** Some run from the empty root has c return its paths. */
  ghost predicate MayReturn(cfg: Config, c: Caller) {
    exists s :: FromEmpty(cfg, s) && c in s.phase && s.phase[c].Returned?
  }

  lemma SomeoneInstalls(cfg: Config) returns (s: State, d: Caller)
    requires SomeoneCanInstall(cfg)
    ensures FromEmpty(cfg, s) && d in s.phase && s.phase[d].Returned?
    ensures Installed(s.root) && OthersUntouched(cfg, s, d)
  {
    d :| d in cfg.lock.pidOf && (d !in cfg.forceSource || d in cfg.workspace);
    if d in cfg.forceSource {
      s := ReturnsFromBuild(cfg, d, false);
    } else {
      s := ReturnsFromRelease(cfg, d);
    }
  }

  /** From the empty root, each caller can come to return exactly when some caller has a way to install. */
  lemma {:induction false} MayReturnExactly(cfg: Config, c: Caller)
    requires c in cfg.lock.pidOf
    ensures MayReturn(cfg, c) <==> SomeoneCanInstall(cfg)
  {
    if SomeoneCanInstall(cfg) {
      var s, d := SomeoneInstalls(cfg);
      if c != d {
        StepReaches(cfg, s, CheckMain(c));  s := Apply(cfg, s, CheckMain(c));
        StepReaches(cfg, s, CheckHooks(c)); s := Apply(cfg, s, CheckHooks(c));
      }
      assert s.phase[c].Returned?;
    } else {
      forall s | FromEmpty(cfg, s) ensures c in s.phase && !s.phase[c].Returned? {
        var steps :| CanRun(cfg, Init(cfg, EMPTY), steps) && Run(cfg, Init(cfg, EMPTY), steps) == s;
        RunKeepsNothing(cfg, Init(cfg, EMPTY), steps);
      }
    }
  }

  // ----- one caller alone -----

  predicate PresentComplete(root: Root) {
    (root.main.Some? ==> Complete(root.main)) && (root.hooks.Some? ==> Complete(root.hooks))
  }

  /** What the only caller may rely on where it is, even when cleanups throw. */
  predicate SoloOk(p: Phase, root: Root) {
    match p
    case MainSeen => RootOk(root) && root.main.Some?
    case LockedMainSeen => RootOk(root) && root.main.Some?
    case Copying(_, binary, stage, temp) =>
      && (binary.Hooks? ==> Complete(root.main))
      && (stage.TempWhole? ==> temp.whole)
      && (stage.TempReady? || stage.DestinationRemoved? ==> Complete(Some(temp)))
    case CleaningUp(copied) => copied ==> Installed(root)
    case Finishing(ok) => ok ==> Installed(root)
    case Returned => Installed(root)
    case Threw => true
    case _ => RootOk(root)
  }

  ghost predicate SoloInv(cfg: Config, s: State, c: Caller) {
    Coupled(cfg, s) && s.phase.Keys == {c} && PresentComplete(s.root) && SoloOk(s.phase[c], s.root)
  }

  lemma SoloLockStep(cfg: Config, s: State, c: Caller, l: L.Step)
    requires SoloInv(cfg, s, c) && Enabled(cfg, s, LockStep(l))
    ensures var t := Apply(cfg, s, LockStep(l));
      t.root == s.root && t.phase.Keys == {c} && SoloOk(t.phase[c], t.root)
      && (s.phase[c].Returned? ==> t.phase[c].Returned?)
  {
    if !l.Exit? { assert l.c in s.phase; }
  }

  lemma SoloCopyStep(cfg: Config, s: State, c: Caller, step: Step)
    requires SoloInv(cfg, s, c) && Enabled(cfg, s, step) && !step.LockStep? && s.phase[step.c].Copying?
    ensures var t := Apply(cfg, s, step);
      PresentComplete(t.root) && SoloOk(t.phase[step.c], t.root)
  {
    assert step.c == c;
  }

  lemma SoloOwnStep(cfg: Config, s: State, c: Caller, step: Step)
    requires SoloInv(cfg, s, c) && Enabled(cfg, s, step) && !step.LockStep?
    ensures var t := Apply(cfg, s, step);
      PresentComplete(t.root) && t.phase.Keys == {c} && SoloOk(t.phase[c], t.root) && !s.phase[c].Returned?
  {
    OwnStepShape(cfg, s, step);
    assert step.c in s.phase;
    if s.phase[c].Copying? {
      SoloCopyStep(cfg, s, c, step);
    } else {
      SoloOtherStep(cfg, s, c, step);
    }
  }

  lemma SoloOtherStep(cfg: Config, s: State, c: Caller, step: Step)
    requires SoloInv(cfg, s, c) && Enabled(cfg, s, step) && !step.LockStep? && step.c == c && !s.phase[c].Copying?
    ensures var t := Apply(cfg, s, step);
      t.root == s.root && SoloOk(t.phase[c], t.root) && !s.phase[c].Returned?
  {
  }

  lemma StepKeepsSolo(cfg: Config, s: State, c: Caller, step: Step)
    requires SoloInv(cfg, s, c) && Enabled(cfg, s, step)
    ensures SoloInv(cfg, Apply(cfg, s, step), c)
    ensures s.phase[c].Returned? ==> Apply(cfg, s, step).phase[c].Returned?
  {
    StepKeepsCoupling(cfg, s, step);
    if step.LockStep? {
      SoloLockStep(cfg, s, c, step.step);
    } else {
      SoloOwnStep(cfg, s, c, step);
    }
  }

  lemma {:induction false} RunKeepsSolo(cfg: Config, s: State, c: Caller, steps: seq<Step>)
    requires SoloInv(cfg, s, c) && CanRun(cfg, s, steps)
    ensures SoloInv(cfg, Run(cfg, s, steps), c)
    ensures s.phase[c].Returned? ==> Run(cfg, s, steps).phase[c].Returned?
    decreases |steps|
  {
    if steps != [] {
      StepKeepsSolo(cfg, s, c, steps[0]);
      RunKeepsSolo(cfg, Apply(cfg, s, steps[0]), c, steps[1..]);
    }
  }

  lemma ReachableSolo(cfg: Config, s: State, c: Caller)
    requires cfg.lock.pidOf.Keys == {c} && Reachable(cfg, s)
    ensures SoloInv(cfg, s, c)
  {
    var root, steps :| RootOk(root) && CanRun(cfg, Init(cfg, root), steps) && Run(cfg, Init(cfg, root), steps) == s;
    L.InitReachable(cfg.lock);
    RunKeepsSolo(cfg, Init(cfg, root), c, steps);
  }

  // ----- the main results -----

  /** The hazard, and a second caller that may return before it strikes. */
  ghost predicate HazardBesideAnother(cfg: Config) {
    cfg.cleanupMayThrow &&
    exists c, d :: c in cfg.lock.pidOf && c !in cfg.forceSource && c in cfg.workspace && d in cfg.lock.pidOf && d != c
  }

  /** Whenever a call has returned, both binaries are whole and executable from then on. */
  ghost predicate ReturnsLast(cfg: Config) {
    forall s, c, more :: Reachable(cfg, s) && c in s.phase && s.phase[c].Returned? && CanRun(cfg, s, more) ==>
      Installed(s.root) && Installed(Run(cfg, s, more).root)
  }

  /** A returned path stays good in every run exactly when the hazard does not meet a second caller. */
  lemma {:induction false} ReturnsLastExactly(cfg: Config)
    requires L.Safe(cfg.lock)
    ensures ReturnsLast(cfg) <==> !HazardBesideAnother(cfg)
  {
    if HazardBesideAnother(cfg) {
      var c, d :| c in cfg.lock.pidOf && c !in cfg.forceSource && c in cfg.workspace && d in cfg.lock.pidOf && d != c;
      var s := ReturnsBeforeRemoval(cfg, c, d);
      assert CanRun(cfg, s, []);
    } else {
      forall s, c, more | Reachable(cfg, s) && c in s.phase && s.phase[c].Returned? && CanRun(cfg, s, more)
        ensures Installed(s.root) && Installed(Run(cfg, s, more).root)
      {
        if CleanupHazard(cfg) {
          ReturnsAlone(cfg, s, c, more);
        } else {
          ReturnedMeansInstalledForGood(cfg, s, c, more);
        }
      }
    }
  }

  lemma ReturnsAlone(cfg: Config, s: State, c: Caller, more: seq<Step>)
    requires CleanupHazard(cfg) && !HazardBesideAnother(cfg) && Reachable(cfg, s)
    requires c in s.phase && s.phase[c].Returned? && CanRun(cfg, s, more)
    ensures Installed(s.root) && Installed(Run(cfg, s, more).root)
  {
    var solo :| solo in cfg.lock.pidOf && solo !in cfg.forceSource && solo in cfg.workspace;
    assert cfg.lock.pidOf.Keys == {solo};
    ReachableSolo(cfg, s, solo);
    RunKeepsSolo(cfg, s, solo, more);
  }

  /** However many callers race, fail, fall back or crash, at most one install finishes, exactly without the hazard. */
  lemma {:induction false} AtMostOneInstallExactly(cfg: Config)
    requires L.Safe(cfg.lock)
    ensures (forall s :: Reachable(cfg, s) ==> s.installs <= 1) <==> !CleanupHazard(cfg)
  {
    if CleanupHazard(cfg) {
      var c :| c in cfg.lock.pidOf && c !in cfg.forceSource && c in cfg.workspace;
      var s := InstallsTwice(cfg, c);
      assert s.installs > 1;
    } else {
      forall s | Reachable(cfg, s) ensures s.installs <= 1 { ReachableInv(cfg, s); }
    }
  }

  /**
   * Under mutual exclusion, every state of every run keeps "hooks present implies
   * main present, and what is present is complete" exactly when no caller that
   * copies a release in can be sent on to a source build by a failing cleanup.
   */
  lemma {:induction false} RootOkExactly(cfg: Config)
    requires L.Safe(cfg.lock)
    ensures (forall s :: Reachable(cfg, s) ==> RootOk(s.root)) <==> !CleanupHazard(cfg)
  {
    if CleanupHazard(cfg) {
      var c :| c in cfg.lock.pidOf && c !in cfg.forceSource && c in cfg.workspace;
      var s := CleanupThrowsAfterCopying(cfg, c);
      assert !RootOk(s.root);
    } else {
      forall s | Reachable(cfg, s) ensures RootOk(s.root) {
        ReachableInv(cfg, s);
      }
    }
  }
}
