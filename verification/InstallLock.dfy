/**
 * The install lock of npm/lib/bootstrap.js: an exclusively created file holding
 * the pid of its owner, reclaimed when that pid no longer exists.
 *
 * Several callers share one lock path.  A caller is one pending call of
 * acquireInstallLock; one process may run several.  Every system call is one
 * step, a process may exit between any two steps, and pids are never reused.
 */
module InstallLock {
  import opened Wrappers

  type Caller = nat
  type Pid = p: nat | p > 0 witness 1

  /** What a reader finds in the lock file: nothing yet, or a complete pid line. */
  datatype Text = Blank | PidText(pid: Pid)

  /** Where a caller is.  `file` names the lock file the caller itself created. */
  datatype Pc =
    | Out
    | TryOpen
    | Opened(file: nat)
    | Held(file: nat)
    | Blocked
    | HolderRead(text: Text)
    | HolderDead(pid: Pid)
    | Waiting

  /**
   * `pidOf` gives the process of each caller.  `mayExit` are the processes that
   * may exit after having created a lock file; any other process may exit only
   * before.  `atomic` takes the holder read, the liveness test and the removal
   * as one step.
   */
  datatype Config = Config(pidOf: map<Caller, Pid>, mayExit: set<Pid>, atomic: bool)

  /**
   * `lock` is the file the lock path names, `texts` the contents of every file
   * ever created there (a handle outlives the path), `next` the number of the
   * next one, `creators` the processes that ever created one.
   */
  datatype State = State(
    lock: Option<nat>,
    texts: map<nat, Text>,
    next: nat,
    pc: map<Caller, Pc>,
    alive: set<Pid>,
    creators: set<Pid>)

  datatype Step =
    | Begin(c: Caller)
    | Create(c: Caller)
    | FindExisting(c: Caller)
    | WritePid(c: Caller)
    | WriteFails(c: Caller, wrote: bool)
    | ReadHolder(c: Caller, readable: bool)
    | TestHolder(c: Caller)
    | RemoveStale(c: Caller)
    | Reclaim(c: Caller, readable: bool)
    | Retry(c: Caller)
    | Throw(c: Caller)
    | Release(c: Caller, removed: bool)
    | Exit(pid: Pid)

  /** processExists: unknown for text that is not a pid. */
  function ProcessExists(text: Text, alive: set<Pid>): Option<bool> {
    match text
    case Blank => None
    case PidText(p) => Some(p in alive)
  }

  /** What readFile(lockPath) gives; a missing or unreadable file reads as blank. */
  function HolderText(s: State, readable: bool): Text {
    if readable && s.lock.Some? && s.lock.value in s.texts then s.texts[s.lock.value] else Blank
  }

  predicate Running(cfg: Config, s: State, c: Caller) {
    c in cfg.pidOf && c in s.pc && cfg.pidOf[c] in s.alive
  }

  predicate Enabled(cfg: Config, s: State, step: Step) {
    match step
    case Begin(c) => Running(cfg, s, c) && s.pc[c].Out?
    case Create(c) => Running(cfg, s, c) && s.pc[c].TryOpen? && s.lock.None?
    case FindExisting(c) => Running(cfg, s, c) && s.pc[c].TryOpen? && s.lock.Some?
    case WritePid(c) => Running(cfg, s, c) && s.pc[c].Opened?
    case WriteFails(c, _) => Running(cfg, s, c) && s.pc[c].Opened?
    case ReadHolder(c, _) => Running(cfg, s, c) && s.pc[c].Blocked? && !cfg.atomic
    case TestHolder(c) => Running(cfg, s, c) && s.pc[c].HolderRead?
    case RemoveStale(c) => Running(cfg, s, c) && s.pc[c].HolderDead?
    case Reclaim(c, _) => Running(cfg, s, c) && s.pc[c].Blocked? && cfg.atomic
    case Retry(c) => Running(cfg, s, c) && s.pc[c].Waiting?
    case Throw(c) =>
      Running(cfg, s, c) && (s.pc[c].TryOpen? || s.pc[c].HolderRead? || s.pc[c].HolderDead? || s.pc[c].Waiting?)
    case Release(c, _) => Running(cfg, s, c) && s.pc[c].Held?
    case Exit(p) => p in s.alive && (p in s.creators ==> p in cfg.mayExit)
  }

  function Apply(cfg: Config, s: State, step: Step): State
    requires Enabled(cfg, s, step)
  {
    match step
    case Begin(c) => s.(pc := s.pc[c := TryOpen])
    case Create(c) =>
      var f := s.next;
      s.(lock := Some(f), texts := s.texts[f := Blank], next := f + 1, pc := s.pc[c := Opened(f)],
         creators := s.creators + {cfg.pidOf[c]})
    case FindExisting(c) => s.(pc := s.pc[c := Blocked])
    case WritePid(c) =>
      var f := s.pc[c].file;
      s.(texts := s.texts[f := PidText(cfg.pidOf[c])], pc := s.pc[c := Held(f)])
    case WriteFails(c, wrote) =>
      var f := s.pc[c].file;
      s.(texts := if wrote then s.texts[f := PidText(cfg.pidOf[c])] else s.texts, pc := s.pc[c := Out])
    case ReadHolder(c, readable) => s.(pc := s.pc[c := HolderRead(HolderText(s, readable))])
    case TestHolder(c) =>
      var text := s.pc[c].text;
      s.(pc := s.pc[c := if ProcessExists(text, s.alive) == Some(false) then HolderDead(text.pid) else Waiting])
    case RemoveStale(c) => s.(lock := None, pc := s.pc[c := TryOpen])
    case Reclaim(c, readable) =>
      if ProcessExists(HolderText(s, readable), s.alive) == Some(false)
      then s.(lock := None, pc := s.pc[c := TryOpen])
      else s.(pc := s.pc[c := Waiting])
    case Retry(c) => s.(pc := s.pc[c := TryOpen])
    case Throw(c) => s.(pc := s.pc[c := Out])
    case Release(c, removed) => s.(lock := if removed then None else s.lock, pc := s.pc[c := Out])
    case Exit(p) => s.(alive := s.alive - {p})
  }

  /** No lock file yet, nobody started, every process running. */
  function Init(cfg: Config): State {
    State(None, map[], 0, map c | c in cfg.pidOf :: Out, cfg.pidOf.Values, {})
  }

  predicate CanRun(cfg: Config, s: State, steps: seq<Step>)
    decreases |steps|
  {
    steps == [] ||
    (Enabled(cfg, s, steps[0]) && CanRun(cfg, Apply(cfg, s, steps[0]), steps[1..]))
  }

  function Run(cfg: Config, s: State, steps: seq<Step>): State
    requires CanRun(cfg, s, steps)
    decreases |steps|
  {
    if steps == [] then s else Run(cfg, Apply(cfg, s, steps[0]), steps[1..])
  }

  /** c runs and is between the creation of its lock file and its release. */
  predicate Inside(cfg: Config, s: State, c: Caller) {
    Running(cfg, s, c) && (s.pc[c].Opened? || s.pc[c].Held?)
  }

  ghost predicate MutualExclusion(cfg: Config, s: State) {
    forall c, d :: Inside(cfg, s, c) && Inside(cfg, s, d) ==> c == d
  }

  /** Some run from the initial state ends in s. */
  ghost predicate Reachable(cfg: Config, s: State) {
    exists steps :: CanRun(cfg, Init(cfg), steps) && Run(cfg, Init(cfg), steps) == s
  }

  /** Mutual exclusion in every state of every run. */
  ghost predicate Safe(cfg: Config) {
    forall s :: Reachable(cfg, s) ==> MutualExclusion(cfg, s)
  }

  predicate LivesOutside(cfg: Config, c: Caller, p: Pid) {
    c in cfg.pidOf && cfg.pidOf[c] != p
  }

  /** Whichever lock-creating process exits, at most one caller lives outside it. */
  ghost predicate LoneSurvivor(cfg: Config) {
    forall p, c, d ::
      p in cfg.mayExit && p in cfg.pidOf.Values && LivesOutside(cfg, c, p) && LivesOutside(cfg, d, p) ==> c == d
  }

  // ----- the invariant -----

  predicate OwnsFile(pc: Pc) {
    pc.Opened? || pc.Held?
  }

  /** Lock files are numbered below the next one, and no two callers created the same. */
  ghost predicate FilesDistinct(s: State) {
    && (forall f :: f in s.texts ==> f < s.next)
    && (s.lock.Some? ==> s.lock.value in s.texts)
    && (forall c :: c in s.pc && OwnsFile(s.pc[c]) ==> s.pc[c].file in s.texts)
    && (forall c, d :: c in s.pc && d in s.pc && c != d && OwnsFile(s.pc[c]) && OwnsFile(s.pc[d]) ==>
          s.pc[c].file != s.pc[d].file)
  }

  /** c's file is the one the lock path names, and says so. */
  predicate Owns(cfg: Config, s: State, c: Caller)
    requires c in cfg.pidOf && c in s.pc && OwnsFile(s.pc[c])
  {
    && s.lock == Some(s.pc[c].file)
    && s.pc[c].file in s.texts
    && s.texts[s.pc[c].file] == if s.pc[c].Opened? then Blank else PidText(cfg.pidOf[c])
  }

  /** Every running owner's file is that. */
  ghost predicate OwnersKeepLock(cfg: Config, s: State) {
    forall c :: Inside(cfg, s, c) ==> Owns(cfg, s, c)
  }

  /** Pids seen in lock files belong to processes that created one. */
  ghost predicate PidsAreCreators(cfg: Config, s: State) {
    && s.pc.Keys == cfg.pidOf.Keys
    && s.creators <= cfg.pidOf.Values
    && (forall p :: p in s.creators && p !in s.alive ==> p in cfg.mayExit)
    && (forall c :: c in s.pc && OwnsFile(s.pc[c]) ==> cfg.pidOf[c] in s.creators)
    && (forall f :: f in s.texts && s.texts[f].PidText? ==> s.texts[f].pid in s.creators)
    && (forall c :: c in s.pc && s.pc[c].HolderRead? && s.pc[c].text.PidText? ==> s.pc[c].text.pid in s.creators)
    && (forall c :: c in s.pc && s.pc[c].HolderDead? ==> s.pc[c].pid in s.creators && s.pc[c].pid !in s.alive)
    && (cfg.atomic ==> forall c :: c in s.pc ==> !s.pc[c].HolderRead? && !s.pc[c].HolderDead?)
  }

  ghost predicate Inv(cfg: Config, s: State) {
    && FilesDistinct(s)
    && OwnersKeepLock(cfg, s)
    && PidsAreCreators(cfg, s)
  }

  lemma InvExcludes(cfg: Config, s: State)
    requires Inv(cfg, s)
    ensures MutualExclusion(cfg, s)
  {
  }

  /** Steps that only move c to a place without a file, perhaps emptying the lock path. */
  lemma MoveKeepsFiles(s: State, c: Caller, pc: Pc, lock: Option<nat>)
    requires FilesDistinct(s) && c in s.pc && !OwnsFile(pc) && (lock == s.lock || lock == None)
    ensures FilesDistinct(s.(lock := lock, pc := s.pc[c := pc]))
  {
  }

  /** Writing into c's own file while c keeps or leaves it. */
  lemma WriteKeepsFiles(s: State, c: Caller, pc: Pc, text: Text)
    requires FilesDistinct(s) && c in s.pc && s.pc[c].Opened?
    requires OwnsFile(pc) ==> pc.file == s.pc[c].file
    ensures FilesDistinct(s.(texts := s.texts[s.pc[c].file := text], pc := s.pc[c := pc]))
  {
  }

  lemma CreateKeepsFiles(cfg: Config, s: State, c: Caller)
    requires FilesDistinct(s) && Enabled(cfg, s, Create(c))
    ensures FilesDistinct(Apply(cfg, s, Create(c)))
  {
  }

  lemma StepKeepsFiles(cfg: Config, s: State, step: Step)
    requires FilesDistinct(s) && Enabled(cfg, s, step)
    ensures FilesDistinct(Apply(cfg, s, step))
  {
    var t := Apply(cfg, s, step);
    match step
    case Create(c) => CreateKeepsFiles(cfg, s, c);
    case WritePid(c) => WriteKeepsFiles(s, c, t.pc[c], PidText(cfg.pidOf[c]));
    case WriteFails(c, wrote) =>
      if wrote { WriteKeepsFiles(s, c, Out, PidText(cfg.pidOf[c])); } else { MoveKeepsFiles(s, c, Out, s.lock); }
    case Exit(_) =>
    case _ => MoveKeepsFiles(s, step.c, t.pc[step.c], t.lock);
  }

  /** Steps that only move their caller. */
  predicate OnlyMoves(step: Step) {
    step.Begin? || step.FindExisting? || step.ReadHolder? || step.TestHolder? || step.Retry? || step.Throw?
  }

  lemma MoveShape(cfg: Config, s: State, step: Step)
    requires Enabled(cfg, s, step) && OnlyMoves(step)
    ensures step.c in s.pc && Apply(cfg, s, step) == s.(pc := s.pc[step.c := Apply(cfg, s, step).pc[step.c]])
    ensures !OwnsFile(Apply(cfg, s, step).pc[step.c])
  {
  }

  /** Steps that only move c, perhaps emptying the lock path. */
  lemma MoveKeepsCreators(cfg: Config, s: State, c: Caller, pc: Pc, lock: Option<nat>)
    requires PidsAreCreators(cfg, s) && c in s.pc && !OwnsFile(pc)
    requires pc.HolderRead? && pc.text.PidText? ==> pc.text.pid in s.creators
    requires pc.HolderDead? ==> pc.pid in s.creators && pc.pid !in s.alive
    requires cfg.atomic ==> !pc.HolderRead? && !pc.HolderDead?
    ensures PidsAreCreators(cfg, s.(lock := lock, pc := s.pc[c := pc]))
  {
  }

  lemma WriteKeepsCreators(cfg: Config, s: State, c: Caller, pc: Pc)
    requires PidsAreCreators(cfg, s) && c in s.pc && s.pc[c].Opened? && (pc.Held? || pc.Out?)
    ensures PidsAreCreators(cfg, s.(texts := s.texts[s.pc[c].file := PidText(cfg.pidOf[c])], pc := s.pc[c := pc]))
  {
  }

  lemma CreateKeepsCreators(cfg: Config, s: State, c: Caller)
    requires PidsAreCreators(cfg, s) && Enabled(cfg, s, Create(c))
    ensures PidsAreCreators(cfg, Apply(cfg, s, Create(c)))
  {
    assert cfg.pidOf[c] in cfg.pidOf.Values;
  }

  lemma MoveStepKeepsCreators(cfg: Config, s: State, step: Step)
    requires PidsAreCreators(cfg, s) && Enabled(cfg, s, step) && OnlyMoves(step)
    ensures PidsAreCreators(cfg, Apply(cfg, s, step))
  {
    MoveShape(cfg, s, step);
    MoveKeepsCreators(cfg, s, step.c, Apply(cfg, s, step).pc[step.c], s.lock);
  }

  lemma StepKeepsCreators(cfg: Config, s: State, step: Step)
    requires PidsAreCreators(cfg, s) && Enabled(cfg, s, step)
    ensures PidsAreCreators(cfg, Apply(cfg, s, step))
  {
    if OnlyMoves(step) {
      MoveStepKeepsCreators(cfg, s, step);
    } else {
      match step
      case Create(c) => CreateKeepsCreators(cfg, s, c);
      case WritePid(c) => WriteKeepsCreators(cfg, s, c, Held(s.pc[c].file));
      case WriteFails(c, wrote) =>
        if wrote { WriteKeepsCreators(cfg, s, c, Out); } else { MoveKeepsCreators(cfg, s, c, Out, s.lock); }
      case RemoveStale(c) => MoveKeepsCreators(cfg, s, c, TryOpen, None);
      case Reclaim(c, _) =>
        MoveKeepsCreators(cfg, s, c, TryOpen, None);
        MoveKeepsCreators(cfg, s, c, Waiting, s.lock);
      case Release(c, removed) => MoveKeepsCreators(cfg, s, c, Out, if removed then None else s.lock);
      case _ =>
    }
  }

  /** A removal hits no running owner: the only caller left is the remover. */
  lemma {:induction false} RemovalHitsNoOwner(cfg: Config, s: State, c: Caller, owner: Caller)
    requires Inv(cfg, s) && LoneSurvivor(cfg) && Enabled(cfg, s, RemoveStale(c))
    ensures !Inside(cfg, s, owner)
  {
    if Running(cfg, s, owner) {
      assert LivesOutside(cfg, c, s.pc[c].pid) && LivesOutside(cfg, owner, s.pc[c].pid);
    }
  }

  /** Moving one caller to a place without a file, the lock path unchanged, disturbs no owner. */
  lemma MoveKeepsOwners(cfg: Config, s: State, c: Caller, pc: Pc)
    requires OwnersKeepLock(cfg, s) && c in s.pc && !OwnsFile(pc)
    ensures OwnersKeepLock(cfg, s.(pc := s.pc[c := pc]))
  {
    var t := s.(pc := s.pc[c := pc]);
    forall d | Inside(cfg, t, d) ensures Owns(cfg, t, d) { assert Inside(cfg, s, d); }
  }

  /** Emptying the lock path is harmless when c, who moves off its file, was the only one inside. */
  lemma EmptyKeepsOwners(cfg: Config, s: State, c: Caller, pc: Pc)
    requires c in s.pc && !OwnsFile(pc) && forall d :: Inside(cfg, s, d) ==> d == c
    ensures OwnersKeepLock(cfg, s.(lock := None, pc := s.pc[c := pc]))
  {
    var t := s.(lock := None, pc := s.pc[c := pc]);
    forall d | Inside(cfg, t, d) ensures Owns(cfg, t, d) { assert Inside(cfg, s, d); }
  }

  lemma CreateKeepsOwners(cfg: Config, s: State, c: Caller)
    requires OwnersKeepLock(cfg, s) && Enabled(cfg, s, Create(c))
    ensures OwnersKeepLock(cfg, Apply(cfg, s, Create(c)))
  {
    var t := Apply(cfg, s, Create(c));
    forall d | Inside(cfg, t, d) ensures Owns(cfg, t, d) { assert d != c ==> Inside(cfg, s, d); }
  }

  lemma WriteKeepsOwners(cfg: Config, s: State, c: Caller, pc: Pc)
    requires OwnersKeepLock(cfg, s) && FilesDistinct(s) && Running(cfg, s, c) && s.pc[c].Opened?
    requires pc == Held(s.pc[c].file) || pc == Out
    ensures OwnersKeepLock(cfg, s.(texts := s.texts[s.pc[c].file := PidText(cfg.pidOf[c])], pc := s.pc[c := pc]))
  {
    var t := s.(texts := s.texts[s.pc[c].file := PidText(cfg.pidOf[c])], pc := s.pc[c := pc]);
    assert Inside(cfg, s, c);
    forall d | Inside(cfg, t, d) ensures Owns(cfg, t, d) { assert Inside(cfg, s, d); }
  }

  /** Nobody running is inside a lock that a live test found dead: the file's creator is its only owner. */
  lemma DeadMeansNobody(cfg: Config, s: State, readable: bool, owner: Caller)
    requires Inv(cfg, s) && ProcessExists(HolderText(s, readable), s.alive) == Some(false)
    ensures !Inside(cfg, s, owner)
  {
  }

  lemma ReleaseKeepsOwners(cfg: Config, s: State, c: Caller, removed: bool)
    requires Inv(cfg, s) && Enabled(cfg, s, Release(c, removed))
    ensures OwnersKeepLock(cfg, Apply(cfg, s, Release(c, removed)))
  {
    if removed {
      InvExcludes(cfg, s);
      assert Inside(cfg, s, c);
      EmptyKeepsOwners(cfg, s, c, Out);
    } else {
      MoveKeepsOwners(cfg, s, c, Out);
    }
  }

  lemma ReclaimKeepsOwners(cfg: Config, s: State, c: Caller, readable: bool)
    requires Inv(cfg, s) && Enabled(cfg, s, Reclaim(c, readable))
    ensures OwnersKeepLock(cfg, Apply(cfg, s, Reclaim(c, readable)))
  {
    if ProcessExists(HolderText(s, readable), s.alive) == Some(false) {
      forall d ensures !Inside(cfg, s, d) { DeadMeansNobody(cfg, s, readable, d); }
      EmptyKeepsOwners(cfg, s, c, TryOpen);
    } else {
      MoveKeepsOwners(cfg, s, c, Waiting);
    }
  }

  lemma RemoveKeepsOwners(cfg: Config, s: State, c: Caller)
    requires Inv(cfg, s) && LoneSurvivor(cfg) && Enabled(cfg, s, RemoveStale(c))
    ensures OwnersKeepLock(cfg, Apply(cfg, s, RemoveStale(c)))
  {
    forall d ensures !Inside(cfg, s, d) { RemovalHitsNoOwner(cfg, s, c, d); }
    EmptyKeepsOwners(cfg, s, c, TryOpen);
  }

  lemma ExitKeepsOwners(cfg: Config, s: State, p: Pid)
    requires OwnersKeepLock(cfg, s) && Enabled(cfg, s, Exit(p))
    ensures OwnersKeepLock(cfg, Apply(cfg, s, Exit(p)))
  {
    var t := Apply(cfg, s, Exit(p));
    forall d | Inside(cfg, t, d) ensures Owns(cfg, t, d) { assert Inside(cfg, s, d); }
  }

  lemma MoveStepKeepsOwners(cfg: Config, s: State, step: Step)
    requires OwnersKeepLock(cfg, s) && Enabled(cfg, s, step) && OnlyMoves(step)
    ensures OwnersKeepLock(cfg, Apply(cfg, s, step))
  {
    MoveShape(cfg, s, step);
    MoveKeepsOwners(cfg, s, step.c, Apply(cfg, s, step).pc[step.c]);
  }

  lemma WriteStepKeepsOwners(cfg: Config, s: State, step: Step)
    requires OwnersKeepLock(cfg, s) && FilesDistinct(s) && Enabled(cfg, s, step) && (step.WritePid? || step.WriteFails?)
    ensures OwnersKeepLock(cfg, Apply(cfg, s, step))
  {
    var c := step.c;
    if step.WritePid? {
      WriteKeepsOwners(cfg, s, c, Held(s.pc[c].file));
    } else if step.wrote {
      WriteKeepsOwners(cfg, s, c, Out);
    } else {
      MoveKeepsOwners(cfg, s, c, Out);
    }
  }

  lemma StepKeepsOwners(cfg: Config, s: State, step: Step)
    requires Inv(cfg, s) && Enabled(cfg, s, step)
    requires cfg.atomic || LoneSurvivor(cfg)
    ensures OwnersKeepLock(cfg, Apply(cfg, s, step))
  {
    if OnlyMoves(step) {
      MoveStepKeepsOwners(cfg, s, step);
    } else if step.WritePid? || step.WriteFails? {
      WriteStepKeepsOwners(cfg, s, step);
    } else {
      match step
      case Create(c) => CreateKeepsOwners(cfg, s, c);
      case RemoveStale(c) => RemoveKeepsOwners(cfg, s, c);
      case Reclaim(c, readable) => ReclaimKeepsOwners(cfg, s, c, readable);
      case Release(c, removed) => ReleaseKeepsOwners(cfg, s, c, removed);
      case Exit(p) => ExitKeepsOwners(cfg, s, p);
    }
  }

  lemma StepKeepsInv(cfg: Config, s: State, step: Step)
    requires Inv(cfg, s) && Enabled(cfg, s, step)
    requires cfg.atomic || LoneSurvivor(cfg)
    ensures Inv(cfg, Apply(cfg, s, step))
  {
    StepKeepsFiles(cfg, s, step);
    StepKeepsCreators(cfg, s, step);
    StepKeepsOwners(cfg, s, step);
  }

  lemma {:induction false} RunKeepsInv(cfg: Config, s: State, steps: seq<Step>)
    requires Inv(cfg, s) && CanRun(cfg, s, steps)
    requires cfg.atomic || LoneSurvivor(cfg)
    ensures Inv(cfg, Run(cfg, s, steps))
    decreases |steps|
  {
    if steps != [] {
      StepKeepsInv(cfg, s, steps[0]);
      RunKeepsInv(cfg, Apply(cfg, s, steps[0]), steps[1..]);
    }
  }

  lemma InitInv(cfg: Config)
    ensures Inv(cfg, Init(cfg))
  {
  }

  /** Every reachable state of a sound configuration keeps the invariant. */
  lemma {:induction false} ReachableInv(cfg: Config, s: State)
    requires Reachable(cfg, s)
    requires cfg.atomic || LoneSurvivor(cfg)
    ensures Inv(cfg, s)
  {
    var steps :| CanRun(cfg, Init(cfg), steps) && Run(cfg, Init(cfg), steps) == s;
    InitInv(cfg);
    RunKeepsInv(cfg, Init(cfg), steps);
  }

  // ----- the failing run -----

  lemma {:induction false} RunExtends(cfg: Config, s: State, steps: seq<Step>, step: Step)
    requires CanRun(cfg, s, steps) && Enabled(cfg, Run(cfg, s, steps), step)
    ensures CanRun(cfg, s, steps + [step])
    ensures Run(cfg, s, steps + [step]) == Apply(cfg, Run(cfg, s, steps), step)
    decreases |steps|
  {
    var all := steps + [step];
    if steps == [] {
      assert all[1..] == [];
      assert CanRun(cfg, Apply(cfg, s, step), all[1..]);
    } else {
      assert all[0] == steps[0] && all[1..] == steps[1..] + [step];
      RunExtends(cfg, Apply(cfg, s, steps[0]), steps[1..], step);
    }
  }

  lemma StepReaches(cfg: Config, s: State, step: Step)
    requires Reachable(cfg, s) && Enabled(cfg, s, step)
    ensures Reachable(cfg, Apply(cfg, s, step))
  {
    var steps :| CanRun(cfg, Init(cfg), steps) && Run(cfg, Init(cfg), steps) == s;
    RunExtends(cfg, Init(cfg), steps, step);
  }

  lemma InitReachable(cfg: Config)
    ensures Reachable(cfg, Init(cfg))
  {
    assert CanRun(cfg, Init(cfg), []) && Run(cfg, Init(cfg), []) == Init(cfg);
  }

  /** The owner d and two callers outside its process, where that process may exit. */
  ghost predicate TwoOutside(cfg: Config, d: Caller, a: Caller, b: Caller) {
    && !cfg.atomic && d in cfg.pidOf && cfg.pidOf[d] in cfg.mayExit
    && a != b && LivesOutside(cfg, a, cfg.pidOf[d]) && LivesOutside(cfg, b, cfg.pidOf[d])
  }

  /** From the start, d takes the lock. */
  lemma TakesLock(cfg: Config, d: Caller) returns (s: State)
    requires d in cfg.pidOf
    ensures Reachable(cfg, s) && s.lock == Some(0) && 0 in s.texts && s.texts[0] == PidText(cfg.pidOf[d])
    ensures s.pc == Init(cfg).pc[d := Held(0)] && s.alive == cfg.pidOf.Values && s.creators == {cfg.pidOf[d]}
  {
    s := Init(cfg);
    InitReachable(cfg);
    assert cfg.pidOf[d] in cfg.pidOf.Values;
    StepReaches(cfg, s, Begin(d));    s := Apply(cfg, s, Begin(d));
    StepReaches(cfg, s, Create(d));   s := Apply(cfg, s, Create(d));
    StepReaches(cfg, s, WritePid(d)); s := Apply(cfg, s, WritePid(d));
  }

  /** A fresh caller finds the lock taken and reads the pid in it. */
  lemma ReadsPid(cfg: Config, s: State, c: Caller) returns (t: State)
    requires !cfg.atomic && Reachable(cfg, s) && Running(cfg, s, c) && s.pc[c].Out?
    requires s.lock.Some? && s.lock.value in s.texts
    ensures Reachable(cfg, t) && t == s.(pc := s.pc[c := HolderRead(s.texts[s.lock.value])])
  {
    StepReaches(cfg, s, Begin(c));            t := Apply(cfg, s, Begin(c));
    StepReaches(cfg, t, FindExisting(c));     t := Apply(cfg, t, FindExisting(c));
    StepReaches(cfg, t, ReadHolder(c, true)); t := Apply(cfg, t, ReadHolder(c, true));
  }

  /** d takes the lock, a and b read its pid, d's process exits. */
  lemma OwnerDiesUnderTwoReaders(cfg: Config, d: Caller, a: Caller, b: Caller) returns (s: State)
    requires TwoOutside(cfg, d, a, b)
    ensures Reachable(cfg, s)
    ensures Running(cfg, s, a) && s.pc[a] == HolderRead(PidText(cfg.pidOf[d]))
    ensures Running(cfg, s, b) && s.pc[b] == HolderRead(PidText(cfg.pidOf[d]))
    ensures cfg.pidOf[d] !in s.alive
  {
    assert cfg.pidOf[d] in cfg.pidOf.Values && cfg.pidOf[a] in cfg.pidOf.Values && cfg.pidOf[b] in cfg.pidOf.Values;
    s := TakesLock(cfg, d);
    s := ReadsPid(cfg, s, a);
    s := ReadsPid(cfg, s, b);
    StepReaches(cfg, s, Exit(cfg.pidOf[d])); s := Apply(cfg, s, Exit(cfg.pidOf[d]));
  }

  /** Then a reclaims and creates its own lock, b's removal deletes it, and b creates another. */
  lemma TwoInside(cfg: Config, d: Caller, a: Caller, b: Caller) returns (s: State)
    requires TwoOutside(cfg, d, a, b)
    ensures Reachable(cfg, s) && Inside(cfg, s, a) && Inside(cfg, s, b)
  {
    s := OwnerDiesUnderTwoReaders(cfg, d, a, b);
    StepReaches(cfg, s, TestHolder(a));  s := Apply(cfg, s, TestHolder(a));
    StepReaches(cfg, s, TestHolder(b));  s := Apply(cfg, s, TestHolder(b));
    StepReaches(cfg, s, RemoveStale(a)); s := Apply(cfg, s, RemoveStale(a));
    StepReaches(cfg, s, Create(a));      s := Apply(cfg, s, Create(a));
    StepReaches(cfg, s, RemoveStale(b)); s := Apply(cfg, s, RemoveStale(b));
    StepReaches(cfg, s, Create(b));      s := Apply(cfg, s, Create(b));
  }

  // ----- the main result -----

  /**
   * With the holder read, the liveness test and the removal as separate steps,
   * mutual exclusion holds in every run exactly when no lock-creating process
   * that may exit leaves two callers outside it.  Taken as one step it always holds.
   */
  lemma MutualExclusionExactly(cfg: Config)
    ensures Safe(cfg) <==> cfg.atomic || LoneSurvivor(cfg)
  {
    if cfg.atomic || LoneSurvivor(cfg) {
      forall s | Reachable(cfg, s) ensures MutualExclusion(cfg, s) {
        ReachableInv(cfg, s);
        InvExcludes(cfg, s);
      }
    } else {
      var p, a, b :| p in cfg.mayExit && p in cfg.pidOf.Values && LivesOutside(cfg, a, p) && LivesOutside(cfg, b, p) &&
                     a != b;
      var d :| d in cfg.pidOf && cfg.pidOf[d] == p;
      var s := TwoInside(cfg, d, a, b);
      assert !MutualExclusion(cfg, s);
    }
  }

  /** As long as no process exits after creating a lock, any number may race. */
  lemma SafeWhileNoCreatorExits(cfg: Config)
    requires cfg.mayExit == {}
    ensures Safe(cfg)
  {
    MutualExclusionExactly(cfg);
  }

  // ----- when anybody can still get in -----

  /** p has exited or may exit yet. */
  predicate MayGo(cfg: Config, s: State, p: Pid) {
    p !in s.alive || p !in s.creators || p in cfg.mayExit
  }

  /** The text names a process other than c's own that has gone or may go. */
  predicate Reclaimable(cfg: Config, s: State, c: Caller, text: Text)
    requires c in cfg.pidOf
  {
    text.PidText? && MayGo(cfg, s, text.pid) && cfg.pidOf[c] != text.pid
  }

  /**
   * c runs and is inside, finds no lock, is about to remove it, has read a pid that makes it remove it,
   * or would read one.
   */
  predicate Hopeful(cfg: Config, s: State, c: Caller) {
    && Running(cfg, s, c)
    && (|| OwnsFile(s.pc[c])
        || s.lock.None?
        || s.pc[c].HolderDead?
        || (s.pc[c].HolderRead? && Reclaimable(cfg, s, c, s.pc[c].text))
        || (s.lock.value in s.texts && Reclaimable(cfg, s, c, s.texts[s.lock.value])))
  }

  /** Some continuation puts some caller inside. */
  ghost predicate MayEnter(cfg: Config, s: State) {
    exists steps, c :: CanRun(cfg, s, steps) && Inside(cfg, Run(cfg, s, steps), c)
  }

  /** What every run keeps: the callers, a lock path that names a file, no separate reading when reclaim is atomic. */
  ghost predicate WellKept(cfg: Config, s: State) {
    && s.pc.Keys == cfg.pidOf.Keys
    && (s.lock.Some? ==> s.lock.value in s.texts)
    && (cfg.atomic ==> forall c :: c in s.pc ==> !s.pc[c].HolderRead?)
  }

  lemma StepKeepsWell(cfg: Config, s: State, step: Step)
    requires WellKept(cfg, s) && Enabled(cfg, s, step)
    ensures WellKept(cfg, Apply(cfg, s, step))
  {
    if OnlyMoves(step) { MoveShape(cfg, s, step); }
  }

  lemma {:induction false} RunKeepsWell(cfg: Config, s: State, steps: seq<Step>)
    requires WellKept(cfg, s) && CanRun(cfg, s, steps)
    ensures WellKept(cfg, Run(cfg, s, steps))
    decreases |steps|
  {
    if steps != [] {
      StepKeepsWell(cfg, s, steps[0]);
      RunKeepsWell(cfg, Apply(cfg, s, steps[0]), steps[1..]);
    }
  }

  lemma ReachableWell(cfg: Config, s: State)
    requires Reachable(cfg, s)
    ensures WellKept(cfg, s)
  {
    var steps :| CanRun(cfg, Init(cfg), steps) && Run(cfg, Init(cfg), steps) == s;
    RunKeepsWell(cfg, Init(cfg), steps);
  }

  // hope is needed

  ghost predicate NoHope(cfg: Config, s: State) {
    forall c :: !Hopeful(cfg, s, c)
  }

  /** A step of c that leaves the lock and all else as it is gives c no hope it did not have. */
  lemma MoveGivesNoHope(cfg: Config, s: State, step: Step)
    requires WellKept(cfg, s) && NoHope(cfg, s) && Enabled(cfg, s, step) && OnlyMoves(step)
    ensures !Hopeful(cfg, Apply(cfg, s, step), step.c)
  {
    assert !Hopeful(cfg, s, step.c);
  }

  lemma StepGivesNoHope(cfg: Config, s: State, step: Step)
    requires WellKept(cfg, s) && NoHope(cfg, s) && Enabled(cfg, s, step)
    ensures NoHope(cfg, Apply(cfg, s, step))
  {
    var t := Apply(cfg, s, step);
    if step.Exit? {
      forall c ensures !Hopeful(cfg, t, c) { ExitGivesNoHope(cfg, s, step.pid, c); }
    } else {
      assert !Hopeful(cfg, s, step.c);
      StillThere(cfg, s, step);
      forall c ensures !Hopeful(cfg, t, c) {
        assert !Hopeful(cfg, s, c);
        if OnlyMoves(step) { MoveGivesNoHope(cfg, s, step); }
      }
    }
  }

  lemma ExitGivesNoHope(cfg: Config, s: State, p: Pid, c: Caller)
    requires WellKept(cfg, s) && NoHope(cfg, s) && Enabled(cfg, s, Exit(p))
    ensures !Hopeful(cfg, Apply(cfg, s, Exit(p)), c)
  {
    assert !Hopeful(cfg, s, c);
  }

  /** Without hope only moves and failed reclaims happen: all but the step's own caller stay as they are. */
  lemma StillThere(cfg: Config, s: State, step: Step)
    requires WellKept(cfg, s) && NoHope(cfg, s) && Enabled(cfg, s, step) && !step.Exit?
    ensures OnlyMoves(step) || step.Reclaim?
    ensures Apply(cfg, s, step) == s.(pc := Apply(cfg, s, step).pc)
    ensures step.c in s.pc && Apply(cfg, s, step).pc == s.pc[step.c := Apply(cfg, s, step).pc[step.c]]
    ensures step.Reclaim? ==> Apply(cfg, s, step).pc[step.c].Waiting?
  {
    assert !Hopeful(cfg, s, step.c);
  }

  lemma {:induction false} NoHopeStays(cfg: Config, s: State, steps: seq<Step>)
    requires WellKept(cfg, s) && NoHope(cfg, s) && CanRun(cfg, s, steps)
    ensures NoHope(cfg, Run(cfg, s, steps))
    decreases |steps|
  {
    if steps != [] {
      StepKeepsWell(cfg, s, steps[0]);
      StepGivesNoHope(cfg, s, steps[0]);
      NoHopeStays(cfg, Apply(cfg, s, steps[0]), steps[1..]);
    }
  }

  // hope is enough

  lemma EnterAfter(cfg: Config, s: State, step: Step)
    requires Enabled(cfg, s, step) && MayEnter(cfg, Apply(cfg, s, step))
    ensures MayEnter(cfg, s)
  {
    var t := Apply(cfg, s, step);
    var steps, c :| CanRun(cfg, t, steps) && Inside(cfg, Run(cfg, t, steps), c);
    var all := [step] + steps;
    assert all[0] == step && all[1..] == steps;
    assert CanRun(cfg, s, all) && Run(cfg, s, all) == Run(cfg, t, steps);
  }

  lemma InsideEnters(cfg: Config, s: State, c: Caller)
    requires Inside(cfg, s, c)
    ensures MayEnter(cfg, s)
  {
    assert CanRun(cfg, s, []) && Run(cfg, s, []) == s;
  }

  /** A free lock can be created by a caller that is about to try. */
  lemma TriesFree(cfg: Config, s: State, c: Caller)
    requires Running(cfg, s, c) && s.pc[c].TryOpen? && s.lock.None?
    ensures MayEnter(cfg, s)
  {
    InsideEnters(cfg, Apply(cfg, s, Create(c)), c);
    EnterAfter(cfg, s, Create(c));
  }

  lemma RemovesAndEnters(cfg: Config, s: State, c: Caller)
    requires Running(cfg, s, c) && s.pc[c].HolderDead?
    ensures MayEnter(cfg, s)
  {
    TriesFree(cfg, Apply(cfg, s, RemoveStale(c)), c);
    EnterAfter(cfg, s, RemoveStale(c));
  }

  lemma DeadReadEnters(cfg: Config, s: State, c: Caller)
    requires Running(cfg, s, c) && s.pc[c].HolderRead? && s.pc[c].text.PidText? && s.pc[c].text.pid !in s.alive
    ensures MayEnter(cfg, s)
  {
    RemovesAndEnters(cfg, Apply(cfg, s, TestHolder(c)), c);
    EnterAfter(cfg, s, TestHolder(c));
  }

  /** The process whose pid was read exits if it has not, then its lock is removed. */
  lemma ReadEnters(cfg: Config, s: State, c: Caller)
    requires Running(cfg, s, c) && s.pc[c].HolderRead? && Reclaimable(cfg, s, c, s.pc[c].text)
    ensures MayEnter(cfg, s)
  {
    var p := s.pc[c].text.pid;
    if p in s.alive {
      DeadReadEnters(cfg, Apply(cfg, s, Exit(p)), c);
      EnterAfter(cfg, s, Exit(p));
    } else {
      DeadReadEnters(cfg, s, c);
    }
  }

  /** The state with c elsewhere. */
  function At(s: State, c: Caller, pc: Pc): State {
    s.(pc := s.pc[c := pc])
  }

  /** A caller that does not own a file can always come to try again. */
  lemma ComesToTry(cfg: Config, s: State, c: Caller)
    requires Running(cfg, s, c) && !OwnsFile(s.pc[c]) && (cfg.atomic ==> !s.pc[c].HolderRead?)
    requires MayEnter(cfg, At(s, c, TryOpen))
    ensures MayEnter(cfg, s)
  {
    var pc := s.pc[c];
    match pc
    case TryOpen => assert At(s, c, TryOpen) == s;
    case Out =>
      assert Apply(cfg, s, Begin(c)) == At(s, c, TryOpen);
      EnterAfter(cfg, s, Begin(c));
    case Waiting => WaitingComesToTry(cfg, s, c);
    case HolderDead(_) => RemovesAndEnters(cfg, s, c);
    case HolderRead(_) => ReaderComesToTry(cfg, s, c);
    case Blocked => BlockedComesToTry(cfg, s, c);
  }

  lemma WaitingComesToTry(cfg: Config, s: State, c: Caller)
    requires Running(cfg, s, c) && s.pc[c].Waiting? && MayEnter(cfg, At(s, c, TryOpen))
    ensures MayEnter(cfg, s)
  {
    assert Apply(cfg, s, Retry(c)) == At(s, c, TryOpen);
    EnterAfter(cfg, s, Retry(c));
  }

  lemma ReaderComesToTry(cfg: Config, s: State, c: Caller)
    requires Running(cfg, s, c) && s.pc[c].HolderRead? && MayEnter(cfg, At(s, c, TryOpen))
    ensures MayEnter(cfg, s)
  {
    var t := Apply(cfg, s, TestHolder(c));
    if t.pc[c].HolderDead? {
      RemovesAndEnters(cfg, t, c);
    } else {
      assert At(t, c, TryOpen) == At(s, c, TryOpen);
      WaitingComesToTry(cfg, t, c);
    }
    EnterAfter(cfg, s, TestHolder(c));
  }

  /** An unreadable lock file is waited for. */
  lemma BlockedComesToTry(cfg: Config, s: State, c: Caller)
    requires Running(cfg, s, c) && s.pc[c].Blocked? && MayEnter(cfg, At(s, c, TryOpen))
    ensures MayEnter(cfg, s)
  {
    if cfg.atomic {
      var t := Apply(cfg, s, Reclaim(c, false));
      assert At(t, c, TryOpen) == At(s, c, TryOpen);
      WaitingComesToTry(cfg, t, c);
      EnterAfter(cfg, s, Reclaim(c, false));
    } else {
      var t := Apply(cfg, s, ReadHolder(c, false));
      assert At(t, c, TryOpen) == At(s, c, TryOpen);
      ReaderComesToTry(cfg, t, c);
      EnterAfter(cfg, s, ReadHolder(c, false));
    }
  }

  /** A lock that names a process that has gone, or may go, can be reclaimed by a caller of another. */
  lemma ReclaimsAndEnters(cfg: Config, s: State, c: Caller)
    requires Running(cfg, s, c) && s.pc[c].Blocked? && s.lock.Some? && s.lock.value in s.texts
    requires Reclaimable(cfg, s, c, s.texts[s.lock.value])
    ensures MayEnter(cfg, s)
  {
    var p := s.texts[s.lock.value].pid;
    if !cfg.atomic {
      ReadEnters(cfg, Apply(cfg, s, ReadHolder(c, true)), c);
      EnterAfter(cfg, s, ReadHolder(c, true));
    } else if p in s.alive {
      DeadReclaimEnters(cfg, Apply(cfg, s, Exit(p)), c);
      EnterAfter(cfg, s, Exit(p));
    } else {
      DeadReclaimEnters(cfg, s, c);
    }
  }

  lemma DeadReclaimEnters(cfg: Config, s: State, c: Caller)
    requires cfg.atomic && Running(cfg, s, c) && s.pc[c].Blocked? && s.lock.Some? && s.lock.value in s.texts
    requires s.texts[s.lock.value].PidText? && s.texts[s.lock.value].pid !in s.alive
    ensures MayEnter(cfg, s)
  {
    TriesFree(cfg, Apply(cfg, s, Reclaim(c, true)), c);
    EnterAfter(cfg, s, Reclaim(c, true));
  }

  lemma LockNamesGoer(cfg: Config, s: State, c: Caller)
    requires Running(cfg, s, c) && s.pc[c].TryOpen? && s.lock.Some? && s.lock.value in s.texts
    requires Reclaimable(cfg, s, c, s.texts[s.lock.value])
    ensures MayEnter(cfg, s)
  {
    ReclaimsAndEnters(cfg, Apply(cfg, s, FindExisting(c)), c);
    EnterAfter(cfg, s, FindExisting(c));
  }

  lemma HopefulEnters(cfg: Config, s: State, c: Caller)
    requires WellKept(cfg, s) && Hopeful(cfg, s, c)
    ensures MayEnter(cfg, s)
  {
    var t := At(s, c, TryOpen);
    if OwnsFile(s.pc[c]) {
      InsideEnters(cfg, s, c);
    } else if s.pc[c].HolderDead? {
      RemovesAndEnters(cfg, s, c);
    } else if s.lock.None? {
      TriesFree(cfg, t, c);
      ComesToTry(cfg, s, c);
    } else if s.pc[c].HolderRead? && Reclaimable(cfg, s, c, s.pc[c].text) {
      ReadEnters(cfg, s, c);
    } else {
      LockNamesGoer(cfg, t, c);
      ComesToTry(cfg, s, c);
    }
  }

  /**
   * Some continuation lets some caller in if and only if some running caller is inside, finds no lock, or
   * has read, would read or is about to act on the pid of another process that has exited or may exit.
   */
  lemma MayEnterExactly(cfg: Config, s: State)
    requires WellKept(cfg, s)
    ensures MayEnter(cfg, s) <==> exists c :: Hopeful(cfg, s, c)
  {
    if c :| Hopeful(cfg, s, c) {
      HopefulEnters(cfg, s, c);
    }
    if MayEnter(cfg, s) && NoHope(cfg, s) {
      var steps, c :| CanRun(cfg, s, steps) && Inside(cfg, Run(cfg, s, steps), c);
      NoHopeStays(cfg, s, steps);
      assert Hopeful(cfg, Run(cfg, s, steps), c);
    }
  }

  // ----- when a given caller can still get in -----

  /** Some running caller is inside, is about to remove the lock, or has read a pid that makes it remove it. */
  predicate Frees(cfg: Config, s: State, c: Caller, d: Caller)
    requires d in cfg.pidOf
  {
    && Running(cfg, s, c)
    && (|| OwnsFile(s.pc[c])
        || s.pc[c].HolderDead?
        || (s.pc[c].HolderRead? && Reclaimable(cfg, s, c, s.pc[c].text) && Reclaimable(cfg, s, d, s.pc[c].text)))
  }

  /** d runs, and the lock is free, can be freed by some caller while d runs on, or can be reclaimed by d. */
  ghost predicate HopefulFor(cfg: Config, s: State, d: Caller) {
    && Running(cfg, s, d)
    && (|| s.lock.None?
        || (exists c :: Frees(cfg, s, c, d))
        || (s.lock.value in s.texts && Reclaimable(cfg, s, d, s.texts[s.lock.value])))
  }

  /** Some continuation puts d inside. */
  ghost predicate MayEnterAs(cfg: Config, s: State, d: Caller) {
    exists steps :: CanRun(cfg, s, steps) && Inside(cfg, Run(cfg, s, steps), d)
  }

  lemma EntersAfter(cfg: Config, s: State, step: Step, d: Caller)
    requires Enabled(cfg, s, step) && MayEnterAs(cfg, Apply(cfg, s, step), d)
    ensures MayEnterAs(cfg, s, d)
  {
    var t := Apply(cfg, s, step);
    var steps :| CanRun(cfg, t, steps) && Inside(cfg, Run(cfg, t, steps), d);
    var all := [step] + steps;
    assert all[0] == step && all[1..] == steps;
    assert CanRun(cfg, s, all) && Run(cfg, s, all) == Run(cfg, t, steps);
  }

  lemma IsInside(cfg: Config, s: State, d: Caller)
    requires Inside(cfg, s, d)
    ensures MayEnterAs(cfg, s, d)
  {
    assert CanRun(cfg, s, []) && Run(cfg, s, []) == s;
  }

  /** A free lock is created by whoever comes to try. */
  lemma CreatesFree(cfg: Config, s: State, d: Caller)
    requires Running(cfg, s, d) && s.pc[d].TryOpen? && s.lock.None?
    ensures MayEnterAs(cfg, s, d)
  {
    IsInside(cfg, Apply(cfg, s, Create(d)), d);
    EntersAfter(cfg, s, Create(d), d);
  }

  lemma WaitsAndCreates(cfg: Config, s: State, d: Caller)
    requires Running(cfg, s, d) && s.pc[d].Waiting? && s.lock.None?
    ensures MayEnterAs(cfg, s, d)
  {
    CreatesFree(cfg, Apply(cfg, s, Retry(d)), d);
    EntersAfter(cfg, s, Retry(d), d);
  }

  lemma TestsAndCreates(cfg: Config, s: State, d: Caller)
    requires Running(cfg, s, d) && s.pc[d].HolderRead? && s.lock.None?
    ensures MayEnterAs(cfg, s, d)
  {
    var t := Apply(cfg, s, TestHolder(d));
    if t.pc[d].HolderDead? {
      CreatesFree(cfg, Apply(cfg, t, RemoveStale(d)), d);
      EntersAfter(cfg, t, RemoveStale(d), d);
    } else {
      WaitsAndCreates(cfg, t, d);
    }
    EntersAfter(cfg, s, TestHolder(d), d);
  }

  lemma ReadsAndCreates(cfg: Config, s: State, d: Caller)
    requires Running(cfg, s, d) && s.pc[d].Blocked? && s.lock.None?
    ensures MayEnterAs(cfg, s, d)
  {
    if cfg.atomic {
      WaitsAndCreates(cfg, Apply(cfg, s, Reclaim(d, false)), d);
      EntersAfter(cfg, s, Reclaim(d, false), d);
    } else {
      TestsAndCreates(cfg, Apply(cfg, s, ReadHolder(d, false)), d);
      EntersAfter(cfg, s, ReadHolder(d, false), d);
    }
  }

  /** Wherever d is, it gets to create a free lock. */
  lemma FreeEnters(cfg: Config, s: State, d: Caller)
    requires Running(cfg, s, d) && s.lock.None?
    ensures MayEnterAs(cfg, s, d)
  {
    match s.pc[d]
    case Out =>
      CreatesFree(cfg, Apply(cfg, s, Begin(d)), d);
      EntersAfter(cfg, s, Begin(d), d);
    case TryOpen => CreatesFree(cfg, s, d);
    case Opened(_) => IsInside(cfg, s, d);
    case Held(_) => IsInside(cfg, s, d);
    case Blocked => ReadsAndCreates(cfg, s, d);
    case HolderRead(_) => TestsAndCreates(cfg, s, d);
    case HolderDead(_) =>
      CreatesFree(cfg, Apply(cfg, s, RemoveStale(d)), d);
      EntersAfter(cfg, s, RemoveStale(d), d);
    case Waiting => WaitsAndCreates(cfg, s, d);
  }

  /** An owner's release frees the lock for d. */
  lemma ReleaseLetsIn(cfg: Config, s: State, c: Caller, d: Caller)
    requires Running(cfg, s, c) && s.pc[c].Held? && Running(cfg, s, d)
    ensures MayEnterAs(cfg, s, d)
  {
    FreeEnters(cfg, Apply(cfg, s, Release(c, true)), d);
    EntersAfter(cfg, s, Release(c, true), d);
  }

  lemma OwnerLetsIn(cfg: Config, s: State, c: Caller, d: Caller)
    requires Running(cfg, s, c) && OwnsFile(s.pc[c]) && Running(cfg, s, d)
    ensures MayEnterAs(cfg, s, d)
  {
    if s.pc[c].Opened? {
      ReleaseLetsIn(cfg, Apply(cfg, s, WritePid(c)), c, d);
      EntersAfter(cfg, s, WritePid(c), d);
    } else {
      ReleaseLetsIn(cfg, s, c, d);
    }
  }

  lemma RemoverLetsIn(cfg: Config, s: State, c: Caller, d: Caller)
    requires Running(cfg, s, c) && s.pc[c].HolderDead? && Running(cfg, s, d)
    ensures MayEnterAs(cfg, s, d)
  {
    FreeEnters(cfg, Apply(cfg, s, RemoveStale(c)), d);
    EntersAfter(cfg, s, RemoveStale(c), d);
  }

  lemma TesterLetsIn(cfg: Config, s: State, c: Caller, d: Caller)
    requires Running(cfg, s, c) && Running(cfg, s, d)
    requires s.pc[c].HolderRead? && s.pc[c].text.PidText? && s.pc[c].text.pid !in s.alive
    ensures MayEnterAs(cfg, s, d)
  {
    RemoverLetsIn(cfg, Apply(cfg, s, TestHolder(c)), c, d);
    EntersAfter(cfg, s, TestHolder(c), d);
  }

  lemma ReaderLetsIn(cfg: Config, s: State, c: Caller, d: Caller)
    requires Running(cfg, s, c) && Running(cfg, s, d) && s.pc[c].HolderRead?
    requires Reclaimable(cfg, s, c, s.pc[c].text) && Reclaimable(cfg, s, d, s.pc[c].text)
    ensures MayEnterAs(cfg, s, d)
  {
    var p := s.pc[c].text.pid;
    if p in s.alive {
      TesterLetsIn(cfg, Apply(cfg, s, Exit(p)), c, d);
      EntersAfter(cfg, s, Exit(p), d);
    } else {
      TesterLetsIn(cfg, s, c, d);
    }
  }

  /** d itself reclaims a lock that names a process that has gone. */
  lemma BlockedReclaims(cfg: Config, s: State, d: Caller)
    requires Running(cfg, s, d) && s.pc[d].Blocked? && s.lock.Some? && s.lock.value in s.texts
    requires s.texts[s.lock.value].PidText? && s.texts[s.lock.value].pid !in s.alive
    ensures MayEnterAs(cfg, s, d)
  {
    if cfg.atomic {
      CreatesFree(cfg, Apply(cfg, s, Reclaim(d, true)), d);
      EntersAfter(cfg, s, Reclaim(d, true), d);
    } else {
      TesterLetsIn(cfg, Apply(cfg, s, ReadHolder(d, true)), d, d);
      EntersAfter(cfg, s, ReadHolder(d, true), d);
    }
  }

  lemma TryReclaims(cfg: Config, s: State, d: Caller)
    requires Running(cfg, s, d) && s.pc[d].TryOpen? && s.lock.Some? && s.lock.value in s.texts
    requires s.texts[s.lock.value].PidText? && s.texts[s.lock.value].pid !in s.alive
    ensures MayEnterAs(cfg, s, d)
  {
    BlockedReclaims(cfg, Apply(cfg, s, FindExisting(d)), d);
    EntersAfter(cfg, s, FindExisting(d), d);
  }

  lemma WaitsAndReclaims(cfg: Config, s: State, d: Caller)
    requires Running(cfg, s, d) && s.pc[d].Waiting? && s.lock.Some? && s.lock.value in s.texts
    requires s.texts[s.lock.value].PidText? && s.texts[s.lock.value].pid !in s.alive
    ensures MayEnterAs(cfg, s, d)
  {
    TryReclaims(cfg, Apply(cfg, s, Retry(d)), d);
    EntersAfter(cfg, s, Retry(d), d);
  }

  /** Wherever d is, it comes to reclaim such a lock. */
  lemma DeadLockEnters(cfg: Config, s: State, d: Caller)
    requires Running(cfg, s, d) && s.lock.Some? && s.lock.value in s.texts
    requires s.texts[s.lock.value].PidText? && s.texts[s.lock.value].pid !in s.alive
    ensures MayEnterAs(cfg, s, d)
  {
    match s.pc[d]
    case Out =>
      TryReclaims(cfg, Apply(cfg, s, Begin(d)), d);
      EntersAfter(cfg, s, Begin(d), d);
    case TryOpen => TryReclaims(cfg, s, d);
    case Opened(_) => IsInside(cfg, s, d);
    case Held(_) => IsInside(cfg, s, d);
    case Blocked => BlockedReclaims(cfg, s, d);
    case HolderRead(_) =>
      var t := Apply(cfg, s, TestHolder(d));
      if t.pc[d].HolderDead? { RemoverLetsIn(cfg, t, d, d); } else { WaitsAndReclaims(cfg, t, d); }
      EntersAfter(cfg, s, TestHolder(d), d);
    case HolderDead(_) => RemoverLetsIn(cfg, s, d, d);
    case Waiting => WaitsAndReclaims(cfg, s, d);
  }

  lemma HopefulForEnters(cfg: Config, s: State, d: Caller)
    requires WellKept(cfg, s) && HopefulFor(cfg, s, d)
    ensures MayEnterAs(cfg, s, d)
  {
    if s.lock.None? {
      FreeEnters(cfg, s, d);
    } else if c :| Frees(cfg, s, c, d) {
      if OwnsFile(s.pc[c]) {
        OwnerLetsIn(cfg, s, c, d);
      } else if s.pc[c].HolderDead? {
        RemoverLetsIn(cfg, s, c, d);
      } else {
        ReaderLetsIn(cfg, s, c, d);
      }
    } else {
      var p := s.texts[s.lock.value].pid;
      if p in s.alive {
        DeadLockEnters(cfg, Apply(cfg, s, Exit(p)), d);
        EntersAfter(cfg, s, Exit(p), d);
      } else {
        DeadLockEnters(cfg, s, d);
      }
    }
  }

  /** Without hope for a running d, only moves and failed reclaims happen. */
  lemma StaysForD(cfg: Config, s: State, step: Step, d: Caller)
    requires WellKept(cfg, s) && Running(cfg, s, d) && !HopefulFor(cfg, s, d) && Enabled(cfg, s, step) && !step.Exit?
    ensures OnlyMoves(step) || step.Reclaim?
    ensures Apply(cfg, s, step) == s.(pc := Apply(cfg, s, step).pc)
    ensures step.c in s.pc && Apply(cfg, s, step).pc == s.pc[step.c := Apply(cfg, s, step).pc[step.c]]
    ensures step.Reclaim? ==> Apply(cfg, s, step).pc[step.c].Waiting?
  {
    assert !Frees(cfg, s, step.c, d);
  }

  /** A move frees nothing for d that was not free before. */
  lemma MoveFreesNothing(cfg: Config, s: State, step: Step, d: Caller)
    requires WellKept(cfg, s) && Running(cfg, s, d) && !HopefulFor(cfg, s, d)
    requires Enabled(cfg, s, step) && OnlyMoves(step)
    ensures !Frees(cfg, Apply(cfg, s, step), step.c, d)
  {
    assert !Frees(cfg, s, step.c, d);
  }

  lemma StepGivesNone(cfg: Config, s: State, step: Step, d: Caller)
    requires WellKept(cfg, s) && !HopefulFor(cfg, s, d) && Enabled(cfg, s, step)
    ensures !HopefulFor(cfg, Apply(cfg, s, step), d)
  {
    var t := Apply(cfg, s, step);
    if Running(cfg, s, d) && Running(cfg, t, d) {
      if !step.Exit? { StaysForD(cfg, s, step, d); }
      forall c ensures !Frees(cfg, t, c, d) {
        assert !Frees(cfg, s, c, d);
        if OnlyMoves(step) { MoveFreesNothing(cfg, s, step, d); }
      }
    }
  }

  lemma {:induction false} NoneStays(cfg: Config, s: State, steps: seq<Step>, d: Caller)
    requires WellKept(cfg, s) && !HopefulFor(cfg, s, d) && CanRun(cfg, s, steps)
    ensures !HopefulFor(cfg, Run(cfg, s, steps), d)
    decreases |steps|
  {
    if steps != [] {
      StepKeepsWell(cfg, s, steps[0]);
      StepGivesNone(cfg, s, steps[0], d);
      NoneStays(cfg, Apply(cfg, s, steps[0]), steps[1..], d);
    }
  }

  /**
   * d can still get in if and only if it runs and the lock is free, some running caller will free it while d runs
   * on (by releasing it, or by removing it on account of another process than d's), or d can reclaim it.
   */
  lemma MayEnterAsExactly(cfg: Config, s: State, d: Caller)
    requires WellKept(cfg, s)
    ensures MayEnterAs(cfg, s, d) <==> HopefulFor(cfg, s, d)
  {
    if HopefulFor(cfg, s, d) {
      HopefulForEnters(cfg, s, d);
    } else if steps :| CanRun(cfg, s, steps) && Inside(cfg, Run(cfg, s, steps), d) {
      NoneStays(cfg, s, steps, d);
      assert Frees(cfg, Run(cfg, s, steps), d, d);
    }
  }

  /** The lock passes from one caller to another with every process running. */
  lemma HandsOver(cfg: Config, c: Caller, d: Caller) returns (s: State)
    requires c in cfg.pidOf && d in cfg.pidOf && c != d
    ensures Reachable(cfg, s) && s.alive == cfg.pidOf.Values && cfg.pidOf[c] in s.creators
    ensures c in s.pc && d in s.pc && s.pc[c].Out? && s.pc[d].Held? && s.lock == Some(s.pc[d].file)
    ensures s.lock.value in s.texts && s.texts[s.lock.value] == PidText(cfg.pidOf[d])
  {
    s := TakesLock(cfg, c);
    assert cfg.pidOf[c] in cfg.pidOf.Values && cfg.pidOf[d] in cfg.pidOf.Values;
    StepReaches(cfg, s, Release(c, true)); s := Apply(cfg, s, Release(c, true));
    StepReaches(cfg, s, Begin(d));         s := Apply(cfg, s, Begin(d));
    StepReaches(cfg, s, Create(d));        s := Apply(cfg, s, Create(d));
    StepReaches(cfg, s, WritePid(d));      s := Apply(cfg, s, WritePid(d));
  }

  /** d has found the lock held by c. */
  lemma FindsHeld(cfg: Config, c: Caller, d: Caller) returns (s: State)
    requires c in cfg.pidOf && d in cfg.pidOf && c != d
    ensures Reachable(cfg, s) && s.alive == cfg.pidOf.Values && Running(cfg, s, d) && Running(cfg, s, c)
    ensures s.pc[d].Blocked? && s.pc[c].Held? && HolderText(s, true) == PidText(cfg.pidOf[c])
  {
    s := TakesLock(cfg, c);
    assert cfg.pidOf[c] in cfg.pidOf.Values && cfg.pidOf[d] in cfg.pidOf.Values;
    StepReaches(cfg, s, Begin(d));        s := Apply(cfg, s, Begin(d));
    StepReaches(cfg, s, FindExisting(d)); s := Apply(cfg, s, FindExisting(d));
  }

  /** A caller that finds the lock held by a living process waits, tries again, or gives up and leaves all as it was. */
  lemma GivesUp(cfg: Config, c: Caller, d: Caller) returns (s: State)
    requires c in cfg.pidOf && d in cfg.pidOf && c != d
    ensures Reachable(cfg, s) && s.alive == cfg.pidOf.Values
    ensures c in s.pc && d in s.pc && s.pc[d].Waiting? && s.pc[c].Held?
    ensures Enabled(cfg, s, Retry(d)) && Apply(cfg, s, Retry(d)) == s.(pc := s.pc[d := TryOpen])
    ensures Enabled(cfg, s, Throw(d)) && Apply(cfg, s, Throw(d)) == s.(pc := s.pc[d := Out])
  {
    s := FindsHeld(cfg, c, d);
    if cfg.atomic {
      StepReaches(cfg, s, Reclaim(d, true)); s := Apply(cfg, s, Reclaim(d, true));
    } else {
      StepReaches(cfg, s, ReadHolder(d, true)); s := Apply(cfg, s, ReadHolder(d, true));
      StepReaches(cfg, s, TestHolder(d));       s := Apply(cfg, s, TestHolder(d));
    }
  }

  /** A lock file that cannot be read is waited for, whoever owns it: its holder is never taken for dead. */
  lemma UnreadableWaits(cfg: Config, s: State, d: Caller) returns (steps: seq<Step>)
    requires Running(cfg, s, d) && s.pc[d].Blocked?
    ensures CanRun(cfg, s, steps) && Run(cfg, s, steps) == s.(pc := s.pc[d := Waiting])
    ensures steps == if cfg.atomic then [Reclaim(d, false)] else [ReadHolder(d, false), TestHolder(d)]
  {
    if cfg.atomic {
      steps := [Reclaim(d, false)];
      assert Run(cfg, s, steps) == Apply(cfg, s, steps[0]);
    } else {
      steps := [ReadHolder(d, false), TestHolder(d)];
      var t := Apply(cfg, s, steps[0]);
      assert steps[1..] == [TestHolder(d)] && CanRun(cfg, t, steps[1..]);
      assert Run(cfg, s, steps) == Run(cfg, t, steps[1..]) == Apply(cfg, t, TestHolder(d));
    }
  }

  // ----- what a crash between create and pid write leaves behind -----

  /** The lock path names a blank file, nobody running is inside, and nobody has read a pid from an earlier one. */
  ghost predicate Orphaned(cfg: Config, s: State) {
    && s.lock.Some? && s.lock.value in s.texts && s.texts[s.lock.value] == Blank
    && (forall c :: !Inside(cfg, s, c))
    && (forall c :: c in s.pc ==> !s.pc[c].HolderDead? && (s.pc[c].HolderRead? ==> s.pc[c].text == Blank))
  }

  lemma StepKeepsOrphan(cfg: Config, s: State, step: Step)
    requires Orphaned(cfg, s) && Enabled(cfg, s, step)
    ensures Orphaned(cfg, Apply(cfg, s, step)) && Apply(cfg, s, step).lock == s.lock
  {
    var t := Apply(cfg, s, step);
    if !step.Exit? { assert !Inside(cfg, s, step.c); }
    forall c ensures !Inside(cfg, t, c) { assert !Inside(cfg, s, c); }
  }

  /**
   * Blank text is never taken for a dead holder, so from an orphaned lock on no caller ever gets in,
   * whether the reclaim is one step or three.
   */
  lemma {:induction false} OrphanBlocksForever(cfg: Config, s: State, steps: seq<Step>)
    requires Orphaned(cfg, s) && CanRun(cfg, s, steps)
    ensures var t := Run(cfg, s, steps);
      Orphaned(cfg, t) && t.lock == s.lock && forall c :: !Inside(cfg, t, c)
    decreases |steps|
  {
    if steps != [] {
      StepKeepsOrphan(cfg, s, steps[0]);
      OrphanBlocksForever(cfg, Apply(cfg, s, steps[0]), steps[1..]);
    }
  }

  /** A process that exits between creating the lock file and writing its pid orphans the lock. */
  lemma CrashOrphans(cfg: Config, d: Caller) returns (s: State)
    requires d in cfg.pidOf && cfg.pidOf[d] in cfg.mayExit
    ensures Reachable(cfg, s) && Orphaned(cfg, s) && cfg.pidOf[d] !in s.alive
  {
    s := Init(cfg);
    InitReachable(cfg);
    assert cfg.pidOf[d] in cfg.pidOf.Values;
    StepReaches(cfg, s, Begin(d));           s := Apply(cfg, s, Begin(d));
    StepReaches(cfg, s, Create(d));          s := Apply(cfg, s, Create(d));
    StepReaches(cfg, s, Exit(cfg.pidOf[d])); s := Apply(cfg, s, Exit(cfg.pidOf[d]));
  }

  /** So does a failed pid write, with no exit at all. */
  lemma FailedWriteOrphans(cfg: Config, d: Caller) returns (s: State)
    requires d in cfg.pidOf
    ensures Reachable(cfg, s) && Orphaned(cfg, s) && s.alive == cfg.pidOf.Values
  {
    s := Init(cfg);
    InitReachable(cfg);
    StepReaches(cfg, s, Begin(d));             s := Apply(cfg, s, Begin(d));
    StepReaches(cfg, s, Create(d));            s := Apply(cfg, s, Create(d));
    StepReaches(cfg, s, WriteFails(d, false)); s := Apply(cfg, s, WriteFails(d, false));
  }

  /** An orphaned lock is the case of a blank file: nobody has hope. */
  lemma OrphanedNoHope(cfg: Config, s: State)
    requires Orphaned(cfg, s)
    ensures NoHope(cfg, s)
  {
    forall c ensures !Hopeful(cfg, s, c) { assert !Inside(cfg, s, c); }
  }

  /**
   * A write that fails after the pid is in the file leaves a lock that names a process still running: if that
   * one never exits after creating it, nobody ever gets in, though the file is not blank.
   */
  lemma FailedCloseBlocks(cfg: Config, d: Caller) returns (s: State)
    requires d in cfg.pidOf && cfg.pidOf[d] !in cfg.mayExit
    ensures Reachable(cfg, s) && s.alive == cfg.pidOf.Values && !Orphaned(cfg, s) && !MayEnter(cfg, s)
  {
    s := Init(cfg);
    InitReachable(cfg);
    assert cfg.pidOf[d] in cfg.pidOf.Values;
    StepReaches(cfg, s, Begin(d));            s := Apply(cfg, s, Begin(d));
    StepReaches(cfg, s, Create(d));           s := Apply(cfg, s, Create(d));
    StepReaches(cfg, s, WriteFails(d, true)); s := Apply(cfg, s, WriteFails(d, true));
    ReachableWell(cfg, s);
    MayEnterExactly(cfg, s);
  }
}
