/** services/import_lock.py: one lock per (package, distribution), looked up in a guarded registry, around the check and the
    publication of importer_apt.py. Threads are interleaved at every step. */
module ImportLock {
  import opened FileNames
  import opened Sequences

  // ----- The registry as an object -----

  class Lock {
    constructor () {}
  }

  class LockRegistry {
    var locks: map<string, Lock>

    /** Different keys have different locks. */
    ghost predicate Valid()
      reads this
    {
      forall a, b | a in locks && b in locks && locks[a] == locks[b] :: a == b
    }

    constructor ()
      ensures Valid() && locks == map[]
    {
      locks := map[];
    }

    method GetLock(key: string) returns (lock: Lock)
      requires Valid()
      modifies this
      ensures Valid() && key in locks && locks[key] == lock
      ensures key in old(locks) ==> locks == old(locks)
      ensures key !in old(locks) ==> fresh(lock) && locks == old(locks)[key := lock]
    {
      if key in locks {
        lock := locks[key];
      } else {
        lock := new Lock();
        locks := locks[key := lock];
      }
    }
  }

  // ----- Threads -----

  type Tid = nat
  type LockId = nat

  /** One call of `import_one`; the version comes from the index row and may be missing. */
  datatype Job = Job(name: string, distribution: Option<string>, version: Option<string>)

  datatype Pc =
    | Start
    | InGuard
    | Stored(lock: LockId)
    | Waiting(lock: LockId)
    | Checking(lock: LockId)
    | Publishing(lock: LockId)
    | Leaving(lock: LockId)
    | Done

  datatype Thread = Thread(job: Job, pc: Pc)

  /** A version handed to the physical repository by a job. */
  datatype Publication = Publication(job: Job, version: string)

  datatype State = State(
    threads: map<Tid, Thread>, locks: map<string, LockId>, nextLock: LockId, guard: Option<Tid>,
    held: map<LockId, Tid>, poolMain: set<(string, string)>, log: seq<Publication>)

  function OrEmpty(o: Option<string>): string {
    if o.Some? then o.value else ""
  }

  function Key(job: Job): string {
    job.name + ":" + OrEmpty(job.distribution)
  }

  /** The check made on entry: it needs a version to look for, and finds it as part of a file name. `poolMain` holds the names
      and the versions of the files. */
  predicate AlreadyPublished(s: State, job: Job) {
    OrEmpty(job.version) != "" && (job.name, OrEmpty(job.version)) in s.poolMain
  }

  function Moved(s: State, t: Tid, pc: Pc): State
    requires t in s.threads
  {
    s.(threads := s.threads[t := s.threads[t].(pc := pc)])
  }

  /** The next step of thread t, if it is not blocked. `published` is what the download, validation and publication come to:
      the version now in the repository, or none. */
  function StepOf(s: State, t: Tid, published: Option<string>): Option<State>
    requires t in s.threads
  {
    var job := s.threads[t].job;
    match s.threads[t].pc
    case Start => if s.guard.Some? then None else Some(Moved(s, t, InGuard).(guard := Some(t)))
    case InGuard =>
      if Key(job) in s.locks then Some(Moved(s, t, Stored(s.locks[Key(job)])))
      else Some(Moved(s, t, Stored(s.nextLock)).(locks := s.locks[Key(job) := s.nextLock], nextLock := s.nextLock + 1))
    case Stored(l) => Some(Moved(s, t, Waiting(l)).(guard := None))
    case Waiting(l) => if l in s.held then None else Some(Moved(s, t, Checking(l)).(held := s.held[l := t]))
    case Checking(l) => Some(Moved(s, t, if AlreadyPublished(s, job) then Leaving(l) else Publishing(l)))
    case Publishing(l) =>
      if published.None? then Some(Moved(s, t, Leaving(l)))
      else
        Some(Moved(s, t, Leaving(l)).(poolMain := s.poolMain + {(job.name, FileVersion(published.value))},
                                      log := s.log + [Publication(job, published.value)]))
    case Leaving(l) => Some(Moved(s, t, Done).(held := s.held - {l}))
    case Done => None
  }

  ghost predicate Init(s: State) {
    && (forall t | t in s.threads :: s.threads[t].pc == Start)
    && s.locks == map[] && s.guard == None && s.held == map[] && s.log == []
  }

  ghost predicate Next(s: State, s': State) {
    exists t, published :: t in s.threads && StepOf(s, t, published) == Some(s')
  }

  ghost predicate IsRun(run: seq<State>) {
    run != [] && Init(run[0]) && forall i | 0 < i < |run| :: Next(run[i - 1], run[i])
  }

  ghost predicate Reachable(s: State) {
    exists run :: IsRun(run) && run[|run| - 1] == s
  }

  // ----- What every step keeps -----

  predicate InSection(pc: Pc) {
    pc.Checking? || pc.Publishing? || pc.Leaving?
  }

  predicate HasLock(pc: Pc) {
    pc.Stored? || pc.Waiting? || InSection(pc)
  }

  ghost predicate GuardInv(s: State) {
    && (s.guard.Some? ==> s.guard.value in s.threads
                          && (s.threads[s.guard.value].pc.InGuard? || s.threads[s.guard.value].pc.Stored?))
    && (forall t | t in s.threads && (s.threads[t].pc.InGuard? || s.threads[t].pc.Stored?) :: s.guard == Some(t))
  }

  ghost predicate RegistryInv(s: State) {
    && (forall k | k in s.locks :: s.locks[k] < s.nextLock)
    && (forall a, b | a in s.locks && b in s.locks && s.locks[a] == s.locks[b] :: a == b)
    && (forall t | t in s.threads && HasLock(s.threads[t].pc) ::
          Key(s.threads[t].job) in s.locks && s.locks[Key(s.threads[t].job)] == s.threads[t].pc.lock)
  }

  ghost predicate HeldInv(s: State) {
    && (forall t | t in s.threads && InSection(s.threads[t].pc) :: s.threads[t].pc.lock in s.held && s.held[s.threads[t].pc.lock] == t)
    && (forall l | l in s.held :: s.held[l] in s.threads && InSection(s.threads[s.held[l]].pc) && s.threads[s.held[l]].pc.lock == l)
  }

  predicate SamePackage(a: Job, b: Job) {
    a.name == b.name && OrEmpty(a.distribution) == OrEmpty(b.distribution)
  }

  /** The check of this job finds this version once it is published. */
  predicate LooksFor(job: Job, version: string) {
    OrEmpty(job.version) != "" && OrEmpty(job.version) == FileVersion(version)
  }

  /** A holder about to publish a version it looked for knows that no holder of its key has published it. */
  ghost predicate PublishInv(s: State) {
    && (forall i | 0 <= i < |s.log| :: (s.log[i].job.name, FileVersion(s.log[i].version)) in s.poolMain)
    && (forall t, i | t in s.threads && s.threads[t].pc.Publishing? && 0 <= i < |s.log| && OrEmpty(s.threads[t].job.version) != ""
          && SamePackage(s.log[i].job, s.threads[t].job) :: !LooksFor(s.threads[t].job, s.log[i].version))
  }

  /** A later publication of the same version for the same key comes from a job that did not look for that version. */
  ghost predicate RepeatsUnchecked(log: seq<Publication>) {
    forall i, j | 0 <= i < j < |log| && SamePackage(log[i].job, log[j].job) && log[i].version == log[j].version ::
      !LooksFor(log[j].job, log[j].version)
  }

  ghost predicate Inv(s: State) {
    GuardInv(s) && RegistryInv(s) && HeldInv(s) && PublishInv(s) && RepeatsUnchecked(s.log)
  }

  /** At most one thread is inside the section of one (name, distribution). */
  lemma MutualExclusion(s: State, t: Tid, u: Tid)
    requires RegistryInv(s) && HeldInv(s) && t in s.threads && u in s.threads
    requires InSection(s.threads[t].pc) && InSection(s.threads[u].pc)
    requires SamePackage(s.threads[t].job, s.threads[u].job)
    ensures t == u
  {
    assert Key(s.threads[t].job) == Key(s.threads[u].job);
  }

  predicate HoldsGuard(pc: Pc) {
    pc.InGuard? || pc.Stored?
  }

  /** What a step does to the registry's guard and to the other threads. */
  lemma StepOnGuard(s: State, t: Tid, published: Option<string>)
    requires t in s.threads && StepOf(s, t, published).Some?
    ensures var s' := StepOf(s, t, published).value;
            && t in s'.threads && s'.threads == s.threads[t := s.threads[t].(pc := s'.threads[t].pc)]
            && (HoldsGuard(s'.threads[t].pc) <==> s.threads[t].pc.Start? || s.threads[t].pc.InGuard?)
            && (s.threads[t].pc.Start? ==> s.guard.None?)
            && s'.guard == if s.threads[t].pc.Start? then Some(t) else if s.threads[t].pc.Stored? then None else s.guard
  {
    hide Key, AlreadyPublished, FileVersion;
  }

  lemma StepKeepsGuard(s: State, t: Tid, published: Option<string>)
    requires t in s.threads && GuardInv(s) && StepOf(s, t, published).Some?
    ensures GuardInv(StepOf(s, t, published).value)
  {
    StepOnGuard(s, t, published);
    hide StepOf;
  }

  lemma StepKeepsRegistry(s: State, t: Tid, published: Option<string>)
    requires t in s.threads && RegistryInv(s) && StepOf(s, t, published).Some?
    ensures RegistryInv(StepOf(s, t, published).value)
  {
    hide Key, AlreadyPublished;
    var s' := StepOf(s, t, published).value;
    var pc, pc' := s.threads[t].pc, s'.threads[t].pc;
    assert s'.threads == s.threads[t := s.threads[t].(pc := pc')];
    if pc.InGuard? {
      NewLockKeepsRegistry(s, t, s');
    } else {
      assert s'.locks == s.locks && s'.nextLock == s.nextLock;
      assert HasLock(pc') ==> HasLock(pc) && pc'.lock == pc.lock;
    }
  }

  lemma NewLockKeepsRegistry(s: State, t: Tid, s': State)
    requires t in s.threads && RegistryInv(s) && s.threads[t].pc.InGuard? && StepOf(s, t, None) == Some(s')
    ensures RegistryInv(s')
  {
    hide Key;
    var key := Key(s.threads[t].job);
    assert s'.locks == if key in s.locks then s.locks else s.locks[key := s.nextLock];
  }

  lemma StepKeepsHeld(s: State, t: Tid, published: Option<string>)
    requires t in s.threads && HeldInv(s) && StepOf(s, t, published).Some?
    ensures HeldInv(StepOf(s, t, published).value)
  {
    hide Key, AlreadyPublished;
    var s' := StepOf(s, t, published).value;
    assert s'.threads == s.threads[t := s.threads[t].(pc := s'.threads[t].pc)];
    assert s.threads[t].pc.Waiting? || s.threads[t].pc.Leaving? || s'.held == s.held;
  }

  lemma StepKeepsPublishing(s: State, t: Tid, published: Option<string>)
    requires t in s.threads && Inv(s) && StepOf(s, t, published).Some?
    ensures PublishInv(StepOf(s, t, published).value) && RepeatsUnchecked(StepOf(s, t, published).value.log)
  {
    hide GuardInv, RegistryInv, HeldInv, Key, FileVersion;
    var s' := StepOf(s, t, published).value;
    if s.threads[t].pc.Publishing? && published.Some? {
      PublicationKeepsInv(s, t, published.value);
    } else if s.threads[t].pc.Checking? {
      assert s'.log == s.log && s'.poolMain == s.poolMain;
    } else {
      assert s'.log == s.log && s'.poolMain == s.poolMain && !s'.threads[t].pc.Publishing?;
    }
  }

  lemma PublicationKeepsInv(s: State, t: Tid, version: string)
    requires t in s.threads && Inv(s) && s.threads[t].pc.Publishing?
    ensures PublishInv(StepOf(s, t, Some(version)).value) && RepeatsUnchecked(StepOf(s, t, Some(version)).value.log)
  {
    hide GuardInv, Key;
    var s' := StepOf(s, t, Some(version)).value;
    forall u, i | u in s'.threads && s'.threads[u].pc.Publishing? && 0 <= i < |s'.log| && OrEmpty(s'.threads[u].job.version) != ""
                  && SamePackage(s'.log[i].job, s'.threads[u].job)
      ensures !LooksFor(s'.threads[u].job, s'.log[i].version)
    {
      hide RegistryInv, HeldInv;
      if i == |s.log| {
        MutualExclusion(s, t, u);
      }
    }
  }

  lemma {:induction false} RunInv(run: seq<State>)
    requires IsRun(run)
    ensures Inv(run[|run| - 1])
    decreases |run|
  {
    if |run| > 1 {
      RunInv(run[..|run| - 1]);
      var s, s' := run[|run| - 2], run[|run| - 1];
      var t, published :| t in s.threads && StepOf(s, t, published) == Some(s');
      hide GuardInv, RegistryInv, HeldInv, PublishInv, RepeatsUnchecked, StepOf;
      StepKeepsGuard(s, t, published);
      StepKeepsRegistry(s, t, published);
      StepKeepsHeld(s, t, published);
      StepKeepsPublishing(s, t, published);
    }
  }

  /** In every reachable state, for any number of threads: one thread per section, and a version already published under a
      key is published again only by a job that did not look for it. */
  lemma Safety(s: State)
    requires Reachable(s)
    ensures Inv(s)
    ensures forall t, u | t in s.threads && u in s.threads && InSection(s.threads[t].pc) && InSection(s.threads[u].pc)
              && SamePackage(s.threads[t].job, s.threads[u].job) :: t == u
  {
    var run :| IsRun(run) && run[|run| - 1] == s;
    RunInv(run);
    forall t, u | t in s.threads && u in s.threads && InSection(s.threads[t].pc) && InSection(s.threads[u].pc)
                  && SamePackage(s.threads[t].job, s.threads[u].job) ensures t == u {
      MutualExclusion(s, t, u);
    }
  }

  /** The lock of a key never changes, however the run goes on. */
  lemma {:induction false} OneLockForever(run: seq<State>, i: nat, j: nat, key: string)
    requires IsRun(run) && i <= j < |run| && key in run[i].locks
    ensures key in run[j].locks && run[j].locks[key] == run[i].locks[key]
    decreases j - i
  {
    if i < j {
      OneLockForever(run, i, j - 1, key);
      assert Next(run[j - 1], run[j]);
    }
  }

  // ----- No deadlock, and every run ends -----

  /** As long as some thread is not done, some thread can move. */
  lemma NoDeadlock(s: State, t: Tid)
    requires Inv(s) && t in s.threads && s.threads[t].pc != Done
    ensures exists u :: u in s.threads && forall published :: StepOf(s, u, published).Some?
  {
    var u :=
      if s.threads[t].pc.Start? && s.guard.Some? then s.guard.value
      else if s.threads[t].pc.Waiting? && s.threads[t].pc.lock in s.held then s.held[s.threads[t].pc.lock]
      else t;
    assert forall published :: StepOf(s, u, published).Some?;
  }

  function StepsLeft(pc: Pc): nat {
    match pc
    case Start => 7 case InGuard => 6 case Stored(_) => 5 case Waiting(_) => 4
    case Checking(_) => 3 case Publishing(_) => 2 case Leaving(_) => 1 case Done => 0
  }

  ghost function Work(threads: map<Tid, Thread>): nat {
    if threads == map[] then 0
    else
      var t :| t in threads;
      StepsLeft(threads[t].pc) + Work(threads - {t})
  }

  lemma {:induction false} WorkOf(threads: map<Tid, Thread>, t: Tid)
    requires t in threads
    ensures Work(threads) == StepsLeft(threads[t].pc) + Work(threads - {t})
    decreases |threads|
  {
    var u :| u in threads && Work(threads) == StepsLeft(threads[u].pc) + Work(threads - {u});
    if u != t {
      WorkOf(threads - {u}, t);
      WorkOf(threads - {t}, u);
      assert threads - {u} - {t} == threads - {t} - {u};
    }
  }

  /** Every step does some of the work left, so no run makes more than seven steps per thread. */
  lemma StepDoesWork(s: State, t: Tid, published: Option<string>)
    requires t in s.threads && StepOf(s, t, published).Some?
    ensures Work(StepOf(s, t, published).value.threads) < Work(s.threads)
  {
    hide Key, AlreadyPublished, Work;
    var s' := StepOf(s, t, published).value;
    WorkOf(s.threads, t);
    WorkOf(s'.threads, t);
    assert s'.threads - {t} == s.threads - {t};
    assert StepsLeft(s'.threads[t].pc) < StepsLeft(s.threads[t].pc);
  }

  lemma {:induction false} WorkBound(threads: map<Tid, Thread>)
    ensures Work(threads) <= 7 * |threads|
    decreases |threads|
  {
    if threads != map[] {
      var t :| t in threads;
      WorkOf(threads, t);
      WorkBound(threads - {t});
    }
  }

  lemma {:induction false} RunsEnd(run: seq<State>)
    requires IsRun(run)
    ensures |run| - 1 + Work(run[|run| - 1].threads) <= 7 * |run[0].threads|
    decreases |run|
  {
    if |run| == 1 {
      WorkBound(run[0].threads);
    } else {
      RunsEnd(run[..|run| - 1]);
      var s, s' := run[|run| - 2], run[|run| - 1];
      var t, published :| t in s.threads && StepOf(s, t, published) == Some(s');
      StepDoesWork(s, t, published);
    }
  }

  // ----- When a published version can be published again -----

  lemma ReachableStep(s: State, t: Tid, published: Option<string>)
    requires Reachable(s) && t in s.threads && StepOf(s, t, published).Some?
    ensures Reachable(StepOf(s, t, published).value)
  {
    var run :| IsRun(run) && run[|run| - 1] == s;
    var s' := StepOf(s, t, published).value;
    assert Next(s, s');
    assert IsRun(run + [s']);
  }

  /** A thread that finds the guard and its lock free gets as far as the check. */
  lemma RunToCheck(s: State, t: Tid) returns (s': State, l: LockId)
    requires Reachable(s) && t in s.threads && s.threads[t].pc == Start && s.guard == None && s.held == map[]
    ensures Reachable(s') && s'.guard == None && s'.held == map[l := t]
    ensures s'.threads == s.threads[t := s.threads[t].(pc := Checking(l))]
    ensures s'.poolMain == s.poolMain && s'.log == s.log
  {
    hide Reachable, Key;
    ReachableStep(s, t, None);
    var s1 := StepOf(s, t, None).value;
    ReachableStep(s1, t, None);
    var s2 := StepOf(s1, t, None).value;
    ReachableStep(s2, t, None);
    var s3 := StepOf(s2, t, None).value;
    ReachableStep(s3, t, None);
    s', l := StepOf(s3, t, None).value, s2.threads[t].pc.lock;
    assert s'.threads == s.threads[t := s.threads[t].(pc := Checking(l))];
  }

  /** From the check, a thread that does not find its version publishes and leaves. */
  lemma RunToEnd(s: State, t: Tid, version: string) returns (s': State)
    requires Reachable(s) && t in s.threads && s.threads[t].pc.Checking? && s.held == map[s.threads[t].pc.lock := t]
    requires !AlreadyPublished(s, s.threads[t].job)
    ensures Reachable(s') && s'.guard == s.guard && s'.held == map[]
    ensures s'.threads == s.threads[t := s.threads[t].(pc := Done)]
    ensures s'.poolMain == s.poolMain + {(s.threads[t].job.name, FileVersion(version))}
    ensures s'.log == s.log + [Publication(s.threads[t].job, version)]
  {
    hide Reachable, Key, AlreadyPublished;
    ReachableStep(s, t, None);
    var s1 := StepOf(s, t, None).value;
    ReachableStep(s1, t, Some(version));
    var s2 := StepOf(s1, t, Some(version)).value;
    ReachableStep(s2, t, None);
    s' := StepOf(s2, t, None).value;
    assert s'.threads == s.threads[t := s.threads[t].(pc := Done)];
    assert s'.held == map[];
  }

  ghost predicate PublishedTwice(s: State, job: Job, version: string) {
    exists i, j :: 0 <= i < j < |s.log| && s.log[j].job == job && SamePackage(s.log[i].job, job)
                   && s.log[i].version == version && s.log[j].version == version
  }

  /** A job can publish a version that a holder of its key published before exactly when its index row has no version or one
      that is not the version in the name of the published file. Dependencies imported after an upload have no version in
      their row. */
  lemma RepublishIff(job: Job, version: string)
    ensures (exists s :: Reachable(s) && PublishedTwice(s, job, version)) <==> !LooksFor(job, version)
  {
    hide FileVersion;
    if !LooksFor(job, version) {
      var s := State(map[0 := Thread(job, Start), 1 := Thread(job, Start)], map[], 0, None, map[], {}, []);
      assert IsRun([s]);
      var s1, l1 := RunToCheck(s, 0);
      var s2 := RunToEnd(s1, 0, version);
      var s3, l3 := RunToCheck(s2, 1);
      var s4 := RunToEnd(s3, 1, version);
      assert s4.log[0] == Publication(job, version) && s4.log[1] == Publication(job, version);
      assert PublishedTwice(s4, job, version);
    }
    forall s | Reachable(s) && PublishedTwice(s, job, version) ensures !LooksFor(job, version) {
      Safety(s);
    }
  }

  /** A row that gives the version downloaded prevents its being published again exactly when that version has no epoch. */
  lemma EpochIsRepublished(job: Job, version: string)
    requires job.version == Some(version) && version != ""
    ensures (exists s :: Reachable(s) && PublishedTwice(s, job, version)) <==> ':' in version
  {
    RepublishIff(job, version);
    assert ':' in version ==> |FileVersion(version)| < |version|;
  }

  // ----- Keys -----

  lemma PrefixBeforeColon(a: string, x: string, b: string, y: string)
    requires ':' !in a && ':' !in b && a + ":" + x == b + ":" + y
    ensures a == b && x == y
  {
    var s := a + ":" + x;
    assert s[|a|] == ':' && s[|b|] == ':';
    assert forall i | 0 <= i < |a| :: s[i] == a[i] && a[i] in a;
    assert forall i | 0 <= i < |b| :: s[i] == b[i] && b[i] in b;
    assert a == s[..|a|] && b == s[..|b|];
    assert x == s[|a| + 1..] && y == s[|b| + 1..];
  }

  /** Names without a colon share a lock only for the same package and distribution. */
  lemma KeysSeparatePackages(a: Job, b: Job)
    requires ':' !in a.name && ':' !in b.name
    ensures Key(a) == Key(b) <==> SamePackage(a, b)
  {
    if Key(a) == Key(b) {
      PrefixBeforeColon(a.name, OrEmpty(a.distribution), b.name, OrEmpty(b.distribution));
    }
  }
}
