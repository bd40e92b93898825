/** services/mirror_manager.py: starting mirror jobs so that one runs at a time, cleaning up old ones, and the import loop of
    a job. Threads that start jobs are interleaved with the jobs' own threads. */
module MirrorManager {
  import opened Sequences

  type Jid = nat
  type Tid = nat

  datatype Status = Running | Done | Error | Cancelled

  datatype Job = Job(status: Status, finishedAt: Option<int>)

  /** Where a call of `start_job` stands. `left` holds the jobs its current pass has still to look at, `cutoff` the time before which
      a job must have finished to be removed. */
  datatype Pc =
    | Outside
    | Scanning(left: set<Jid>)
    | Creating
    | Sweeping(started: Jid, left: set<Jid>, expired: set<Jid>, cutoff: int)
    | Returned(job: Jid)

  datatype State = State(jobs: map<Jid, Job>, lock: Option<Tid>, calls: map<Tid, Pc>, clock: int)

  const HOUR: int := 3600

  datatype Action =
    | Enter(t: Tid)
    | Look(t: Tid, j: Jid)
    | NoneActive(t: Tid)
    | Create(t: Tid, j: Jid)
    | Sweep(t: Tid, j: Jid)
    | Remove(t: Tid)
    | SetStatus(j: Jid, status: Status)
    | SetFinished(j: Jid)
    | Tick(seconds: nat)

  predicate IsOld(job: Job, cutoff: int) {
    job.status != Running && job.finishedAt.Some? && job.finishedAt.value < cutoff
  }

  /** The state after an action, if the action is possible. A new job gets an identifier not in use. */
  function Apply(s: State, a: Action): Option<State> {
    match a
    case Enter(t) =>
      if s.lock.Some? || (t in s.calls && s.calls[t] != Outside) then None
      else Some(s.(lock := Some(t), calls := s.calls[t := Scanning(s.jobs.Keys)]))
    case Look(t, j) =>
      if t !in s.calls || !s.calls[t].Scanning? || j !in s.calls[t].left || j !in s.jobs then None
      else if s.jobs[j].status == Running then Some(s.(lock := None, calls := s.calls[t := Returned(j)]))
      else Some(s.(calls := s.calls[t := Scanning(s.calls[t].left - {j})]))
    case NoneActive(t) =>
      if t !in s.calls || s.calls[t] != Scanning({}) then None else Some(s.(calls := s.calls[t := Creating]))
    case Create(t, j) =>
      if t !in s.calls || s.calls[t] != Creating || j in s.jobs then None
      else
        var jobs := s.jobs[j := Job(Running, None)];
        Some(s.(jobs := jobs, calls := s.calls[t := Sweeping(j, jobs.Keys, {}, s.clock - HOUR)]))
    case Sweep(t, j) =>
      if t !in s.calls || !s.calls[t].Sweeping? || j !in s.calls[t].left || j !in s.jobs then None
      else
        var pc := s.calls[t];
        var expired := if IsOld(s.jobs[j], pc.cutoff) then pc.expired + {j} else pc.expired;
        Some(s.(calls := s.calls[t := pc.(left := pc.left - {j}, expired := expired)]))
    case Remove(t) =>
      if t !in s.calls || !s.calls[t].Sweeping? || s.calls[t].left != {} then None
      else Some(s.(jobs := s.jobs - s.calls[t].expired, lock := None, calls := s.calls[t := Returned(s.calls[t].started)]))
    case SetStatus(j, status) =>
      if j !in s.jobs || status == Running then None else Some(s.(jobs := s.jobs[j := s.jobs[j].(status := status)]))
    case SetFinished(j) =>
      if j !in s.jobs || s.jobs[j].finishedAt.Some? then None
      else Some(s.(jobs := s.jobs[j := s.jobs[j].(finishedAt := Some(s.clock))]))
    case Tick(seconds) => Some(s.(clock := s.clock + seconds))
  }

  ghost predicate IsRun(run: seq<State>, actions: seq<Action>) {
    && |run| == |actions| + 1
    && run[0].jobs == map[] && run[0].lock == None && (forall t | t in run[0].calls :: run[0].calls[t] == Outside)
    && forall i | 0 <= i < |actions| :: Apply(run[i], actions[i]) == Some(run[i + 1])
  }

  // ----- What every step keeps -----

  ghost predicate IsRunning(s: State, j: Jid) {
    j in s.jobs && s.jobs[j].status == Running
  }

  predicate InSection(pc: Pc) {
    pc.Scanning? || pc.Creating? || pc.Sweeping?
  }

  /** The jobs a pass has left behind are not running, and the ones it means to remove are not either. */
  ghost predicate PassInv(s: State, pc: Pc) {
    match pc
    case Scanning(left) => left <= s.jobs.Keys && forall j | IsRunning(s, j) :: j in left
    case Creating => forall j :: !IsRunning(s, j)
    case Sweeping(_, left, expired, cutoff) =>
      && left <= s.jobs.Keys && expired <= s.jobs.Keys && cutoff <= s.clock - 3600
      && forall j | j in expired :: s.jobs[j].status != Running && s.jobs[j].finishedAt.Some? && s.jobs[j].finishedAt.value < cutoff
    case _ => true
  }

  ghost predicate Inv(s: State) {
    && (forall a, b | IsRunning(s, a) && IsRunning(s, b) :: a == b)
    && (forall t | t in s.calls :: InSection(s.calls[t]) <==> s.lock == Some(t))
    && (s.lock.Some? ==> s.lock.value in s.calls && PassInv(s, s.calls[s.lock.value]))
  }

  /** Jobs leave Running and never come back; new ones appear only in `Create`. */
  ghost predicate OnlyFewerRun(s: State, s': State) {
    forall j | IsRunning(s', j) :: IsRunning(s, j)
  }

  /** A time of finishing, once set, stays. */
  ghost predicate FinishedStays(s: State, s': State) {
    forall j | j in s.jobs && j in s'.jobs && s.jobs[j].finishedAt.Some? :: s'.jobs[j].finishedAt == s.jobs[j].finishedAt
  }

  lemma PassSurvives(s: State, s': State, pc: Pc)
    requires PassInv(s, pc) && s'.jobs.Keys == s.jobs.Keys && OnlyFewerRun(s, s') && FinishedStays(s, s') && s.clock <= s'.clock
    ensures PassInv(s', pc)
  {
    if pc.Sweeping? {
      forall j | j in pc.expired ensures s'.jobs[j].status != Running { assert !IsRunning(s, j); }
    }
  }

  lemma ApplyKeepsInv(s: State, a: Action)
    requires Inv(s) && Apply(s, a).Some?
    ensures Inv(Apply(s, a).value)
  {
    var s' := Apply(s, a).value;
    if a.SetStatus? || a.SetFinished? || a.Tick? {
      JobStepKeepsInv(s, a);
    } else if a.Create? {
      assert forall j | IsRunning(s', j) :: j == a.j || IsRunning(s, j);
    } else {
      assert forall j | IsRunning(s', j) :: IsRunning(s, j);
    }
  }

  lemma JobStepKeepsInv(s: State, a: Action)
    requires Inv(s) && Apply(s, a).Some? && (a.SetStatus? || a.SetFinished? || a.Tick?)
    ensures Inv(Apply(s, a).value)
  {
    var s' := Apply(s, a).value;
    assert OnlyFewerRun(s, s');
    assert s'.jobs.Keys == s.jobs.Keys;
    if s.lock.Some? {
      PassSurvives(s, s', s.calls[s.lock.value]);
    }
  }

  lemma {:induction false} RunInv(run: seq<State>, actions: seq<Action>, i: nat)
    requires IsRun(run, actions) && i < |run|
    ensures Inv(run[i])
  {
    if i > 0 {
      RunInv(run, actions, i - 1);
      assert Apply(run[i - 1], actions[i - 1]) == Some(run[i]);
      ApplyKeepsInv(run[i - 1], actions[i - 1]);
    }
  }

  /** In every interleaving at most one job is running. */
  lemma AtMostOneRunning(run: seq<State>, actions: seq<Action>, i: nat, a: Jid, b: Jid)
    requires IsRun(run, actions) && i < |run| && IsRunning(run[i], a) && IsRunning(run[i], b)
    ensures a == b
  {
    RunInv(run, actions, i);
  }

  /** A job that is not running never runs again, and only jobs that are not running are removed. */
  lemma StoppedStaysStopped(run: seq<State>, actions: seq<Action>, i: nat, j: Jid)
    requires IsRun(run, actions) && i < |actions| && j in run[i].jobs
    ensures !IsRunning(run[i], j) ==> !IsRunning(run[i + 1], j)
    ensures IsRunning(run[i], j) ==> j in run[i + 1].jobs
  {
    RunInv(run, actions, i);
    assert Apply(run[i], actions[i]) == Some(run[i + 1]);
  }

  /** A job that goes away had finished more than an hour before. */
  lemma RemovedWasOld(run: seq<State>, actions: seq<Action>, i: nat, j: Jid)
    requires IsRun(run, actions) && i < |actions| && j in run[i].jobs && j !in run[i + 1].jobs
    ensures actions[i].Remove?
    ensures var job := run[i].jobs[j];
            job.status != Running && job.finishedAt.Some? && job.finishedAt.value < run[i].clock - 3600
  {
    RunInv(run, actions, i);
    assert Apply(run[i], actions[i]) == Some(run[i + 1]);
  }

  /** The pass of t that began at step c goes on. */
  ghost predicate InPass(run: seq<State>, actions: seq<Action>, c: nat, i: nat, t: Tid) {
    && IsRun(run, actions) && c < i < |run| && actions[c].Create? && actions[c].t == t
    && forall k | c < k < i :: actions[k] != Remove(t)
  }

  lemma {:induction false} OldIsMet(run: seq<State>, actions: seq<Action>, c: nat, i: nat, t: Tid, j: Jid)
    requires InPass(run, actions, c, i, t)
    requires j in run[c].jobs && IsOld(run[c].jobs[j], run[c].clock - 3600)
    ensures t in run[i].calls && run[i].calls[t].Sweeping? && run[i].calls[t].cutoff == run[c].clock - 3600
    ensures j in run[i].jobs && IsOld(run[i].jobs[j], run[c].clock - 3600)
    ensures j in run[i].calls[t].left || j in run[i].calls[t].expired
    decreases i
  {
    var a := actions[i - 1];
    assert Apply(run[i - 1], a) == Some(run[i]);
    if i > c + 1 {
      OldIsMet(run, actions, c, i - 1, t, j);
      RunInv(run, actions, i - 1);
      OldIsMetStep(run[i - 1], a, run[i], t, j, run[c].clock - 3600);
    }
  }

  lemma OldIsMetStep(s: State, a: Action, s': State, t: Tid, j: Jid, cutoff: int)
    requires Inv(s) && Apply(s, a) == Some(s') && a != Remove(t)
    requires t in s.calls && s.calls[t].Sweeping? && s.calls[t].cutoff == cutoff
    requires j in s.jobs && IsOld(s.jobs[j], cutoff) && (j in s.calls[t].left || j in s.calls[t].expired)
    ensures t in s'.calls && s'.calls[t].Sweeping? && s'.calls[t].cutoff == cutoff
    ensures j in s'.jobs && IsOld(s'.jobs[j], cutoff) && (j in s'.calls[t].left || j in s'.calls[t].expired)
  {
    hide PassInv;
  }

  /** A clean-up leaves no job that had finished more than an hour before it began. */
  lemma CleanUpRemovesOld(run: seq<State>, actions: seq<Action>, c: nat, i: nat, t: Tid, j: Jid)
    requires InPass(run, actions, c, i, t) && i < |actions| && actions[i] == Remove(t)
    requires j in run[c].jobs && run[c].jobs[j].status != Running
    requires run[c].jobs[j].finishedAt.Some? && run[c].jobs[j].finishedAt.value < run[c].clock - 3600
    ensures j !in run[i + 1].jobs
  {
    OldIsMet(run, actions, c, i, t, j);
    assert Apply(run[i], actions[i]) == Some(run[i + 1]);
  }

  /** `start_job` gives back a job that runs at that moment: the active one it found, or the one it just started. */
  lemma ReturnsActiveJob(s: State, t: Tid, j: Jid)
    ensures var found := Apply(s, Look(t, j));
            found.Some? && found.value.calls[t].Returned? ==> found.value.calls[t].job == j && IsRunning(found.value, j)
    ensures var started := Apply(s, Create(t, j));
            started.Some? ==> started.value.calls[t].started == j && IsRunning(started.value, j)
  {
  }

  // ----- The import loop of a job -----

  datatype ImportStatus = Added | PendingReview | Blocked | Skipped | Failed

  /** What one turn of the loop meets: a stop request, too little disk space, an exception, or a result. */
  datatype Turn = Stop | DiskFull | Raises | Result(status: ImportStatus)

  function Count(turns: seq<Turn>, status: ImportStatus): nat {
    if turns == [] then 0
    else Count(turns[..|turns| - 1], status) + if turns[|turns| - 1] == Result(status) then 1 else 0
  }

  class MirrorJob {
    var total: nat
    var doneCount: nat
    var addedCount: nat
    var pendingCount: nat
    var blockedCount: nat
    var skippedCount: nat
    var errorCount: nat
    var status: Status

    /** Every processed package is in exactly one counter. */
    ghost predicate Balanced()
      reads this
    {
      doneCount == addedCount + pendingCount + blockedCount + skippedCount + errorCount && doneCount <= total
    }

    /** Each counter holds the number of results of its kind. */
    ghost predicate Counted(turns: seq<Turn>)
      reads this
    {
      && addedCount == Count(turns, Added) && pendingCount == Count(turns, PendingReview)
      && blockedCount == Count(turns, Blocked) && skippedCount == Count(turns, Skipped) && errorCount == Count(turns, Failed)
    }

    constructor ()
      ensures status == Running && Balanced() && Counted([]) && total == doneCount == 0
    {
      total, doneCount, addedCount, pendingCount, blockedCount, skippedCount, errorCount := 0, 0, 0, 0, 0, 0, 0;
      status := Running;
    }

    /** One result counted. */
    method Tally(ghost before: seq<Turn>, result: ImportStatus)
      requires Counted(before) && Balanced() && doneCount < total
      modifies this
      ensures Counted(before + [Result(result)]) && Balanced()
      ensures doneCount == old(doneCount) + 1 && total == old(total) && status == old(status)
    {
      doneCount := doneCount + 1;
      assert (before + [Result(result)])[..|before|] == before;
      match result {
        case Added => addedCount := addedCount + 1;
        case PendingReview => pendingCount := pendingCount + 1;
        case Blocked => blockedCount := blockedCount + 1;
        case Skipped => skippedCount := skippedCount + 1;
        case Failed => errorCount := errorCount + 1;
      }
    }

    /** `turns[i]` is what the loop meets at the i-th package; `stopped` is the stop request as read after the loop. */
    method ImportAll(turns: seq<Turn>, stopped: bool)
      requires status == Running && Balanced() && doneCount == 0 && Counted([])
      modifies this
      ensures Balanced() && total == |turns|
      ensures forall i | 0 <= i < doneCount :: turns[i].Result?
      ensures doneCount < total ==> !turns[doneCount].Result?
      ensures Counted(turns[..doneCount])
      ensures status == if doneCount < total && turns[doneCount].Raises? then Error else if stopped then Cancelled else Done
    {
      hide Count;
      total := |turns|;
      var i := 0;
      while i < |turns|
        invariant 0 <= i <= |turns| && total == |turns| && doneCount == i && status == Running
        invariant Balanced()
        invariant Counted(turns[..i])
        invariant forall j | 0 <= j < i :: turns[j].Result?
      {
        assert turns[..i + 1][..i] == turns[..i];
        if turns[i].Stop? || turns[i].DiskFull? {
          break;
        }
        if turns[i].Raises? {
          status := Error;
          return;
        }
        Tally(turns[..i], turns[i].status);
        assert turns[..i] + [turns[i]] == turns[..i + 1];
        i := i + 1;
      }
      status := if stopped then Cancelled else Done;
    }
  }
}
