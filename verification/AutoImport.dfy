/** routers/upload.py: after a manual upload, the missing dependencies are imported one by one; each successful import may
    reveal further ones. The loop is written twice, once for the plain endpoint and once for the event stream. */
module AutoImport {
  import opened Sequences
  import opened Text

  const MAX_AUTO_IMPORT_DEPS: nat := 50

  datatype Status = Added | PendingReview | Skipped | Blocked | Error

  datatype Outcome = Outcome(status: Status, name: Option<string>, message: Option<string>)

  datatype Attempt = Returned(outcome: Outcome) | Raised(message: string)

  /** The import pipeline as the loop sees it: importing a package, refreshing the local index of public packages, and the
      missing dependencies the catalogue records for a package. Each acts on the state of the installation. */
  datatype Pipeline<!W> = Pipeline(
    importOne: (W, string) -> (W, Attempt), sync: W -> W, subMissing: (W, string) -> seq<string>)

  class Installation<W> {
    var state: W

    constructor (state: W)
      ensures this.state == state
    {
      this.state := state;
    }

    method ImportDepOrError(p: Pipeline<W>, name: string) returns (o: Outcome)
      modifies this
      ensures (state, o) == ImportOrError(p, old(state), name)
    {
      var r := p.importOne(state, name);
      state := r.0;
      match r.1
      case Returned(outcome) => o := outcome;
      case Raised(message) => o := Outcome(Error, Some(name), Some(message));
    }

    method SyncIndex(p: Pipeline<W>)
      modifies this
      ensures state == p.sync(old(state))
    {
      state := p.sync(state);
    }
  }

  function ImportOrError<W>(p: Pipeline<W>, w: W, name: string): (W, Outcome) {
    var r := p.importOne(w, name);
    match r.1
    case Returned(outcome) => (r.0, outcome)
    case Raised(message) => (r.0, Outcome(Error, Some(name), Some(message)))
  }

  /** Only a package absent from the local index can profit from a refresh. */
  predicate IsIndexMiss(o: Outcome) {
    o.message.Some? && Contains(o.message.value, "introuvable dans l'index")
  }

  // ----- The run both loops perform -----

  /** One processed name: its final outcome, what its import revealed, which of it was new, whether it was retried, and the worlds
      in which its last import was called and which it left. */
  datatype Step<W> = Step(
    name: string, outcome: Outcome, revealed: seq<string>, discovered: seq<string>, retried: bool, calledIn: W, world: W)

  datatype Run<W> = Run(queue: seq<string>, seen: set<string>, syncedOnce: bool, steps: seq<Step<W>>, calls: nat, world: W)

  function Start<W>(names: seq<string>, w: W): Run<W> {
    Run(Dedup(names), Elements(Dedup(names)), false, [], 0, w)
  }

  /** The names of `revealed` not seen before, each once. */
  function Fresh(seen: set<string>, revealed: seq<string>): seq<string> {
    if revealed == [] then []
    else
      var front, last := Fresh(seen, revealed[..|revealed| - 1]), revealed[|revealed| - 1];
      if last in seen || last in front then front else front + [last]
  }

  /** One name imported, with one refresh and one more try for the first index miss. */
  function ImportRetrying<W>(p: Pipeline<W>, w: W, name: string, syncedOnce: bool): (W, Outcome, bool) {
    var first := ImportOrError(p, w, name);
    if IsIndexMiss(first.1) && !syncedOnce then
      var last := ImportOrError(p, p.sync(first.0), name);
      (last.0, last.1, true)
    else (first.0, first.1, false)
  }

  function LastCallIn<W>(p: Pipeline<W>, w: W, name: string, retried: bool): W {
    if retried then p.sync(p.importOne(w, name).0) else w
  }

  /** What a finished import reveals: the dependencies still missing for the package it reports. */
  function Revealed<W>(p: Pipeline<W>, w: W, name: string, o: Outcome): seq<string> {
    if o.status.Added? || o.status.PendingReview? then p.subMissing(w, if o.name.Some? then o.name.value else name) else []
  }

  function Iterate<W>(p: Pipeline<W>, r: Run<W>): Run<W>
    requires r.queue != []
  {
    var name := r.queue[0];
    var done := ImportRetrying(p, r.world, name, r.syncedOnce);
    var revealed := Revealed(p, done.0, name, done.1);
    var novel := Fresh(r.seen, revealed);
    Run(r.queue[1..] + novel, r.seen + Elements(novel), r.syncedOnce || done.2,
        r.steps + [Step(name, done.1, revealed, novel, done.2, LastCallIn(p, r.world, name, done.2), done.0)],
        r.calls + (if done.2 then 2 else 1), done.0)
  }

  function Finish<W>(p: Pipeline<W>, r: Run<W>): Run<W>
    decreases MAX_AUTO_IMPORT_DEPS - |r.steps|
  {
    if r.queue == [] || |r.steps| >= MAX_AUTO_IMPORT_DEPS then r else Finish(p, Iterate(p, r))
  }

  function Outcomes<W>(steps: seq<Step<W>>): seq<Outcome> {
    seq(|steps|, i requires 0 <= i < |steps| => steps[i].outcome)
  }

  lemma FinishStep<W>(p: Pipeline<W>, r: Run<W>)
    requires r.queue != [] && |r.steps| < MAX_AUTO_IMPORT_DEPS
    ensures Finish(p, r) == Finish(p, Iterate(p, r))
  {
  }

  lemma FinishStops<W>(p: Pipeline<W>, r: Run<W>)
    requires r.queue == [] || |r.steps| >= MAX_AUTO_IMPORT_DEPS
    ensures Finish(p, r) == r
  {
  }

  // ----- The plain endpoint -----

  method AutoImportMissingDeps<W>(p: Pipeline<W>, inst: Installation<W>, depNames: seq<string>) returns (results: seq<Outcome>)
    modifies inst
    ensures var end := Finish(p, Start(depNames, old(inst.state)));
            results == Outcomes(end.steps) && inst.state == end.world
  {
    hide IsIndexMiss, Finish, ImportRetrying, Fresh, Dedup, Revealed, LastCallIn;
    results := [];
    var queue := Dedup(depNames);
    var seen := Elements(queue);
    var syncedOnce := false;
    ghost var steps: seq<Step<W>>, calls := [], 0;
    while queue != [] && |results| < MAX_AUTO_IMPORT_DEPS
      invariant results == Outcomes(steps)
      invariant Finish(p, Run(queue, seen, syncedOnce, steps, calls, inst.state)) == Finish(p, Start(depNames, old(inst.state)))
      decreases MAX_AUTO_IMPORT_DEPS - |results|
    {
      ghost var before := Run(queue, seen, syncedOnce, steps, calls, inst.state);
      FinishStep(p, before);
      var depName := queue[0];
      queue := queue[1..];
      var r, retried := ImportWithRetry(p, inst, depName, syncedOnce);
      syncedOnce := syncedOnce || retried;
      results := results + [r];
      var revealed := RevealedBy(p, inst, depName, r);
      ghost var novel := Fresh(seen, revealed);
      queue, seen := EnqueueNew(queue, seen, revealed);
      steps := steps + [Step(depName, r, revealed, novel, retried, LastCallIn(p, before.world, depName, retried), inst.state)];
      calls := calls + if retried then 2 else 1;
    }
    FinishStops(p, Run(queue, seen, syncedOnce, steps, calls, inst.state));
  }

  method ImportWithRetry<W>(p: Pipeline<W>, inst: Installation<W>, depName: string, syncedOnce: bool)
    returns (r: Outcome, retried: bool)
    modifies inst
    ensures (inst.state, r, retried) == ImportRetrying(p, old(inst.state), depName, syncedOnce)
  {
    hide IsIndexMiss;
    r := inst.ImportDepOrError(p, depName);
    retried := false;
    if IsIndexMiss(r) && !syncedOnce {
      retried := true;
      inst.SyncIndex(p);
      r := inst.ImportDepOrError(p, depName);
    }
  }

  method RevealedBy<W>(p: Pipeline<W>, inst: Installation<W>, depName: string, r: Outcome) returns (revealed: seq<string>)
    ensures revealed == Revealed(p, inst.state, depName, r)
  {
    revealed := [];
    if r.status.Added? || r.status.PendingReview? {
      revealed := p.subMissing(inst.state, if r.name.Some? then r.name.value else depName);
    }
  }

  method EnqueueNew(queue0: seq<string>, seen0: set<string>, revealed: seq<string>)
    returns (queue: seq<string>, seen: set<string>)
    ensures queue == queue0 + Fresh(seen0, revealed)
    ensures seen == seen0 + Elements(Fresh(seen0, revealed))
  {
    queue, seen := queue0, seen0;
    for i := 0 to |revealed|
      invariant queue == queue0 + Fresh(seen0, revealed[..i])
      invariant seen == seen0 + Elements(Fresh(seen0, revealed[..i]))
    {
      assert revealed[..i + 1][..i] == revealed[..i];
      if revealed[i] !in seen {
        seen := seen + {revealed[i]};
        queue := queue + [revealed[i]];
      }
    }
    assert revealed[..|revealed|] == revealed;
  }

  // ----- The event stream -----

  datatype Event =
    | Resolving(count: nat)
    | SyncStarted
    | SyncFinished
    | DepDone(name: string)
    | DepPending(name: string)
    | DepFailed(name: string)
    | Discovered(name: string)
    | Summary(failed: bool, added: nat, pending: nat, failures: nat)

  function OutcomeEvent(name: string, status: Status): Event {
    match status
    case Added => DepDone(name)
    case Skipped => DepDone(name)
    case PendingReview => DepPending(name)
    case _ => DepFailed(name)
  }

  function DiscoveredEvents(names: seq<string>): seq<Event> {
    seq(|names|, i requires 0 <= i < |names| => Discovered(names[i]))
  }

  function StepEvents<W>(s: Step<W>): seq<Event> {
    (if s.retried then [SyncStarted, SyncFinished] else [])
    + [OutcomeEvent(s.name, s.outcome.status)] + DiscoveredEvents(s.discovered)
  }

  function AllStepEvents<W>(steps: seq<Step<W>>): seq<Event> {
    if steps == [] then [] else AllStepEvents(steps[..|steps| - 1]) + StepEvents(steps[|steps| - 1])
  }

  /** How many results have one of the given statuses. */
  function Count(results: seq<Outcome>, which: set<Status>): nat {
    if results == [] then 0
    else Count(results[..|results| - 1], which) + if results[|results| - 1].status in which then 1 else 0
  }

  method UploadStreamDeps<W>(p: Pipeline<W>, inst: Installation<W>, missingDepNames: seq<string>)
    returns (dependenciesResolved: seq<Outcome>, events: seq<Event>)
    modifies inst
    ensures var end := Finish(p, Start(missingDepNames, old(inst.state)));
            && dependenciesResolved == Outcomes(end.steps) && inst.state == end.world
            && events == if missingDepNames == [] then []
                         else [Resolving(|missingDepNames|)] + AllStepEvents(end.steps) + [SummaryOf(dependenciesResolved)]
  {
    hide *;
    dependenciesResolved, events := [], [];
    if missingDepNames == [] {
      NothingToDo(p, inst.state);
      return;
    }
    events := [Resolving(|missingDepNames|)];
    var nAdded, nPending, nFailed := 0, 0, 0;
    var depQueue := Dedup(missingDepNames);
    var depSeen := Elements(depQueue);
    var depSyncedOnce := false;
    ghost var steps: seq<Step<W>>, calls := [], 0;
    NothingYet(p, missingDepNames, inst.state, events);
    while depQueue != [] && |dependenciesResolved| < MAX_AUTO_IMPORT_DEPS
      invariant dependenciesResolved == Outcomes(steps) && |dependenciesResolved| == |steps|
      invariant Finish(p, Run(depQueue, depSeen, depSyncedOnce, steps, calls, inst.state))
             == Finish(p, Start(missingDepNames, old(inst.state)))
      invariant events == [Resolving(|missingDepNames|)] + AllStepEvents(steps)
      invariant Tallied(dependenciesResolved, nAdded, nPending, nFailed)
      decreases MAX_AUTO_IMPORT_DEPS - |dependenciesResolved|
    {
      ghost var before := Run(depQueue, depSeen, depSyncedOnce, steps, calls, inst.state);
      FinishStep(p, before);
      var depName := depQueue[0];
      depQueue := depQueue[1..];
      var depResult, retried, syncEvents := ImportWithRetryStream(p, inst, depName, depSyncedOnce);
      depSyncedOnce := depSyncedOnce || retried;
      var outcomeEvent;
      nAdded, nPending, nFailed, outcomeEvent := Report(dependenciesResolved, depName, depResult, nAdded, nPending, nFailed);
      dependenciesResolved := dependenciesResolved + [depResult];
      var revealed := RevealedBy(p, inst, depName, depResult);
      ghost var novel := Fresh(depSeen, revealed);
      var foundEvents;
      depQueue, depSeen, foundEvents := EnqueueNewStream(depQueue, depSeen, revealed);
      events := events + syncEvents + [outcomeEvent] + foundEvents;
      ghost var step :=
        Step(depName, depResult, revealed, novel, retried, LastCallIn(p, before.world, depName, retried), inst.state);
      StepAppended(p, before, step, Run(depQueue, depSeen, depSyncedOnce, steps + [step], calls + if retried then 2 else 1, inst.state),
                   [Resolving(|missingDepNames|)], syncEvents, outcomeEvent, foundEvents);
      steps := steps + [step];
      calls := calls + if retried then 2 else 1;
    }
    FinishStops(p, Run(depQueue, depSeen, depSyncedOnce, steps, calls, inst.state));
    AddSummary(dependenciesResolved, nAdded, nPending, nFailed);
    events := events + [Summary(nFailed > 0 && nAdded == 0, nAdded, nPending, nFailed)];
  }

  ghost predicate Tallied(results: seq<Outcome>, added: nat, pending: nat, failed: nat) {
    added == Count(results, {Added}) && pending == Count(results, {PendingReview}) && failed == Count(results, {Blocked, Error})
  }

  method Report(ghost results: seq<Outcome>, depName: string, depResult: Outcome, added0: nat, pending0: nat, failed0: nat)
    returns (nAdded: nat, nPending: nat, nFailed: nat, event: Event)
    requires Tallied(results, added0, pending0, failed0)
    ensures Tallied(results + [depResult], nAdded, nPending, nFailed)
    ensures event == OutcomeEvent(depName, depResult.status)
  {
    nAdded, nPending, nFailed := added0, pending0, failed0;
    assert (results + [depResult])[..|results|] == results;
    if depResult.status.Added? {
      nAdded := nAdded + 1;
      event := DepDone(depName);
    } else if depResult.status.PendingReview? {
      nPending := nPending + 1;
      event := DepPending(depName);
    } else if depResult.status.Skipped? {
      event := DepDone(depName);
    } else {
      nFailed := nFailed + 1;
      event := DepFailed(depName);
    }
  }

  lemma AddSummary(results: seq<Outcome>, added: nat, pending: nat, failed: nat)
    requires Tallied(results, added, pending, failed)
    ensures SummaryOf(results) == Summary(failed > 0 && added == 0, added, pending, failed)
  {
  }

  lemma NothingToDo<W>(p: Pipeline<W>, w: W)
    ensures Finish(p, Start([], w)).world == w && Outcomes(Finish(p, Start([], w)).steps) == []
  {
  }

  lemma NothingYet<W>(p: Pipeline<W>, names: seq<string>, w: W, events: seq<Event>)
    ensures Start(names, w) == Run(Dedup(names), Elements(Dedup(names)), false, [], 0, w)
    ensures Outcomes<W>([]) == [] && Tallied([], 0, 0, 0) && events == events + AllStepEvents<W>([])
  {
  }

  /** The step just made extends the run, the list of outcomes and the events alike. */
  lemma StepAppended<W>(
    p: Pipeline<W>, r: Run<W>, s: Step<W>, r': Run<W>,
    first: seq<Event>, syncEvents: seq<Event>, outcomeEvent: Event, foundEvents: seq<Event>)
    requires r.queue != []
    requires s.name == r.queue[0] && s.discovered == Fresh(r.seen, s.revealed)
    requires (r'.world, s.outcome, s.retried) == ImportRetrying(p, r.world, s.name, r.syncedOnce)
    requires s.calledIn == LastCallIn(p, r.world, s.name, s.retried) && s.world == r'.world
    requires s.revealed == Revealed(p, r'.world, s.name, s.outcome)
    requires r'.queue == r.queue[1..] + s.discovered && r'.seen == r.seen + Elements(s.discovered)
    requires r'.syncedOnce == (r.syncedOnce || s.retried) && r'.steps == r.steps + [s]
    requires r'.calls == r.calls + if s.retried then 2 else 1
    requires syncEvents == if s.retried then [SyncStarted, SyncFinished] else []
    requires outcomeEvent == OutcomeEvent(s.name, s.outcome.status) && foundEvents == DiscoveredEvents(s.discovered)
    ensures r' == Iterate(p, r)
    ensures Outcomes(r'.steps) == Outcomes(r.steps) + [s.outcome]
    ensures first + AllStepEvents(r'.steps) == first + AllStepEvents(r.steps) + syncEvents + [outcomeEvent] + foundEvents
  {
    hide ImportRetrying, Revealed, Fresh, LastCallIn;
    OneMoreStep(r.steps, s);
    assert StepEvents(s) == syncEvents + [outcomeEvent] + foundEvents;
    hide StepEvents, AllStepEvents, Outcomes, OutcomeEvent, DiscoveredEvents, Elements;
    AllAppended(first, AllStepEvents(r.steps), syncEvents, [outcomeEvent], foundEvents);
  }

  lemma OneMoreStep<W>(steps: seq<Step<W>>, s: Step<W>)
    ensures AllStepEvents(steps + [s]) == AllStepEvents(steps) + StepEvents(s)
    ensures Outcomes(steps + [s]) == Outcomes(steps) + [s.outcome]
  {
    hide StepEvents;
    assert (steps + [s])[..|steps|] == steps;
  }

  lemma AllAppended(a: seq<Event>, b: seq<Event>, c: seq<Event>, d: seq<Event>, e: seq<Event>)
    ensures a + (b + (c + d + e)) == a + b + c + d + e
  {
  }

  /** An error when something failed and nothing was added. */
  function SummaryOf(results: seq<Outcome>): Event {
    var added, failures := Count(results, {Added}), Count(results, {Blocked, Error});
    Summary(failures > 0 && added == 0, added, Count(results, {PendingReview}), failures)
  }

  // ----- What the events tell -----

  predicate TellsDone(e: Event) { e.DepDone? }
  predicate TellsPending(e: Event) { e.DepPending? }
  predicate TellsFailed(e: Event) { e.DepFailed? }
  predicate TellsFound(e: Event) { e.Discovered? }

  function HowMany(events: seq<Event>, which: Event -> bool): nat {
    if events == [] then 0 else HowMany(events[..|events| - 1], which) + if which(events[|events| - 1]) then 1 else 0
  }

  lemma {:induction false} HowManyConcat(a: seq<Event>, b: seq<Event>, which: Event -> bool)
    ensures HowMany(a + b, which) == HowMany(a, which) + HowMany(b, which)
  {
    if b == [] {
      assert a + b == a;
    } else {
      assert (a + b)[..|a + b| - 1] == a + b[..|b| - 1];
      HowManyConcat(a, b[..|b| - 1], which);
    }
  }

  lemma {:induction false} DiscoveredOnly(names: seq<string>, which: Event -> bool)
    requires forall n :: which(Discovered(n)) == which(Discovered(""))
    ensures HowMany(DiscoveredEvents(names), which) == if which(Discovered("")) then |names| else 0
  {
    var events := DiscoveredEvents(names);
    if names != [] {
      assert events[..|events| - 1] == DiscoveredEvents(names[..|names| - 1]);
      DiscoveredOnly(names[..|names| - 1], which);
    }
  }

  lemma StepTells<W>(s: Step<W>, which: Event -> bool)
    requires !which(SyncStarted) && !which(SyncFinished) && forall n :: which(Discovered(n)) == which(Discovered(""))
    ensures HowMany(StepEvents(s), which)
            == (if which(OutcomeEvent(s.name, s.outcome.status)) then 1 else 0) + if which(Discovered("")) then |s.discovered| else 0
  {
    hide OutcomeEvent;
    var first, o := if s.retried then [SyncStarted, SyncFinished] else [], [OutcomeEvent(s.name, s.outcome.status)];
    HowManyConcat(first + o, DiscoveredEvents(s.discovered), which);
    HowManyConcat(first, o, which);
    DiscoveredOnly(s.discovered, which);
    assert [SyncStarted, SyncFinished][..1] == [SyncStarted] && [SyncStarted][..0] == [] && o[..0] == [];
  }

  function Found<W>(steps: seq<Step<W>>): nat {
    if steps == [] then 0 else Found(steps[..|steps| - 1]) + |steps[|steps| - 1].discovered|
  }

  lemma {:induction false} OutcomesTold<W>(steps: seq<Step<W>>, which: Event -> bool, statuses: set<Status>)
    requires !which(SyncStarted) && !which(SyncFinished) && forall n :: !which(Discovered(n))
    requires forall n, status :: which(OutcomeEvent(n, status)) <==> status in statuses
    ensures HowMany(AllStepEvents(steps), which) == Count(Outcomes(steps), statuses)
  {
    hide OutcomeEvent, StepEvents;
    if steps != [] {
      var front, s := steps[..|steps| - 1], steps[|steps| - 1];
      OutcomesTold(front, which, statuses);
      assert Outcomes(steps)[..|steps| - 1] == Outcomes(front);
      StepTells(s, which);
      HowManyConcat(AllStepEvents(front), StepEvents(s), which);
    }
  }

  lemma {:induction false} FoundTold<W>(steps: seq<Step<W>>)
    ensures HowMany(AllStepEvents(steps), TellsFound) == Found(steps)
  {
    if steps != [] {
      var front, s := steps[..|steps| - 1], steps[|steps| - 1];
      FoundTold(front);
      StepTells(s, TellsFound);
      hide StepEvents;
      HowManyConcat(AllStepEvents(front), StepEvents(s), TellsFound);
    }
  }

  lemma SummaryCounts(results: seq<Outcome>)
    ensures var failures := Count(results, {Blocked, Error});
            SummaryOf(results)
            == Summary(failures > 0 && Count(results, {Added}) == 0, Count(results, {Added}), Count(results, {PendingReview}), failures)
  {
    hide Count;
  }

  /** The stream reports every result once, as what it is, and every name queued; its last event counts those reports. */
  lemma EventsTell<W>(steps: seq<Step<W>>)
    ensures var events, results := AllStepEvents(steps), Outcomes(steps);
            && HowMany(events, TellsDone) == Count(results, {Added, Skipped})
            && HowMany(events, TellsPending) == Count(results, {PendingReview})
            && HowMany(events, TellsFailed) == Count(results, {Blocked, Error})
            && HowMany(events, TellsFound) == Found(steps)
            && var last := SummaryOf(results);
               && last.Summary? && last.added == Count(results, {Added}) && last.pending == HowMany(events, TellsPending)
               && last.failures == HowMany(events, TellsFailed)
               && (last.failed <==> last.failures > 0 && last.added == 0)
  {
    OutcomesTold(steps, TellsDone, {Added, Skipped});
    OutcomesTold(steps, TellsPending, {PendingReview});
    OutcomesTold(steps, TellsFailed, {Blocked, Error});
    FoundTold(steps);
    SummaryCounts(Outcomes(steps));
    hide *;
  }

  method ImportWithRetryStream<W>(p: Pipeline<W>, inst: Installation<W>, depName: string, depSyncedOnce: bool)
    returns (depResult: Outcome, retried: bool, events: seq<Event>)
    modifies inst
    ensures (inst.state, depResult, retried) == ImportRetrying(p, old(inst.state), depName, depSyncedOnce)
    ensures events == if retried then [SyncStarted, SyncFinished] else []
  {
    hide IsIndexMiss;
    depResult := inst.ImportDepOrError(p, depName);
    retried, events := false, [];
    if IsIndexMiss(depResult) && !depSyncedOnce {
      retried, events := true, [SyncStarted];
      inst.SyncIndex(p);
      events := events + [SyncFinished];
      depResult := inst.ImportDepOrError(p, depName);
    }
  }

  method EnqueueNewStream(queue0: seq<string>, seen0: set<string>, revealed: seq<string>)
    returns (depQueue: seq<string>, depSeen: set<string>, events: seq<Event>)
    ensures depQueue == queue0 + Fresh(seen0, revealed)
    ensures depSeen == seen0 + Elements(Fresh(seen0, revealed))
    ensures events == DiscoveredEvents(Fresh(seen0, revealed))
  {
    depQueue, depSeen, events := queue0, seen0, [];
    for i := 0 to |revealed|
      invariant depQueue == queue0 + Fresh(seen0, revealed[..i])
      invariant depSeen == seen0 + Elements(Fresh(seen0, revealed[..i]))
      invariant events == DiscoveredEvents(Fresh(seen0, revealed[..i]))
    {
      assert revealed[..i + 1][..i] == revealed[..i];
      if revealed[i] !in depSeen {
        depSeen := depSeen + {revealed[i]};
        depQueue := depQueue + [revealed[i]];
        events := events + [Discovered(revealed[i])];
      }
    }
    assert revealed[..|revealed|] == revealed;
  }

  // ----- What every run guarantees -----

  function Processed<W>(steps: seq<Step<W>>): seq<string> {
    seq(|steps|, i requires 0 <= i < |steps| => steps[i].name)
  }

  /** Everything ever queued, in order: the names processed, then those still waiting. */
  function Queued<W>(r: Run<W>): seq<string> {
    Processed(r.steps) + r.queue
  }

  /** The import of the step's name succeeded, or waits for a review, and the package it reports then misses this dependency. */
  ghost predicate Asks<W>(p: Pipeline<W>, s: Step<W>, n: string) {
    && (s.outcome.status == Added || s.outcome.status == PendingReview)
    && n in p.subMissing(s.world, if s.outcome.name.Some? then s.outcome.name.value else s.name)
  }

  /** No name twice; the calls are one per result plus at most one retry; what a step asks for is queued; once a result
      reports an index miss the index has been refreshed. */
  ghost predicate Inv<W>(p: Pipeline<W>, r: Run<W>) {
    && NoDuplicates(Queued(r)) && r.seen == Elements(Queued(r))
    && |r.steps| <= MAX_AUTO_IMPORT_DEPS
    && r.calls == |r.steps| + (if r.syncedOnce then 1 else 0)
    && (forall s, n | s in r.steps && Asks(p, s, n) :: n in r.seen)
    && (forall s, n | s in r.steps && n in s.discovered :: Asks(p, s, n))
    && (forall s | s in r.steps && IsIndexMiss(s.outcome) :: r.syncedOnce)
  }

  lemma {:induction false} FreshMeaning(seen: set<string>, revealed: seq<string>)
    ensures var f := Fresh(seen, revealed);
            NoDuplicates(f) && Elements(f) == Elements(revealed) - seen
  {
    if revealed == [] {
      assert Elements(revealed) == {};
    } else {
      var front, last := revealed[..|revealed| - 1], revealed[|revealed| - 1];
      FreshMeaning(seen, front);
      assert Elements(revealed) == Elements(front) + {last};
      assert last in Fresh(seen, front) <==> last in Elements(Fresh(seen, front));
      assert Elements(Fresh(seen, front) + [last]) == Elements(Fresh(seen, front)) + {last};
    }
  }

  lemma StartInv<W>(p: Pipeline<W>, names: seq<string>, w: W)
    ensures Inv(p, Start(names, w)) && Elements(Start(names, w).queue) == Elements(names)
  {
    DedupMeaning(names);
    assert Queued(Start(names, w)) == Dedup(names);
  }

  lemma IterateQueues<W>(p: Pipeline<W>, r: Run<W>)
    requires r.queue != []
    ensures var r' := Iterate(p, r);
            Queued(r') == Queued(r) + r'.steps[|r.steps|].discovered && r'.steps[..|r.steps|] == r.steps
  {
    hide ImportRetrying, Fresh, Revealed, LastCallIn;
    var r' := Iterate(p, r);
    var s := r'.steps[|r.steps|];
    assert Processed(r'.steps) == Processed(r.steps) + [s.name];
    assert r.queue == [s.name] + r.queue[1..];
  }

  lemma NoDuplicatesAppend(a: seq<string>, b: seq<string>)
    requires NoDuplicates(a) && NoDuplicates(b) && Elements(a) !! Elements(b)
    ensures NoDuplicates(a + b) && Elements(a + b) == Elements(a) + Elements(b)
  {
    forall i, j | 0 <= i < j < |a + b| ensures (a + b)[i] != (a + b)[j] {
      if i < |a| <= j {
        assert a[i] in Elements(a) && b[j - |a|] in Elements(b);
      }
    }
  }

  lemma IterateInv<W>(p: Pipeline<W>, r: Run<W>)
    requires Inv(p, r) && r.queue != [] && |r.steps| < MAX_AUTO_IMPORT_DEPS
    ensures Inv(p, Iterate(p, r))
  {
    hide IsIndexMiss, Fresh, Queued, ImportRetrying, LastCallIn;
    var r' := Iterate(p, r);
    var s := r'.steps[|r.steps|];
    FreshMeaning(r.seen, s.revealed);
    assert forall n :: Asks(p, s, n) <==> n in Elements(s.revealed);
    assert forall n :: n in s.discovered <==> n in Elements(s.discovered);
    RetriedOnce(p, r.world, s.name, r.syncedOnce);
    IterateQueues(p, r);
    NoDuplicatesAppend(Queued(r), s.discovered);
    assert r'.steps == r.steps + [s];
  }

  lemma RetriedOnce<W>(p: Pipeline<W>, w: W, name: string, syncedOnce: bool)
    ensures var done := ImportRetrying(p, w, name, syncedOnce);
            (done.2 ==> !syncedOnce) && (IsIndexMiss(done.1) ==> syncedOnce || done.2)
  {
  }

  lemma {:induction false} FinishInv<W>(p: Pipeline<W>, r: Run<W>)
    requires Inv(p, r)
    ensures Inv(p, Finish(p, r))
    ensures Finish(p, r).queue == [] || |Finish(p, r).steps| == MAX_AUTO_IMPORT_DEPS
    ensures Queued(r) <= Queued(Finish(p, r))
    decreases MAX_AUTO_IMPORT_DEPS - |r.steps|
  {
    hide Iterate, Queued;
    if r.queue != [] && |r.steps| < MAX_AUTO_IMPORT_DEPS {
      IterateInv(p, r);
      IterateQueues(p, r);
      IterateGrows(p, r);
      FinishInv(p, Iterate(p, r));
    }
  }

  lemma IterateGrows<W>(p: Pipeline<W>, r: Run<W>)
    requires r.queue != []
    ensures |Iterate(p, r).steps| == |r.steps| + 1
  {
  }

  /** The run stops with an empty queue or with 50 results; no name is processed twice; `import_one` is called at most once
      more than there are results, and exactly once more when the index was refreshed. */
  lemma RunBounds<W>(p: Pipeline<W>, names: seq<string>, w: W)
    ensures var end := Finish(p, Start(names, w));
            && |end.steps| <= 50
            && (end.queue == [] || |end.steps| == 50)
            && NoDuplicates(Processed(end.steps))
            && |end.steps| <= end.calls <= |end.steps| + 1
            && (end.calls == |end.steps| + 1 <==> end.syncedOnce)
            && (forall s | s in end.steps && IsIndexMiss(s.outcome) :: end.syncedOnce)
  {
    StartInv(p, names, w);
    FinishInv(p, Start(names, w));
    var end := Finish(p, Start(names, w));
    assert forall i | 0 <= i < |end.steps| :: Processed(end.steps)[i] == Queued(end)[i];
  }

  /** The world counts the imports made in it: each one adds one, a refresh of the index none. */
  ghost predicate Counts<W(!new)>(p: Pipeline<W>, count: W -> nat) {
    && (forall w, name :: count(p.importOne(w, name).0) == count(w) + 1)
    && forall w :: count(p.sync(w)) == count(w)
  }

  lemma {:induction false} FinishCounts<W(!new)>(p: Pipeline<W>, count: W -> nat, r: Run<W>)
    requires Counts(p, count)
    ensures count(Finish(p, r).world) + r.calls == count(r.world) + Finish(p, r).calls
    decreases MAX_AUTO_IMPORT_DEPS - |r.steps|
  {
    if r.queue != [] && |r.steps| < MAX_AUTO_IMPORT_DEPS {
      FinishStep(p, r);
      IterateGrows(p, r);
      FinishCounts(p, count, Iterate(p, r));
      hide Finish, IsIndexMiss, Fresh, Revealed;
      var name := r.queue[0];
      var first := p.importOne(r.world, name).0;
      assert count(first) == count(r.world) + 1 && count(p.importOne(p.sync(first), name).0) == count(first) + 1;
    }
  }

  /** Whatever counts the calls of `import_one` in the world sees one per result, and one more exactly when the index was
      refreshed. */
  lemma CallsCounted<W(!new)>(p: Pipeline<W>, count: W -> nat, names: seq<string>, w: W)
    requires Counts(p, count)
    ensures var end := Finish(p, Start(names, w));
            count(end.world) == count(w) + |end.steps| + if end.syncedOnce then 1 else 0
  {
    FinishCounts(p, count, Start(names, w));
    hide Finish, Counts;
    RunBounds(p, names, w);
  }

  // ----- The run and the pipeline -----

  /** What the loop looks for in the answer of an import. */
  predicate SaysMissing(a: Attempt) {
    match a
    case Returned(o) => o.message.Some? && Contains(o.message.value, "introuvable dans l'index")
    case Raised(message) => Contains(message, "introuvable dans l'index")
  }

  /** The step called `import_one` for its name, once more after a refresh if the first answer missed the index and none had before,
      and its outcome is the answer of the last call, or an error when that call raised. */
  ghost predicate CalledRight<W>(p: Pipeline<W>, s: Step<W>, before: W, syncedOnce: bool) {
    var first := p.importOne(before, s.name);
    && (s.retried <==> !syncedOnce && SaysMissing(first.1))
    && s.calledIn == (if s.retried then p.sync(first.0) else before)
    && s.world == p.importOne(s.calledIn, s.name).0
    && match p.importOne(s.calledIn, s.name).1
       case Returned(o) => s.outcome == o
       case Raised(message) => s.outcome == Outcome(Error, Some(s.name), Some(message))
  }

  function WorldBefore<W>(w: W, steps: seq<Step<W>>, i: nat): W
    requires i <= |steps|
  {
    if i == 0 then w else steps[i - 1].world
  }

  predicate AnyRetried<W>(steps: seq<Step<W>>) {
    exists j :: 0 <= j < |steps| && steps[j].retried
  }

  ghost predicate AllCalledRight<W>(p: Pipeline<W>, w: W, steps: seq<Step<W>>) {
    forall i | 0 <= i < |steps| :: CalledRight(p, steps[i], WorldBefore(w, steps, i), AnyRetried(steps[..i]))
  }

  /** The calls made so far, one after the other, lead from the first world to the present one. */
  ghost predicate Traced<W>(p: Pipeline<W>, w: W, r: Run<W>) {
    && AllCalledRight(p, w, r.steps) && r.world == WorldBefore(w, r.steps, |r.steps|)
    && r.syncedOnce == AnyRetried(r.steps)
  }

  lemma IterateCallsRight<W>(p: Pipeline<W>, r: Run<W>)
    requires r.queue != []
    ensures var r' := Iterate(p, r);
            var s := r'.steps[|r.steps|];
            && r'.steps == r.steps + [s] && CalledRight(p, s, r.world, r.syncedOnce)
            && r'.world == s.world && r'.syncedOnce == (r.syncedOnce || s.retried)
  {
    hide Contains, Fresh, Revealed;
  }

  lemma IterateTraced<W>(p: Pipeline<W>, w: W, r: Run<W>)
    requires Traced(p, w, r) && r.queue != []
    ensures Traced(p, w, Iterate(p, r))
  {
    IterateCallsRight(p, r);
    hide Iterate, CalledRight, AnyRetried;
    var r' := Iterate(p, r);
    var n := |r.steps|;
    AnyRetriedMore(r.steps, r'.steps[n]);
    forall i | 0 <= i <= n ensures CalledRight(p, r'.steps[i], WorldBefore(w, r'.steps, i), AnyRetried(r'.steps[..i])) {
      assert r'.steps[..i] == r.steps[..i];
      if i == n { assert r.steps[..n] == r.steps; } else { assert r'.steps[i] == r.steps[i]; }
    }
  }

  lemma AnyRetriedMore<W>(steps: seq<Step<W>>, s: Step<W>)
    ensures AnyRetried(steps + [s]) == (AnyRetried(steps) || s.retried)
  {
    var all := steps + [s];
    assert all[|steps|] == s && forall j | 0 <= j < |steps| :: all[j] == steps[j];
  }

  lemma {:induction false} FinishTraced<W>(p: Pipeline<W>, w: W, r: Run<W>)
    requires Traced(p, w, r)
    ensures Traced(p, w, Finish(p, r))
    decreases MAX_AUTO_IMPORT_DEPS - |r.steps|
  {
    hide Iterate, Traced;
    if r.queue != [] && |r.steps| < MAX_AUTO_IMPORT_DEPS {
      IterateTraced(p, w, r);
      IterateGrows(p, r);
      FinishTraced(p, w, Iterate(p, r));
    }
  }

  /** Every result is the answer of the last import called for its name, the calls following one another from the first world to the
      last, and the names queued by a step are names it asks for. */
  lemma ResultsAreAnswers<W>(p: Pipeline<W>, names: seq<string>, w: W)
    ensures var end := Finish(p, Start(names, w));
            && AllCalledRight(p, w, end.steps) && end.world == WorldBefore(w, end.steps, |end.steps|)
            && forall s, n | s in end.steps && n in s.discovered :: Asks(p, s, n)
  {
    hide Finish;
    StartInv(p, names, w);
    FinishInv(p, Start(names, w));
    FinishTraced(p, w, Start(names, w));
  }

  /** The set holds the initial names and whatever the imports of its names ask for. */
  ghost predicate Closed<W>(p: Pipeline<W>, steps: seq<Step<W>>, names: seq<string>, s: set<string>) {
    Elements(names) <= s && forall st, n | st in steps && st.name in s && Asks(p, st, n) :: n in s
  }

  lemma {:induction false} LeastAmongClosed<W>(p: Pipeline<W>, r: Run<W>, names: seq<string>, s: set<string>)
    requires Inv(p, r) && Closed(p, Finish(p, r).steps, names, s) && Elements(Queued(r)) <= s
    ensures Elements(Queued(Finish(p, r))) <= s
    decreases MAX_AUTO_IMPORT_DEPS - |r.steps|
  {
    if r.queue != [] && |r.steps| < MAX_AUTO_IMPORT_DEPS {
      hide Finish;
      FinishStep(p, r);
      var r' := Iterate(p, r);
      var st := r'.steps[|r.steps|];
      IterateInv(p, r);
      IterateQueues(p, r);
      FinishKeepsSteps(p, r');
      assert st in Finish(p, r').steps;
      assert Queued(r)[|r.steps|] == st.name && st.name in Elements(Queued(r));
      assert Elements(Queued(r')) == Elements(Queued(r)) + Elements(st.discovered);
      assert st in r'.steps && forall n | n in st.discovered :: Asks(p, st, n);
      LeastAmongClosed(p, r', names, s);
    }
  }

  lemma {:induction false} FinishKeepsSteps<W>(p: Pipeline<W>, r: Run<W>)
    ensures r.steps <= Finish(p, r).steps
    decreases MAX_AUTO_IMPORT_DEPS - |r.steps|
  {
    hide ImportRetrying, Fresh, Revealed, LastCallIn;
    if r.queue != [] && |r.steps| < MAX_AUTO_IMPORT_DEPS {
      FinishKeepsSteps(p, Iterate(p, r));
    }
  }

  /** When the run ends with an empty queue, the processed names are the least set that holds the initial names and is
      closed under the dependencies that the packages imported are missing. */
  lemma ProcessedIsLeastFixpoint<W>(p: Pipeline<W>, names: seq<string>, w: W)
    ensures var end := Finish(p, Start(names, w));
            end.queue == [] ==>
              && Closed(p, end.steps, names, Elements(Processed(end.steps)))
              && forall s | Closed(p, end.steps, names, s) :: Elements(Processed(end.steps)) <= s
  {
    var start := Start(names, w);
    var end := Finish(p, start);
    StartInv(p, names, w);
    FinishInv(p, start);
    if end.queue == [] {
      assert Queued(end) == Processed(end.steps);
      assert Queued(start) == start.queue;
      forall n | n in Elements(names) ensures n in Elements(Processed(end.steps)) {
        assert n in Elements(start.queue) && n in Queued(start);
      }
      forall s | Closed(p, end.steps, names, s) ensures Elements(Processed(end.steps)) <= s {
        LeastAmongClosed(p, start, names, s);
      }
    }
  }
}
