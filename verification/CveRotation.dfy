/** services/cve_rematch.py: validated manifests are matched again against the current vulnerability base, a limited batch
    per run, oldest stamp first. Only a completed match stamps its manifest. */
module CveRotation {
  import opened Sequences

  type Id = nat

  datatype Action = Allow | Review | Block

  /** One entry of a match: its CVE identifier and its severity in lower case. */
  datatype Cve = Cve(id: string, severity: string)

  datatype Status = Validated | PendingReview | Other

  /** A stored manifest: when it was last written (absent on old rows), its status and the CVEs it is known to have. */
  datatype Row = Row(stamp: Option<int>, status: Status, cves: seq<Cve>)

  type Rows = map<Id, Row>

  // ----- One manifest -----

  /** What matching one manifest again comes to before its result is judged. */
  datatype Match = NoSbom | Failure | Found(cves: seq<Cve>)

  datatype Outcome = Skipped | Failed | Clean | Flagged

  function Ids(cves: seq<Cve>): set<string> {
    set c | c in cves && c.id != "" :: c.id
  }

  function FirstWithId(cves: seq<Cve>, id: string): Cve
    requires exists c :: c in cves && c.id == id
  {
    if cves[0].id == id then cves[0] else FirstWithId(cves[1..], id)
  }

  function ActionFor(policy: map<string, Action>, cves: seq<Cve>, id: string): Action
    requires id in Ids(cves)
  {
    var severity := FirstWithId(cves, id).severity;
    if severity in policy then policy[severity] else Allow
  }

  /** The worst action the policy asks for among the CVEs that were not known before. */
  ghost predicate IsWorst(policy: map<string, Action>, cves: seq<Cve>, appeared: set<string>, worst: Action)
    requires appeared <= Ids(cves)
  {
    && (worst == Block <==> exists id :: id in appeared && ActionFor(policy, cves, id) == Block)
    && (worst == Allow <==> forall id | id in appeared :: ActionFor(policy, cves, id) == Allow)
  }

  /** The new CVEs are looked at in no particular order. */
  method WorstAction(policy: map<string, Action>, cves: seq<Cve>, appeared: set<string>) returns (worst: Action)
    requires appeared <= Ids(cves)
    ensures IsWorst(policy, cves, appeared, worst)
  {
    worst := Allow;
    var left, seen := appeared, {};
    while left != {}
      invariant left <= appeared && seen == appeared - left && IsWorst(policy, cves, seen, worst)
      decreases |left|
    {
      var id :| id in left;
      left := left - {id};
      var action := ActionFor(policy, cves, id);
      if action == Block {
        worst := Block;
      } else if action == Review && worst != Block {
        worst := Review;
      }
      seen := seen + {id};
    }
    assert seen == appeared;
  }

  ghost function Worst(policy: map<string, Action>, cves: seq<Cve>, appeared: set<string>): (w: Action)
    requires appeared <= Ids(cves)
    ensures IsWorst(policy, cves, appeared, w)
  {
    if exists id :: id in appeared && ActionFor(policy, cves, id) == Block then Block
    else if forall id | id in appeared :: ActionFor(policy, cves, id) == Allow then Allow
    else Review
  }

  /** The match found a CVE that was not known, for whose severity the policy asks for more than to let it pass. Of several entries
      with one identifier the first counts; entries without one are passed over. */
  ghost predicate CallsForReview(policy: map<string, Action>, known: seq<Cve>, found: seq<Cve>) {
    exists i :: 0 <= i < |found| && IsNew(known, found, i)
                && found[i].severity in policy && policy[found[i].severity] != Allow
  }

  ghost predicate IsNew(known: seq<Cve>, found: seq<Cve>, i: nat)
    requires i < |found|
  {
    found[i].id != "" && (forall c | c in known :: c.id != found[i].id) && forall j | 0 <= j < i :: found[j].id != found[i].id
  }

  lemma {:induction false} FirstEntry(cves: seq<Cve>, id: string) returns (i: nat)
    requires exists c :: c in cves && c.id == id
    ensures i < |cves| && cves[i].id == id && FirstWithId(cves, id) == cves[i] && forall j | 0 <= j < i :: cves[j].id != id
  {
    if cves[0].id == id {
      i := 0;
    } else {
      i := FirstEntry(cves[1..], id);
      i := i + 1;
    }
  }

  lemma ReviewIff(policy: map<string, Action>, known: seq<Cve>, found: seq<Cve>)
    ensures Worst(policy, found, Ids(found) - Ids(known)) != Allow <==> CallsForReview(policy, known, found)
  {
    hide FirstWithId;
    var appeared := Ids(found) - Ids(known);
    forall id | id in appeared && ActionFor(policy, found, id) != Allow ensures CallsForReview(policy, known, found) {
      var i := FirstEntry(found, id);
      assert IsNew(known, found, i);
    }
    forall i | 0 <= i < |found| && IsNew(known, found, i)
      ensures found[i].id in appeared && FirstWithId(found, found[i].id) == found[i]
    {
      var k := FirstEntry(found, found[i].id);
    }
  }

  ghost function OutcomeOf(policy: map<string, Action>, row: Row, m: Match): Outcome {
    match m
    case NoSbom => Skipped
    case Failure => Failed
    case Found(cves) =>
      if Worst(policy, cves, Ids(cves) - Ids(row.cves)) != Allow && row.status == Validated then Flagged else Clean
  }

  /** A skipped or failed match leaves the row as it is; any other rewrites it with the time of writing. */
  ghost function RowAfter(policy: map<string, Action>, row: Row, m: Match, now: int): Row {
    if !m.Found? then row
    else Row(Some(now), if OutcomeOf(policy, row, m) == Flagged then PendingReview else row.status, m.cves)
  }

  // ----- One run -----

  datatype Summary = Summary(scanned: nat, flagged: nat, errors: nat, skipped: nat)

  function Counted(s: Summary, o: Outcome): Summary {
    match o
    case Skipped => s.(skipped := s.skipped + 1)
    case Failed => s.(scanned := s.scanned + 1, errors := s.errors + 1)
    case Clean => s.(scanned := s.scanned + 1)
    case Flagged => s.(scanned := s.scanned + 1, flagged := s.flagged + 1)
  }

  /** What a run meets at each manifest of its batch: the match and the time of writing. */
  datatype Visit = Visit(id: Id, result: Match, now: int)

  ghost function RowsAfter(policy: map<string, Action>, rows: Rows, visits: seq<Visit>): Rows {
    if visits == [] then rows
    else
      var before, v := RowsAfter(policy, rows, visits[..|visits| - 1]), visits[|visits| - 1];
      if v.id in before then before[v.id := RowAfter(policy, before[v.id], v.result, v.now)] else before
  }

  ghost function SummaryAfter(policy: map<string, Action>, rows: Rows, visits: seq<Visit>): Summary {
    if visits == [] then Summary(0, 0, 0, 0)
    else
      var front, v := visits[..|visits| - 1], visits[|visits| - 1];
      var before := RowsAfter(policy, rows, front);
      if v.id in before then Counted(SummaryAfter(policy, rows, front), OutcomeOf(policy, before[v.id], v.result))
      else SummaryAfter(policy, rows, front)
  }

  class ManifestTable {
    var rows: Rows

    constructor (rows: Rows)
      ensures this.rows == rows
    {
      this.rows := rows;
    }

    method RematchOne(policy: map<string, Action>, id: Id, result: Match, now: int) returns (o: Outcome)
      requires id in rows
      modifies this
      ensures o == OutcomeOf(policy, old(rows)[id], result)
      ensures rows == old(rows)[id := RowAfter(policy, old(rows)[id], result, now)]
      ensures !result.Found? ==> rows == old(rows) && o == if result.NoSbom? then Skipped else Failed
      ensures result.Found? ==>
                var before := old(rows)[id];
                var flagged := before.status == Validated && CallsForReview(policy, before.cves, result.cves);
                && rows == old(rows)[id := Row(Some(now), if flagged then PendingReview else before.status, result.cves)]
                && o == if flagged then Flagged else Clean
    {
      if result.NoSbom? {
        return Skipped;
      }
      if result.Failure? {
        return Failed;
      }
      var appeared := Ids(result.cves) - Ids(rows[id].cves);
      var worst := WorstAction(policy, result.cves, appeared);
      assert worst == Worst(policy, result.cves, appeared);
      ReviewIff(policy, rows[id].cves, result.cves);
      var needsDecision := (worst == Block || worst == Review) && rows[id].status == Validated;
      rows := rows[id := Row(Some(now), if needsDecision then PendingReview else rows[id].status, result.cves)];
      o := if needsDecision then Flagged else Clean;
    }

    /** The batch in order, up to the manifest before which the time limit is reached. */
    method RunCveRematch(policy: map<string, Action>, visits: seq<Visit>, timeUpBefore: nat) returns (summary: Summary)
      requires forall i | 0 <= i < |visits| :: visits[i].id in rows
      modifies this
      ensures var n := if timeUpBefore < |visits| then timeUpBefore else |visits|;
              rows == RowsAfter(policy, old(rows), visits[..n]) && summary == SummaryAfter(policy, old(rows), visits[..n])
    {
      summary := Summary(0, 0, 0, 0);
      var i := 0;
      while i < |visits| && i < timeUpBefore
        invariant 0 <= i <= |visits| && i <= timeUpBefore
        invariant rows.Keys == old(rows).Keys
        invariant rows == RowsAfter(policy, old(rows), visits[..i])
        invariant summary == SummaryAfter(policy, old(rows), visits[..i])
      {
        hide OutcomeOf, RowAfter;
        assert visits[..i + 1][..i] == visits[..i];
        var o := RematchOne(policy, visits[i].id, visits[i].result, visits[i].now);
        summary := Counted(summary, o);
        i := i + 1;
      }
    }
  }

  // ----- Rotation over many runs -----

  /** `ORDER BY updated_at ASC NULLS FIRST`: a may come before b. */
  predicate NotLater(a: Option<int>, b: Option<int>) {
    a.None? || (b.Some? && a.value <= b.value)
  }

  function Eligible(rows: Rows): set<Id> {
    set id | id in rows && rows[id].status == Validated
  }

  /** A result of the query: eligible manifests, as many as the limit allows, none left out that is older than one taken. */
  ghost predicate IsBatch(rows: Rows, limit: nat, batch: set<Id>) {
    && batch <= Eligible(rows)
    && (|batch| == limit || (|batch| < limit && batch == Eligible(rows)))
    && forall b, e | b in batch && e in Eligible(rows) - batch :: NotLater(rows[b].stamp, rows[e].stamp)
  }

  /** From one run to the next: manifests of the batch are rewritten with a new stamp, except that those in `stuck` may be left
      alone; no other manifest changes; uploads in between add manifests with new stamps. New stamps are at least `since`. */
  ghost predicate Turn(rows: Rows, rows': Rows, batch: set<Id>, limit: nat, stuck: set<Id>, since: int) {
    && IsBatch(rows, limit, batch)
    && (forall id | id in rows && rows[id].stamp.Some? :: rows[id].stamp.value < since)
    && rows.Keys <= rows'.Keys
    && (forall id | id in rows && id !in batch :: rows'[id] == rows[id])
    && (forall id | id in batch :: Restamped(rows'[id], since) || (id in stuck && rows'[id] == rows[id]))
    && (forall id | id in rows' && id !in rows :: Restamped(rows'[id], since))
  }

  predicate Restamped(row: Row, since: int) {
    row.stamp.Some? && row.stamp.value >= since
  }

  /** A run of the code over a batch, with increasing times of writing, is such a turn when only manifests in `stuck` are
      skipped or fail. */
  lemma {:induction false} RunIsTurn(
    policy: map<string, Action>, rows: Rows, visits: seq<Visit>, limit: nat, stuck: set<Id>, since: int)
    requires IsBatch(rows, limit, Visited(visits))
    requires forall i, j | 0 <= i < j < |visits| :: visits[i].id != visits[j].id
    requires forall id | id in rows && rows[id].stamp.Some? :: rows[id].stamp.value < since
    requires forall i | 0 <= i < |visits| :: visits[i].now >= since && (visits[i].result.Found? || visits[i].id in stuck)
    ensures Turn(rows, RowsAfter(policy, rows, visits), Visited(visits), limit, stuck, since)
  {
    VisitedRows(policy, rows, visits);
  }

  function Visited(visits: seq<Visit>): set<Id> {
    set v | v in visits :: v.id
  }

  lemma VisitedRows(policy: map<string, Action>, rows: Rows, visits: seq<Visit>)
    requires Visited(visits) <= rows.Keys
    requires forall i, j | 0 <= i < j < |visits| :: visits[i].id != visits[j].id
    ensures RowsAfter(policy, rows, visits).Keys == rows.Keys
    ensures forall id | id in rows && id !in Visited(visits) :: RowsAfter(policy, rows, visits)[id] == rows[id]
    ensures forall i | 0 <= i < |visits| ::
              RowsAfter(policy, rows, visits)[visits[i].id] == RowAfter(policy, rows[visits[i].id], visits[i].result, visits[i].now)
  {
    var rest := rows.Keys - Visited(visits);
    assert forall v | v in visits :: v.id in Visited(visits);
    hide RowsAfter, RowAfter;
    RunLeaves(policy, rows, visits, rest);
    forall i | 0 <= i < |visits|
      ensures RowsAfter(policy, rows, visits)[visits[i].id] == RowAfter(policy, rows[visits[i].id], visits[i].result, visits[i].now)
    {
      VisitedOnce(policy, rows, visits, i);
    }
  }

  /** A manifest met once in a run becomes what that one match makes of it. */
  lemma {:induction false} VisitedOnce(policy: map<string, Action>, rows: Rows, visits: seq<Visit>, i: nat)
    requires i < |visits| && visits[i].id in rows
    requires forall j | 0 <= j < |visits| && j != i :: visits[j].id != visits[i].id
    ensures visits[i].id in RowsAfter(policy, rows, visits)
    ensures RowsAfter(policy, rows, visits)[visits[i].id] == RowAfter(policy, rows[visits[i].id], visits[i].result, visits[i].now)
  {
    hide RowAfter;
    var n := |visits| - 1;
    var front := visits[..n];
    assert forall j | 0 <= j < n :: front[j] == visits[j];
    if i < n {
      VisitedOnce(policy, rows, front, i);
    } else {
      assert forall v | v in front :: v.id != visits[i].id;
      RunLeaves(policy, rows, front, {visits[i].id});
    }
  }

  /** Manifests that may be taken before x: those that can be rematched, and those that may be skipped or fail. */
  function Ahead(rows: Rows, x: Id, stuck: set<Id>): set<Id>
    requires x in rows
  {
    set y | y in Eligible(rows) && y != x && y !in stuck && NotLater(rows[y].stamp, rows[x].stamp)
  }

  function StuckAhead(rows: Rows, x: Id, stuck: set<Id>): set<Id>
    requires x in rows
  {
    set y | y in Eligible(rows) && y != x && y in stuck && NotLater(rows[y].stamp, rows[x].stamp)
  }

  lemma SubsetSize<T>(a: set<T>, b: set<T>)
    requires a <= b
    ensures |a| <= |b|
    ensures |b - a| == |b| - |a|
  {
    assert b == a + (b - a);
  }

  /** A batch without x holds only manifests that come before it, as many as the limit. */
  lemma TakenBefore(rows: Rows, batch: set<Id>, limit: nat, stuck: set<Id>, x: Id)
    requires IsBatch(rows, limit, batch) && x in Eligible(rows) && x !in batch
    ensures |batch| == limit && batch - stuck <= Ahead(rows, x, stuck) && batch * stuck <= StuckAhead(rows, x, stuck)
  {
    var left := Eligible(rows) - batch;
    assert x in left;
    assert forall b | b in batch :: b in Eligible(rows) && NotLater(rows[b].stamp, rows[x].stamp);
  }

  lemma TurnKeeps(rows: Rows, rows': Rows, batch: set<Id>, limit: nat, stuck: set<Id>, since: int, x: Id)
    requires Turn(rows, rows', batch, limit, stuck, since) && x in Eligible(rows) && x !in batch
    ensures rows'[x] == rows[x] && x in Eligible(rows')
    ensures Ahead(rows', x, stuck) <= Ahead(rows, x, stuck) - (batch - stuck)
    ensures StuckAhead(rows', x, stuck) <= StuckAhead(rows, x, stuck)
  {
    hide IsBatch;
    forall y | y in rows' && y != x && NotLater(rows'[y].stamp, rows'[x].stamp)
      ensures y in rows && rows'[y] == rows[y] && y !in batch - stuck
    {
      if y in batch { assert !Restamped(rows'[y], since); }
    }
  }

  /** A turn that does not take x brings it forward by the limit less the stuck manifests before it. */
  lemma Progress(rows: Rows, rows': Rows, batch: set<Id>, limit: nat, stuck: set<Id>, since: int, x: Id)
    requires Turn(rows, rows', batch, limit, stuck, since)
    requires x in Eligible(rows) && x !in batch && x !in stuck
    ensures rows'[x] == rows[x] && x in Eligible(rows')
    ensures |StuckAhead(rows', x, stuck)| <= |StuckAhead(rows, x, stuck)|
    ensures |Ahead(rows', x, stuck)| + limit <= |Ahead(rows, x, stuck)| + |StuckAhead(rows, x, stuck)|
  {
    TakenBefore(rows, batch, limit, stuck, x);
    TurnKeeps(rows, rows', batch, limit, stuck, since, x);
    hide *;
    var taken := batch - stuck;
    assert batch - taken == batch * stuck;
    SubsetSize(taken, batch);
    SubsetSize(batch * stuck, StuckAhead(rows, x, stuck));
    SubsetSize(StuckAhead(rows', x, stuck), StuckAhead(rows, x, stuck));
    SubsetSize(Ahead(rows', x, stuck), Ahead(rows, x, stuck) - taken);
    SubsetSize(taken, Ahead(rows, x, stuck));
  }

  /** The tables, the batches and the moments of a schedule of runs. */
  ghost predicate IsSchedule(tables: seq<Rows>, batches: seq<set<Id>>, times: seq<int>, limit: nat, stuck: set<Id>) {
    && |tables| == |batches| + 1 && |times| == |batches|
    && forall i | 0 <= i < |batches| :: Turn(tables[i], tables[i + 1], batches[i], limit, stuck, times[i])
  }

  lemma {:induction false} ForwardEachRun(
    tables: seq<Rows>, batches: seq<set<Id>>, times: seq<int>, limit: nat, stuck: set<Id>, x: Id, r: nat)
    requires IsSchedule(tables, batches, times, limit, stuck) && r <= |batches|
    requires x in Eligible(tables[0]) && x !in stuck && forall i | 0 <= i < r :: x !in batches[i]
    requires |StuckAhead(tables[0], x, stuck)| <= limit
    ensures x in Eligible(tables[r])
    ensures |StuckAhead(tables[r], x, stuck)| <= |StuckAhead(tables[0], x, stuck)|
    ensures |Ahead(tables[r], x, stuck)| + r * (limit - |StuckAhead(tables[0], x, stuck)|) <= |Ahead(tables[0], x, stuck)|
  {
    assert x in tables[0];
    hide Ahead, StuckAhead, Turn;
    if r > 0 {
      ForwardEachRun(tables, batches, times, limit, stuck, x, r - 1);
      assert Turn(tables[r - 1], tables[r], batches[r - 1], limit, stuck, times[r - 1]);
      Progress(tables[r - 1], tables[r], batches[r - 1], limit, stuck, times[r - 1], x);
      OneMore(r - 1, limit - |StuckAhead(tables[0], x, stuck)|);
    }
  }

  lemma OneMore(n: int, part: int)
    ensures (n + 1) * part == n * part + part
  {
  }

  /** Rotation is fair: with n eligible manifests of which k may be skipped or fail, k below the limit, any other one is in a
      batch within r runs as soon as r * (limit - k) >= n - k. */
  lemma RematchedWithin(tables: seq<Rows>, batches: seq<set<Id>>, times: seq<int>, limit: nat, stuck: set<Id>, x: Id)
    requires IsSchedule(tables, batches, times, limit, stuck) && x in Eligible(tables[0]) && x !in stuck
    requires var k := |Eligible(tables[0]) * stuck|;
             k < limit && |batches| * (limit - k) >= |Eligible(tables[0])| - k
    ensures exists i :: 0 <= i < |batches| && x in batches[i]
  {
    var k, r := |Eligible(tables[0]) * stuck|, |batches|;
    var ahead, blocked := Ahead(tables[0], x, stuck), StuckAhead(tables[0], x, stuck);
    assert blocked <= Eligible(tables[0]) * stuck;
    SubsetSize(blocked, Eligible(tables[0]) * stuck);
    assert ahead <= Eligible(tables[0]) - (Eligible(tables[0]) * stuck) - {x};
    SubsetSize(ahead, Eligible(tables[0]) - (Eligible(tables[0]) * stuck) - {x});
    SubsetSize(Eligible(tables[0]) * stuck, Eligible(tables[0]));
    assert |ahead| < |Eligible(tables[0])| - k;
    if forall i | 0 <= i < r :: x !in batches[i] {
      ForwardEachRun(tables, batches, times, limit, stuck, x, r);
      TimesMonotone(limit - k, limit - |blocked|, r);
    }
  }

  lemma TimesMonotone(a: int, b: int, c: nat)
    requires a <= b
    ensures c * a <= c * b
  {
  }

  // ----- Starvation -----

  /** Manifests with an older stamp than x that every run leaves alone. */
  ghost predicate Blocking(rows: Rows, x: Id, h: set<Id>) {
    x in rows && forall y | y in h :: y in Eligible(rows) && !NotLater(rows[x].stamp, rows[y].stamp)
  }

  ghost predicate Untouched(rows: Rows, rows': Rows, h: set<Id>) {
    forall y | y in h && y in rows :: y in rows' && rows'[y] == rows[y]
  }

  /** A batch is fetched and some of it may be rewritten, but nothing in h. */
  ghost predicate Pass(rows: Rows, rows': Rows, batch: set<Id>, limit: nat, h: set<Id>) {
    IsBatch(rows, limit, batch) && Untouched(rows, rows', h) && Untouched(rows, rows', rows.Keys - batch)
  }

  lemma BlockedNow(rows: Rows, rows': Rows, batch: set<Id>, limit: nat, x: Id, h: set<Id>)
    requires Pass(rows, rows', batch, limit, h) && Blocking(rows, x, h) && |h| >= limit
    ensures x !in batch && Blocking(rows', x, h)
  {
    var left := Eligible(rows) - batch;
    forall y | y in h ensures x in batch ==> y in batch {
      assert y in left || y in batch;
    }
    if x in batch {
      assert x !in h;
      assert h + {x} <= batch;
      SubsetSize(h + {x}, batch);
    }
  }

  /** As many manifests as the limit, all older than x and never rewritten, keep x out of every batch. */
  lemma {:induction false} BlockedForGood(tables: seq<Rows>, batches: seq<set<Id>>, limit: nat, x: Id, h: set<Id>, r: nat)
    requires |tables| == |batches| + 1 && r <= |batches| && Blocking(tables[0], x, h) && |h| >= limit
    requires forall i | 0 <= i < |batches| :: Pass(tables[i], tables[i + 1], batches[i], limit, h)
    ensures Blocking(tables[r], x, h) && forall i | 0 <= i < r :: x !in batches[i]
  {
    hide Pass, Blocking;
    if r > 0 {
      BlockedForGood(tables, batches, limit, x, h, r - 1);
      BlockedNow(tables[r - 1], tables[r], batches[r - 1], limit, x, h);
    }
  }

  /** Manifests without an SBOM and failing ones are left as they are by a run, and so are those it does not visit. */
  lemma {:induction false} RunLeaves(policy: map<string, Action>, rows: Rows, visits: seq<Visit>, h: set<Id>)
    requires forall v | v in visits && v.id in h :: !v.result.Found?
    ensures RowsAfter(policy, rows, visits).Keys == rows.Keys && Untouched(rows, RowsAfter(policy, rows, visits), h)
  {
    hide OutcomeOf;
    if visits != [] {
      var front, v := visits[..|visits| - 1], visits[|visits| - 1];
      assert v in visits && forall u | u in front :: u in visits;
      RunLeaves(policy, rows, front, h);
    }
  }

  // ----- What a run does to the statuses -----

  /** A match changes the status of one manifest in one case only. */
  lemma StatusAfter(policy: map<string, Action>, row: Row, m: Match, now: int)
    ensures RowAfter(policy, row, m, now).status
            == if m.Found? && row.status == Validated && CallsForReview(policy, row.cves, m.cves) then PendingReview else row.status
    ensures OutcomeOf(policy, row, m) == Flagged <==> RowAfter(policy, row, m, now).status != row.status
  {
    hide CallsForReview, Worst;
    if m.Found? { ReviewIff(policy, row.cves, m.cves); }
  }

  /** Nothing but a run's flag takes a manifest out of the rotation, and nothing brings it back. */
  lemma {:induction false} StatusesFall(policy: map<string, Action>, rows: Rows, visits: seq<Visit>, id: Id)
    requires id in rows
    ensures id in RowsAfter(policy, rows, visits)
    ensures rows[id].status != Validated ==> RowsAfter(policy, rows, visits)[id].status == rows[id].status
  {
    hide RowAfter;
    if visits != [] {
      var front, v := visits[..|visits| - 1], visits[|visits| - 1];
      StatusesFall(policy, rows, front, id);
      var before := RowsAfter(policy, rows, front);
      if v.id == id { StatusAfter(policy, before[id], v.result, v.now); }
    }
  }

  /** A manifest visited once in a run is left in the rotation exactly when its match did not call for a review. */
  lemma EligibleAfterIff(policy: map<string, Action>, rows: Rows, visits: seq<Visit>, i: nat)
    requires i < |visits| && visits[i].id in Eligible(rows)
    requires forall j | 0 <= j < |visits| && j != i :: visits[j].id != visits[i].id
    ensures visits[i].id in Eligible(RowsAfter(policy, rows, visits))
            <==> !(visits[i].result.Found? && CallsForReview(policy, rows[visits[i].id].cves, visits[i].result.cves))
  {
    hide RowAfter, CallsForReview, RowsAfter;
    VisitedOnce(policy, rows, visits, i);
    StatusAfter(policy, rows[visits[i].id], visits[i].result, visits[i].now);
  }

  /** The summary of a run adds up: every visit is scanned or skipped, and those flagged are those that left the rotation. */
  lemma {:induction false} SummaryAddsUp(policy: map<string, Action>, rows: Rows, visits: seq<Visit>)
    requires Visited(visits) <= rows.Keys
    ensures var s, after := SummaryAfter(policy, rows, visits), RowsAfter(policy, rows, visits);
            && after.Keys == rows.Keys
            && s.scanned + s.skipped == |visits|
            && s.skipped == Failures(visits, NoSbom) && s.errors == Failures(visits, Failure)
            && s.flagged + |Eligible(after)| == |Eligible(rows)|
  {
    hide RowAfter, OutcomeOf;
    if visits != [] {
      var front, v := visits[..|visits| - 1], visits[|visits| - 1];
      assert forall u | u in front :: u in visits && u.id in Visited(visits);
      assert v in visits && v.id in Visited(visits);
      SummaryAddsUp(policy, rows, front);
      var before, after := RowsAfter(policy, rows, front), RowsAfter(policy, rows, visits);
      CountedOnce(policy, before, v);
    }
  }

  /** How many visits came to this, without a match. */
  function Failures(visits: seq<Visit>, m: Match): nat {
    if visits == [] then 0
    else Failures(visits[..|visits| - 1], m) + if visits[|visits| - 1].result == m then 1 else 0
  }

  lemma CountedOnce(policy: map<string, Action>, rows: Rows, v: Visit)
    requires v.id in rows
    ensures var o, after := OutcomeOf(policy, rows[v.id], v.result), rows[v.id := RowAfter(policy, rows[v.id], v.result, v.now)];
            && (o == Skipped <==> v.result == NoSbom) && (o == Failed <==> v.result == Failure)
            && |Eligible(after)| == |Eligible(rows)| - if o == Flagged then 1 else 0
  {
    var row, after := rows[v.id], rows[v.id := RowAfter(policy, rows[v.id], v.result, v.now)];
    StatusAfter(policy, row, v.result, v.now);
    assert OutcomeOf(policy, row, v.result) == Flagged ==> row.status == Validated;
    hide Worst, RowAfter;
    if OutcomeOf(policy, row, v.result) == Flagged {
      assert Eligible(after) == Eligible(rows) - {v.id};
    } else {
      assert Eligible(after) == Eligible(rows);
    }
  }

  /** Runs of the code one after the other, each over a fetched batch, perhaps cut by the time limit, with nothing but uploads
      of new manifests in between. */
  ghost predicate AreRuns(
    policy: map<string, Action>, tables: seq<Rows>, batches: seq<set<Id>>, runs: seq<seq<Visit>>, limit: nat)
  {
    && |tables| == |batches| + 1 && |runs| == |batches|
    && forall i | 0 <= i < |batches| ::
         && IsBatch(tables[i], limit, batches[i]) && Visited(runs[i]) <= batches[i]
         && Untouched(RowsAfter(policy, tables[i], runs[i]), tables[i + 1], tables[i].Keys)
  }

  /** A manifest flagged in one run is in no batch of any later one. */
  lemma {:induction false} FlaggedIsNotTakenAgain(
    policy: map<string, Action>, tables: seq<Rows>, batches: seq<set<Id>>, runs: seq<seq<Visit>>, limit: nat, i: nat, k: nat, j: nat)
    requires AreRuns(policy, tables, batches, runs, limit) && i < j < |tables| && k < |runs[i]|
    requires forall m | 0 <= m < |runs[i]| && m != k :: runs[i][m].id != runs[i][k].id
    requires var v := runs[i][k];
             v.result.Found? && v.id in tables[i] && CallsForReview(policy, tables[i][v.id].cves, v.result.cves)
    ensures runs[i][k].id in tables[j] && tables[j][runs[i][k].id].status != Validated
    ensures j < |batches| ==> runs[i][k].id !in batches[j]
    decreases j
  {
    hide RowsAfter, CallsForReview;
    var id := runs[i][k].id;
    assert Untouched(RowsAfter(policy, tables[j - 1], runs[j - 1]), tables[j], tables[j - 1].Keys);
    if j == i + 1 {
      StatusesFall(policy, tables[i], runs[i], id);
      if id in Eligible(tables[i]) { EligibleAfterIff(policy, tables[i], runs[i], k); }
    } else {
      FlaggedIsNotTakenAgain(policy, tables, batches, runs, limit, i, k, j - 1);
      StatusesFall(policy, tables[j - 1], runs[j - 1], id);
    }
    assert j < |batches| ==> IsBatch(tables[j], limit, batches[j]);
  }

  /** As many manifests as the limit, all older than x and met without a stored SBOM or with a failure at every visit, keep x out
      of every batch of every run. */
  lemma Starvation(
    policy: map<string, Action>, tables: seq<Rows>, batches: seq<set<Id>>, runs: seq<seq<Visit>>, limit: nat, x: Id, h: set<Id>)
    requires AreRuns(policy, tables, batches, runs, limit) && Blocking(tables[0], x, h) && |h| >= limit
    requires forall i, v | 0 <= i < |runs| && v in runs[i] && v.id in h :: !v.result.Found?
    ensures forall i | 0 <= i < |batches| :: x !in batches[i]
  {
    hide Blocking, IsBatch, RowsAfter;
    forall i | 0 <= i < |batches| ensures Pass(tables[i], tables[i + 1], batches[i], limit, h) {
      var rest := tables[i].Keys - batches[i];
      assert forall v | v in runs[i] :: v.id in Visited(runs[i]);
      RunLeaves(policy, tables[i], runs[i], h);
      RunLeaves(policy, tables[i], runs[i], rest);
      assert IsBatch(tables[i], limit, batches[i]);
    }
    BlockedForGood(tables, batches, limit, x, h, |batches|);
  }

  /** When stamps differ and the manifests in `stuck` always fail, a schedule long enough for the bound takes x exactly when
      fewer of them than the limit are older than x. */
  lemma RematchedIff(tables: seq<Rows>, batches: seq<set<Id>>, times: seq<int>, limit: nat, stuck: set<Id>, x: Id)
    requires IsSchedule(tables, batches, times, limit, stuck) && x in Eligible(tables[0]) && x !in stuck
    requires forall i | 0 <= i < |batches| :: Untouched(tables[i], tables[i + 1], stuck)
    requires forall y | y in Eligible(tables[0]) && y != x :: tables[0][y].stamp != tables[0][x].stamp
    requires |batches| > |Ahead(tables[0], x, stuck)|
    ensures (exists i :: 0 <= i < |batches| && x in batches[i]) <==> |StuckAhead(tables[0], x, stuck)| < limit
  {
    var blocked, r := StuckAhead(tables[0], x, stuck), |batches|;
    if |blocked| < limit {
      if forall i | 0 <= i < r :: x !in batches[i] {
        ForwardEachRun(tables, batches, times, limit, stuck, x, r);
        TimesMonotone(1, limit - |blocked|, r);
      }
    } else {
      assert Blocking(tables[0], x, blocked);
      forall i | 0 <= i < r ensures Pass(tables[i], tables[i + 1], batches[i], limit, blocked) {
        assert Turn(tables[i], tables[i + 1], batches[i], limit, stuck, times[i]);
        assert Untouched(tables[i], tables[i + 1], stuck);
      }
      BlockedForGood(tables, batches, limit, x, blocked, r);
    }
  }
}
