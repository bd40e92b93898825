/** services/index_state.py and the sync cycles of services/package_index_{apt,apk,rpm}.py that follow its protocol: clear the
    stored fingerprint, rewrite the source's table, remember the new fingerprint. A cycle can be cut short before any of its
    transactions, and upstream may serve anything at any time. */
module IndexState {
  import opened Sequences

  /** A source of Debian or RPM packages, whose rows are in `packages`, or of Alpine packages, in `apk_packages`. */
  datatype Source = InPackages(id: string) | InApkPackages(id: string)

  /** A row and what the unique constraint of its table compares: name, version and architecture; rows without an architecture are
      not compared. */
  datatype Row = Row(key: Option<string>, row: string)

  /** One entry of a published catalogue: a package, or an entry that cannot be parsed and is passed over. */
  datatype Element = Package(row: Row) | Unreadable

  type Content = seq<Element>

  type Table = seq<Row>

  /** The fingerprint stored for each source, and each source's rows. */
  datatype Db = Db(marks: map<Source, string>, tables: map<Source, Table>)

  function TableOf(db: Db, source: Source): Table {
    if source in db.tables then db.tables[source] else []
  }

  function Rows(c: Content): seq<Row> {
    if c == [] then []
    else
      var front, e := Rows(c[..|c| - 1]), c[|c| - 1];
      if e.Package? then front + [e.row] else front
  }

  /** The table of Alpine packages has no unique constraint. */
  function Unkeyed(rows: seq<Row>): seq<Row> {
    seq(|rows|, i requires 0 <= i < |rows| => rows[i].(key := None))
  }

  function RowsFor(source: Source, c: Content): seq<Row> {
    if source.InApkPackages? then Unkeyed(Rows(c)) else Rows(c)
  }

  predicate HasKey(t: Table, key: Option<string>) {
    key.Some? && exists i :: 0 <= i < |t| && t[i].key == key
  }

  function KeyIndex(t: Table, key: Option<string>): (i: nat)
    requires HasKey(t, key)
    ensures i < |t| && t[i].key == key && forall j | 0 <= j < i :: t[j].key != key
  {
    if t[0].key == key then 0 else KeyIndex(t[1..], key) + 1
  }

  /** `INSERT ... ON CONFLICT DO UPDATE`. */
  function Upsert(t: Table, r: Row): Table {
    if HasKey(t, r.key) then t[KeyIndex(t, r.key) := r] else t + [r]
  }

  function Written(t: Table, rows: seq<Row>): Table {
    if rows == [] then t else Upsert(Written(t, rows[..|rows| - 1]), rows[|rows| - 1])
  }

  /** No two rows collide: a plain `INSERT` of all of them succeeds. */
  ghost predicate ClashFree(rows: seq<Row>) {
    forall i, j | 0 <= i < j < |rows| && rows[i].key.Some? :: rows[i].key != rows[j].key
  }

  lemma {:induction false} ClashFreeWritten(rows: seq<Row>)
    requires ClashFree(rows)
    ensures Written([], rows) == rows
  {
    hide ClashFree, HasKey;
    if rows != [] {
      var front, last := rows[..|rows| - 1], rows[|rows| - 1];
      LastClashesNot(rows);
      ClashFreeWritten(front);
      assert rows == front + [last];
    }
  }

  lemma LastClashesNot(rows: seq<Row>)
    requires ClashFree(rows) && rows != []
    ensures ClashFree(rows[..|rows| - 1]) && !HasKey(rows[..|rows| - 1], rows[|rows| - 1].key)
  {
    var front, last := rows[..|rows| - 1], rows[|rows| - 1];
    forall i | 0 <= i < |front| ensures front[i] == rows[i] && (last.key.Some? ==> front[i].key != last.key) {
      assert rows[i].key.Some? ==> rows[i].key != last.key;
    }
  }

  lemma UpsertIff(t: Table, last: Row, r: Row)
    requires ClashFree(t)
    ensures ClashFree(Upsert(t, last))
    ensures r in Upsert(t, last) <==> r == last || (r in t && (last.key.None? || r.key != last.key))
  {
    var u := Upsert(t, last);
    if HasKey(t, last.key) {
      var k := KeyIndex(t, last.key);
      assert forall i | 0 <= i < |t| && i != k :: u[i] == t[i] && t[i].key != last.key;
      assert u[k] == last;
    } else {
      assert u[|t|] == last && forall i | 0 <= i < |t| :: u[i] == t[i];
    }
  }

  /** No later row of the list has the same key. */
  ghost predicate IsLastOfKey(rows: seq<Row>, i: nat)
    requires i < |rows|
  {
    rows[i].key.None? || forall j | i < j < |rows| :: rows[j].key != rows[i].key
  }

  ghost predicate Survives(rows: seq<Row>, r: Row) {
    exists i :: 0 <= i < |rows| && rows[i] == r && IsLastOfKey(rows, i)
  }

  lemma SurvivesMore(rows: seq<Row>, r: Row)
    requires rows != []
    ensures var last := rows[|rows| - 1];
            Survives(rows, r) <==> r == last || (Survives(rows[..|rows| - 1], r) && (last.key.None? || r.key != last.key))
  {
    var front, n := rows[..|rows| - 1], |rows| - 1;
    assert IsLastOfKey(rows, n);
    forall i | 0 <= i < n
      ensures IsLastOfKey(rows, i) <==> IsLastOfKey(front, i) && (rows[n].key.None? || rows[i].key != rows[n].key)
    {
      assert forall j | 0 <= j < n :: front[j] == rows[j];
    }
    hide IsLastOfKey;
    assert forall i | 0 <= i < n :: front[i] == rows[i];
  }

  /** Of rows with one key the last remains; rows without a key all do. */
  lemma {:induction false} WrittenIff(rows: seq<Row>, r: Row)
    ensures ClashFree(Written([], rows))
    ensures r in Written([], rows) <==> Survives(rows, r)
  {
    hide Upsert, ClashFree, Survives;
    if rows == [] {
      NoRows(r);
    } else {
      var front := rows[..|rows| - 1];
      WrittenIff(front, r);
      UpsertIff(Written([], front), rows[|rows| - 1], r);
      SurvivesMore(rows, r);
    }
  }

  lemma NoRows(r: Row)
    ensures ClashFree([]) && !Survives([], r)
  {
  }

  lemma {:induction false} RowsIff(c: Content, r: Row)
    ensures r in Rows(c) <==> Package(r) in c
  {
    if c != [] {
      RowsIff(c[..|c| - 1], r);
      assert c == c[..|c| - 1] + [c[|c| - 1]];
    }
  }

  /** The completely ingested copy of a catalogue. */
  function Copy(source: Source, c: Content): Table {
    Written([], RowsFor(source, c))
  }

  // ----- Transactions -----

  datatype Step =
    | Clear(commits: bool)
    | Flush(rows: seq<Row>, first: bool)
    | Remember(fingerprint: Option<string>, commits: bool)

  predicate Known(fingerprint: Option<string>) {
    fingerprint.Some? && fingerprint.value != ""
  }

  function One(db: Db, source: Source, s: Step): Db {
    match s
    case Clear(commits) => if commits then db.(marks := db.marks - {source}) else db
    case Flush(rows, first) =>
      db.(tables := db.tables[source := Written(if first then [] else TableOf(db, source), rows)])
    case Remember(fp, commits) =>
      if commits && Known(fp) then db.(marks := db.marks[source := fp.value]) else db
  }

  function Perform(db: Db, source: Source, steps: seq<Step>): Db {
    if steps == [] then db else One(Perform(db, source, steps[..|steps| - 1]), source, steps[|steps| - 1])
  }

  // ----- Cycles -----

  /** `readable`: the database answers the reads; `clearCommits`, `rememberCommits`: these writes succeed, a failure being only
      logged; `budget`: how many transactions are reached before the process dies or the database fails. */
  datatype Conditions = Conditions(force: bool, readable: bool, clearCommits: bool, rememberCommits: bool, budget: nat)

  /** `announced` is the fingerprint upstream publishes, `served` what it then serves (None when it cannot be fetched),
      `stopAt` the entry of an RPM stream before which it is cancelled or breaks. */
  datatype Cycle =
    | Apt(id: string, announced: Option<string>, served: Option<Content>, k: Conditions)
    | Apk(id: string, served: Option<Content>, authentic: bool, k: Conditions)
    | Rpm(id: string, announced: Option<string>, served: Option<Content>, stopAt: nat, k: Conditions)

  function SourceOf(cycle: Cycle): Source {
    if cycle.Apk? then InApkPackages(cycle.id) else InPackages(cycle.id)
  }

  predicate Unchanged(db: Db, source: Source, fp: Option<string>, readable: bool) {
    Known(fp) && readable && source in db.marks && db.marks[source] == fp.value
  }

  predicate Skips(db: Db, source: Source, fp: Option<string>, k: Conditions) {
    !k.force && Unchanged(db, source, fp, k.readable) && |TableOf(db, source)| > 0
  }

  const BATCH_SIZE: nat := 500

  datatype Batches = Batches(full: seq<seq<Row>>, rest: seq<Row>)

  function Split(rows: seq<Row>): Batches {
    if rows == [] then Batches([], [])
    else
      var b := Split(rows[..|rows| - 1]);
      var rest := b.rest + [rows[|rows| - 1]];
      if |rest| >= BATCH_SIZE then Batches(b.full + [rest], []) else Batches(b.full, rest)
  }

  /** A stream read to its end writes at least once, so that the old rows go. */
  function AllBatches(rows: seq<Row>): seq<seq<Row>> {
    var b := Split(rows);
    if b.rest != [] || b.full == [] then b.full + [b.rest] else b.full
  }

  function Flushes(parts: seq<seq<Row>>): seq<Step> {
    if parts == [] then [] else Flushes(parts[..|parts| - 1]) + [Flush(parts[|parts| - 1], |parts| == 1)]
  }

  function StreamSteps(c: Content, stopAt: nat): seq<Step> {
    if stopAt < |c| then Flushes(Split(Rows(c[..stopAt])).full) else Flushes(AllBatches(Rows(c)))
  }

  /** The stream was read to its end and is what upstream announced, where it announced something. */
  predicate Verified(c: Content, stopAt: nat, announced: Option<string>, digest: Content -> string) {
    stopAt >= |c| && (Known(announced) ==> digest(c) == announced.value)
  }

  /** The transactions of a cycle that nothing interrupts. */
  ghost function StepsOf(db: Db, cycle: Cycle, digest: Content -> string): seq<Step> {
    var source := SourceOf(cycle);
    match cycle
    case Apt(_, announced, served, k) =>
      if announced.None? || Skips(db, source, announced, k) || served.None? || digest(served.value) != announced.value then []
      else RewriteSteps(Rows(served.value), announced, k)
    case Apk(_, served, authentic, k) =>
      if served.None? || Skips(db, source, Some(digest(served.value)), k) || !authentic then []
      else RewriteSteps(Unkeyed(Rows(served.value)), Some(digest(served.value)), k)
    case Rpm(_, announced, served, stopAt, k) =>
      if Skips(db, source, announced, k) then []
      else if served.None? then [Clear(k.clearCommits)]
      else
        var begun := [Clear(k.clearCommits)] + StreamSteps(served.value, stopAt);
        if Verified(served.value, stopAt, announced, digest) && Rows(served.value) != []
        then begun + [Remember(announced, k.rememberCommits)] else begun
  }

  /** APT and APK: the whole table in one transaction, which two colliding rows abort, between the two writes of the
      fingerprint. */
  ghost function RewriteSteps(rows: seq<Row>, fp: Option<string>, k: Conditions): seq<Step> {
    if ClashFree(rows) then [Clear(k.clearCommits), Flush(rows, true), Remember(fp, k.rememberCommits)] else [Clear(k.clearCommits)]
  }

  function Take<T>(s: seq<T>, n: nat): seq<T> {
    if n < |s| then s[..n] else s
  }

  ghost function AfterCycle(db: Db, cycle: Cycle, digest: Content -> string): Db {
    Perform(db, SourceOf(cycle), Take(StepsOf(db, cycle, digest), cycle.k.budget))
  }

  datatype Outcome = Skipped | Ok(count: nat) | Failed

  /** A cycle reports success exactly when it got as far as asking for its fingerprint to be remembered. */
  ghost predicate Succeeds(db: Db, cycle: Cycle, digest: Content -> string) {
    var steps := StepsOf(db, cycle, digest);
    steps != [] && steps[|steps| - 1].Remember? && cycle.k.budget >= |steps|
  }

  /** Nothing is known or changed of any other source. */
  ghost predicate OthersKept(before: Db, after: Db, source: Source) {
    forall s | s != source ::
      && TableOf(after, s) == TableOf(before, s) && (s in after.marks <==> s in before.marks)
      && (s in before.marks ==> after.marks[s] == before.marks[s])
  }

  /** The complete copy is there, under its fingerprint if that was stored. */
  ghost predicate Holds(db: Db, source: Source, c: Content, fp: Option<string>, stored: bool) {
    && TableOf(db, source) == Copy(source, c)
    && (stored && fp.Some? && fp.value != "" ==> source in db.marks && db.marks[source] == fp.value)
  }

  class Database {
    var marks: map<Source, string>
    var tables: map<Source, Table>

    constructor ()
      ensures Value() == Db(map[], map[])
    {
      marks, tables := map[], map[];
    }

    ghost function Value(): Db
      reads this
    {
      Db(marks, tables)
    }

    method FingerprintOf(source: Source, readable: bool) returns (fp: Option<string>)
      ensures fp == if readable && source in marks then Some(marks[source]) else None
    {
      fp := if readable && source in marks then Some(marks[source]) else None;
    }

    method IsUnchanged(source: Source, fp: Option<string>, readable: bool) returns (same: bool)
      ensures same == Unchanged(Value(), source, fp, readable)
    {
      if fp == None || fp == Some("") {
        return false;
      }
      var stored := FingerprintOf(source, readable);
      same := stored == fp;
    }

    method IndexedPkgCount(source: Source, readable: bool) returns (count: nat)
      ensures count == if readable then |TableOf(Value(), source)| else 0
    {
      count := if readable && source in tables then |tables[source]| else 0;
    }

    method ClearMark(source: Source, commits: bool)
      modifies this
      ensures Value() == One(old(Value()), source, Clear(commits))
    {
      if commits {
        marks := marks - {source};
      }
    }

    method RememberMark(source: Source, fp: Option<string>, commits: bool)
      modifies this
      ensures Value() == One(old(Value()), source, Remember(fp, commits))
    {
      if fp == None || fp == Some("") {
        return;
      }
      if commits {
        marks := marks[source := fp.value];
      }
    }

    method FlushToDb(source: Source, rows: seq<Row>, clearTable: bool)
      modifies this
      ensures Value() == One(old(Value()), source, Flush(rows, clearTable))
    {
      var t: Table := if clearTable || source !in tables then [] else tables[source];
      var i := 0;
      while i < |rows|
        invariant 0 <= i <= |rows|
        invariant t == Written(if clearTable then [] else TableOf(old(Value()), source), rows[..i])
        invariant Value() == old(Value())
      {
        assert rows[..i + 1][..i] == rows[..i];
        if HasKey(t, rows[i].key) {
          t := t[KeyIndex(t, rows[i].key) := rows[i]];
        } else {
          t := t + [rows[i]];
        }
        i := i + 1;
      }
      assert rows[..i] == rows;
      tables := tables[source := t];
    }

    /** Returns how many rows were written, or -1; `left` transactions remain before the cycle is interrupted. */
    method StreamDownloadAndParse(
        source: Source, served: Content, stopAt: nat, expected: Option<string>, digest: Content -> string, budget: nat)
      returns (total: int, left: nat)
      modifies this
      ensures var steps := StreamSteps(served, stopAt);
              && Value() == Perform(old(Value()), source, Take(steps, budget))
              && (total >= 0 <==> budget >= |steps| && Verified(served, stopAt, expected, digest))
              && (total >= 0 ==> left == budget - |steps| && total == |Rows(served)|)
    {
      hide Rows, Split, Flushes, Perform, One;
      total, left := 0, budget;
      NothingRead(old(Value()), source);
      var batch: seq<Row>, first := [], true;
      ghost var done: seq<seq<Row>> := [];
      var i := 0;
      while i < |served|
        invariant 0 <= i <= |served| && i <= stopAt
        invariant Split(Rows(served[..i])) == Batches(done, batch)
        invariant first == (done == []) && |done| + left == budget
        invariant Value() == Perform(old(Value()), source, Flushes(done))
        invariant total + |batch| == |Rows(served[..i])|
      {
        if i >= stopAt {
          assert stopAt == i;
          FlushesLength(done);
          return -1, left;
        }
        ReadOne(served, i);
        if served[i].Package? {
          batch := batch + [served[i].row];
        }
        if |batch| >= BATCH_SIZE {
          FlushesStep(done, batch);
          if left == 0 {
            StreamBegins(served, i + 1, stopAt);
            assert StreamSteps(served, stopAt)[..budget] == Flushes(done + [batch])[..budget] == Flushes(done);
            return -1, left;
          }
          FlushToDb(source, batch, first);
          PerformStep(old(Value()), source, Flushes(done), Flush(batch, first));
          done, left := done + [batch], left - 1;
          total := total + |batch|;
          batch, first := [], false;
        }
        i := i + 1;
      }
      assert served[..i] == served;
      if batch != [] || first {
        FlushesStep(done, batch);
        if left == 0 {
          return -1, left;
        }
        FlushToDb(source, batch, first);
        PerformStep(old(Value()), source, Flushes(done), Flush(batch, first));
        total, left := total + |batch|, left - 1;
      }
      FlushesLength(AllBatches(Rows(served)));
      if expected.Some? && expected.value != "" && digest(served) != expected.value {
        return -1, left;
      }
    }

    /** A plain `INSERT` of all rows into the emptied table, in one transaction. */
    method InsertAll(source: Source, rows: seq<Row>) returns (committed: bool)
      modifies this
      ensures committed <==> ClashFree(rows)
      ensures Value() == if committed then One(old(Value()), source, Flush(rows, true)) else old(Value())
    {
      hide Written;
      var t: Table, i := [], 0;
      while i < |rows|
        invariant 0 <= i <= |rows| && t == rows[..i] && ClashFree(rows[..i])
        invariant Value() == old(Value())
      {
        if HasKey(t, rows[i].key) {
          var j :| 0 <= j < |t| && t[j].key == rows[i].key;
          assert rows[j].key == rows[i].key;
          return false;
        }
        t := t + [rows[i]];
        i := i + 1;
      }
      assert rows[..i] == rows;
      ClashFreeWritten(rows);
      tables := tables[source := t];
      committed := true;
    }

    /** The part common to APT and APK. */
    method Rewrite(source: Source, rows: seq<Row>, fp: Option<string>, k: Conditions) returns (o: Outcome)
      modifies this
      ensures var steps := RewriteSteps(rows, fp, k);
              && Value() == Perform(old(Value()), source, Take(steps, k.budget))
              && o == if ClashFree(rows) && k.budget >= 3 then Ok(|rows|) else Failed
      ensures OthersKept(old(Value()), Value(), source)
    {
      hide One, OthersKept;
      ghost var clear, flush, last := Clear(k.clearCommits), Flush(rows, true), Remember(fp, k.rememberCommits);
      RewriteUnfolds(Value(), source, rows, fp, k);
      PerformElsewhere(Value(), source, Take(RewriteSteps(rows, fp, k), k.budget));
      if k.budget == 0 {
        return Failed;
      }
      ClearMark(source, k.clearCommits);
      if k.budget == 1 {
        return Failed;
      }
      var committed := InsertAll(source, rows);
      if !committed || k.budget == 2 {
        return Failed;
      }
      RememberMark(source, fp, k.rememberCommits);
      o := Ok(|rows|);
    }

    method SyncApt(id: string, announced: Option<string>, served: Option<Content>, k: Conditions, digest: Content -> string)
      returns (o: Outcome)
      modifies this
      ensures var cycle, source := Apt(id, announced, served, k), InPackages(id);
              && Value() == AfterCycle(old(Value()), cycle, digest)
              && (o.Skipped? <==> Skips(old(Value()), source, announced, k))
              && (o.Ok? <==> Succeeds(old(Value()), cycle, digest))
              && (o.Ok? ==> o.count == |Rows(served.value)|)
      ensures var source := InPackages(id);
              && (o.Skipped? <==>
                    && !k.force && k.readable && announced.Some? && announced.value != ""
                    && source in old(marks) && old(marks)[source] == announced.value
                    && source in old(tables) && old(tables)[source] != [])
              && (o.Ok? <==>
                    && !o.Skipped? && announced.Some? && served.Some? && digest(served.value) == announced.value
                    && ClashFree(Rows(served.value)) && k.budget >= 3)
              && (o.Ok? ==> Holds(Value(), source, served.value, announced, k.rememberCommits))
              && OthersKept(old(Value()), Value(), source)
      ensures announced.None? || served.None? || digest(served.value) != announced.value || o.Skipped? ==> Value() == old(Value())
    {
      hide Rows, ClashFree, Holds, OthersKept, Written;
      var source := InPackages(id);
      UnchangedKeeps(Value(), source);
      if announced.None? {
        return Failed;
      }
      var same := IsUnchanged(source, announced, k.readable);
      if !k.force && same {
        var indexed := IndexedPkgCount(source, k.readable);
        if indexed > 0 {
          return Skipped;
        }
      }
      if served.None? || digest(served.value) != announced.value {
        return Failed;
      }
      RewriteLeaves(Value(), source, served.value, announced, k);
      o := Rewrite(source, Rows(served.value), announced, k);
    }

    method SyncApk(id: string, served: Option<Content>, authentic: bool, k: Conditions, digest: Content -> string)
      returns (o: Outcome)
      modifies this
      ensures var cycle, source := Apk(id, served, authentic, k), InApkPackages(id);
              && Value() == AfterCycle(old(Value()), cycle, digest)
              && (o.Skipped? <==> served.Some? && Skips(old(Value()), source, Some(digest(served.value)), k))
              && (o.Ok? <==> Succeeds(old(Value()), cycle, digest))
              && (o.Ok? ==> o.count == |Rows(served.value)|)
      ensures var source := InApkPackages(id);
              && (o.Skipped? <==>
                    && !k.force && k.readable && served.Some? && digest(served.value) != ""
                    && source in old(marks) && old(marks)[source] == digest(served.value)
                    && source in old(tables) && old(tables)[source] != [])
              && (o.Ok? <==> !o.Skipped? && served.Some? && authentic && k.budget >= 3)
              && (o.Ok? ==> Holds(Value(), source, served.value, Some(digest(served.value)), k.rememberCommits))
              && OthersKept(old(Value()), Value(), source)
      ensures !authentic || served.None? || o.Skipped? ==> Value() == old(Value())
    {
      hide Rows, ClashFree, Holds, OthersKept, Written;
      var source := InApkPackages(id);
      UnchangedKeeps(Value(), source);
      if served.None? {
        return Failed;
      }
      var fingerprint := Some(digest(served.value));
      var same := IsUnchanged(source, fingerprint, k.readable);
      if !k.force && same {
        var indexed := IndexedPkgCount(source, k.readable);
        if indexed > 0 {
          return Skipped;
        }
      }
      if !authentic {
        return Failed;
      }
      UnkeyedIsClashFree(Rows(served.value));
      RewriteLeaves(Value(), source, served.value, fingerprint, k);
      o := Rewrite(source, Unkeyed(Rows(served.value)), fingerprint, k);
    }

    method SyncRpm(
        id: string, announced: Option<string>, served: Option<Content>, stopAt: nat, k: Conditions, digest: Content -> string)
      returns (o: Outcome)
      modifies this
      ensures var cycle, source := Rpm(id, announced, served, stopAt, k), InPackages(id);
              && Value() == AfterCycle(old(Value()), cycle, digest)
              && (o.Skipped? <==> Skips(old(Value()), source, announced, k))
              && (o.Ok? <==> Succeeds(old(Value()), cycle, digest))
              && (o.Ok? ==> o.count == |Rows(served.value)|)
      ensures var source := InPackages(id);
              && (o.Skipped? <==>
                    && !k.force && k.readable && announced.Some? && announced.value != ""
                    && source in old(marks) && old(marks)[source] == announced.value
                    && source in old(tables) && old(tables)[source] != [])
              && (o.Ok? <==>
                    && !o.Skipped? && served.Some? && stopAt >= |served.value| && Rows(served.value) != []
                    && (announced.Some? && announced.value != "" ==> digest(served.value) == announced.value)
                    && k.budget >= |AllBatches(Rows(served.value))| + 2)
              && (o.Ok? ==> Holds(Value(), source, served.value, announced, k.rememberCommits))
              && OthersKept(old(Value()), Value(), source)
      ensures o.Skipped? ==> Value() == old(Value())
    {
      hide One, Rows, StreamSteps, Verified, Succeeds, AfterCycle, Holds, OthersKept, AllBatches;
      var source := InPackages(id);
      var same := IsUnchanged(source, announced, k.readable);
      if !k.force && same {
        var indexed := IndexedPkgCount(source, k.readable);
        if indexed > 0 {
          SkippedRpm(Value(), id, announced, served, stopAt, k, digest);
          return Skipped;
        }
      }
      RpmUnfolds(Value(), id, announced, served, stopAt, k, digest);
      RpmLeaves(Value(), id, announced, served, stopAt, k, digest);
      if k.budget == 0 {
        return Failed;
      }
      ClearMark(source, k.clearCommits);
      if served.None? {
        return Failed;
      }
      var total, left := StreamDownloadAndParse(source, served.value, stopAt, announced, digest, k.budget - 1);
      if total <= 0 || left == 0 {
        return Failed;
      }
      RememberMark(source, announced, k.rememberCommits);
      o := Ok(total);
    }
  }

  // ----- How a stream is cut into transactions -----

  lemma PerformStep(db: Db, source: Source, steps: seq<Step>, s: Step)
    ensures Perform(db, source, steps + [s]) == One(Perform(db, source, steps), source, s)
  {
    assert (steps + [s])[..|steps|] == steps;
  }

  lemma NothingRead(db: Db, source: Source)
    ensures Rows([]) == [] && Split([]) == Batches([], []) && Flushes([]) == [] && Perform(db, source, []) == db
  {
  }

  /** What reading one more entry does to the rows and to the batches they are cut into. */
  lemma ReadOne(c: Content, i: nat)
    requires i < |c|
    ensures var before, after := Split(Rows(c[..i])), Split(Rows(c[..i + 1]));
            var batch := if c[i].Package? then before.rest + [c[i].row] else before.rest;
            && after == (if |batch| >= BATCH_SIZE then Batches(before.full + [batch], []) else Batches(before.full, batch))
            && |Rows(c[..i + 1])| == |Rows(c[..i])| + |batch| - |before.rest|
  {
    assert c[..i + 1][..i] == c[..i];
    SplitMeaning(Rows(c[..i]));
    if c[i].Package? {
      assert Rows(c[..i + 1])[..|Rows(c[..i])|] == Rows(c[..i]);
    }
  }

  lemma {:induction false} PerformSplit(db: Db, source: Source, a: seq<Step>, b: seq<Step>)
    ensures Perform(db, source, a + b) == Perform(Perform(db, source, a), source, b)
  {
    if b == [] {
      assert a + b == a;
    } else {
      PerformSplit(db, source, a, b[..|b| - 1]);
      assert a + b == a + b[..|b| - 1] + [b[|b| - 1]];
      PerformStep(db, source, a + b[..|b| - 1], b[|b| - 1]);
    }
  }

  lemma RewriteUnfolds(db: Db, source: Source, rows: seq<Row>, fp: Option<string>, k: Conditions)
    ensures var cleared := One(db, source, Clear(k.clearCommits));
            var flushed := One(cleared, source, Flush(rows, true));
            Perform(db, source, Take(RewriteSteps(rows, fp, k), k.budget))
            == if k.budget == 0 then db
               else if k.budget == 1 || !ClashFree(rows) then cleared
               else if k.budget == 2 then flushed
               else One(flushed, source, Remember(fp, k.rememberCommits))
  {
    hide One, ClashFree, Perform;
    var clear, flush, last := Clear(k.clearCommits), Flush(rows, true), Remember(fp, k.rememberCommits);
    NothingRead(db, source);
    assert [] + [clear] == [clear] && [clear] + [flush] == [clear, flush] && [clear, flush] + [last] == [clear, flush, last];
    PerformStep(db, source, [], clear);
    PerformStep(db, source, [clear], flush);
    PerformStep(db, source, [clear, flush], last);
    var steps := [clear, flush, last];
    assert steps[..0] == [] && steps[..1] == [clear] && steps[..2] == [clear, flush] && [clear][..0] == [];
  }

  /** The cycle of an RPM source that is not skipped, one part after the other. */
  lemma RpmUnfolds(
    db: Db, id: string, announced: Option<string>, served: Option<Content>, stopAt: nat, k: Conditions, digest: Content -> string)
    requires !Skips(db, InPackages(id), announced, k)
    ensures var cycle, source := Rpm(id, announced, served, stopAt, k), InPackages(id);
            var cleared := One(db, source, Clear(k.clearCommits));
            if k.budget == 0 then AfterCycle(db, cycle, digest) == db && !Succeeds(db, cycle, digest)
            else if served.None? then AfterCycle(db, cycle, digest) == cleared && !Succeeds(db, cycle, digest)
            else
              var stream := StreamSteps(served.value, stopAt);
              var streamed := Perform(cleared, source, Take(stream, k.budget - 1));
              var done := Verified(served.value, stopAt, announced, digest) && Rows(served.value) != [] && k.budget - 1 > |stream|;
              && (Succeeds(db, cycle, digest) <==> done)
              && AfterCycle(db, cycle, digest)
                 == if done then One(streamed, source, Remember(announced, k.rememberCommits)) else streamed
  {
    hide One, Rows, Verified, Perform, Skips, StreamSteps;
    var source, cleared, last := InPackages(id), [Clear(k.clearCommits)], Remember(announced, k.rememberCommits);
    assert Perform(db, source, []) == db by { NothingRead(db, source); }
    PerformStep(db, source, [], cleared[0]);
    assert [] + cleared == cleared;
    if k.budget == 0 {
      assert Take(StepsOf(db, Rpm(id, announced, served, stopAt, k), digest), 0) == [];
    } else if served.None? {
      assert Take(cleared, k.budget) == cleared;
    } else {
      var stream, n := StreamSteps(served.value, stopAt), k.budget;
      StreamFlushes(served.value, stopAt);
      assert !(cleared + stream)[|stream|].Remember? by { assert |stream| > 0 ==> stream[|stream| - 1] in stream; }
      PerformSplit(db, source, cleared, Take(stream, n - 1));
      assert Take(cleared + stream, n) == cleared + Take(stream, n - 1);
      PerformStep(db, source, cleared + stream, last);
      if n - 1 <= |stream| {
        assert Take(cleared + stream + [last], n) == Take(cleared + stream, n);
      } else {
        assert Take(cleared + stream + [last], n) == cleared + stream + [last];
        assert Take(stream, n - 1) == stream;
      }
    }
  }

  lemma StreamFlushes(c: Content, stopAt: nat)
    ensures forall st | st in StreamSteps(c, stopAt) :: st.Flush?
  {
    hide Rows, Split, AllBatches;
    FlushesFlush(if stopAt < |c| then Split(Rows(c[..stopAt])).full else AllBatches(Rows(c)));
  }

  lemma {:induction false} FlushesFlush(parts: seq<seq<Row>>)
    ensures forall st | st in Flushes(parts) :: st.Flush?
  {
    if parts != [] {
      FlushesFlush(parts[..|parts| - 1]);
    }
  }

  lemma {:induction false} FlushesLength(parts: seq<seq<Row>>)
    ensures |Flushes(parts)| == |parts|
  {
    if parts != [] {
      FlushesLength(parts[..|parts| - 1]);
    }
  }

  lemma FlushesStep(parts: seq<seq<Row>>, rows: seq<Row>)
    ensures Flushes(parts + [rows]) == Flushes(parts) + [Flush(rows, parts == [])]
    ensures |Flushes(parts)| == |parts| && |Flushes(parts + [rows])| == |parts| + 1
  {
    assert (parts + [rows])[..|parts|] == parts;
    FlushesLength(parts);
  }

  lemma {:induction false} FlushesPrefix(parts: seq<seq<Row>>, n: nat)
    requires n <= |parts|
    ensures Flushes(parts[..n]) <= Flushes(parts)
  {
    if n < |parts| {
      assert parts[..|parts| - 1][..n] == parts[..n];
      FlushesPrefix(parts[..|parts| - 1], n);
    } else {
      assert parts[..n] == parts;
    }
  }

  lemma {:induction false} RowsPrefix(c: Content, n: nat)
    requires n <= |c|
    ensures Rows(c[..n]) <= Rows(c)
  {
    if n < |c| {
      assert c[..|c| - 1][..n] == c[..n];
      RowsPrefix(c[..|c| - 1], n);
    } else {
      assert c[..n] == c;
    }
  }

  lemma {:induction false} SplitPrefix(rows: seq<Row>, n: nat)
    requires n <= |rows|
    ensures Split(rows[..n]).full <= Split(rows).full
  {
    if n < |rows| {
      assert rows[..|rows| - 1][..n] == rows[..n];
      SplitPrefix(rows[..|rows| - 1], n);
    } else {
      assert rows[..n] == rows;
    }
  }

  /** The batches that are full after i entries are the first transactions of the whole stream. */
  lemma StreamBegins(c: Content, i: nat, stopAt: nat)
    requires i <= |c| && i <= stopAt
    ensures var parts := Split(Rows(c[..i])).full;
            Flushes(parts) <= StreamSteps(c, stopAt) && |Flushes(parts)| == |parts|
  {
    hide Rows, Split, Flushes;
    var parts, read := Split(Rows(c[..i])).full, if stopAt < |c| then c[..stopAt] else c;
    FlushesLength(parts);
    assert read[..i] == c[..i];
    RowsPrefix(read, i);
    assert Rows(read)[..|Rows(c[..i])|] == Rows(c[..i]);
    SplitPrefix(Rows(read), |Rows(c[..i])|);
    var all := if stopAt < |c| then Split(Rows(read)).full else AllBatches(Rows(read));
    assert Split(Rows(read)).full <= all;
    assert all[..|parts|] == parts;
    FlushesPrefix(all, |parts|);
  }

  function Concat(parts: seq<seq<Row>>): seq<Row> {
    if parts == [] then [] else Concat(parts[..|parts| - 1]) + parts[|parts| - 1]
  }

  /** Cutting loses and reorders nothing; every batch but the rest is exactly full. */
  lemma {:induction false} SplitMeaning(rows: seq<Row>)
    ensures Concat(Split(rows).full) + Split(rows).rest == rows
    ensures |Split(rows).rest| < 500
    ensures forall part | part in Split(rows).full :: |part| == 500
  {
    if rows != [] {
      var front := rows[..|rows| - 1];
      SplitMeaning(front);
      var before, after := Split(front), Split(rows);
      var rest := before.rest + [rows[|rows| - 1]];
      assert Concat(before.full) + rest == rows;
      ConcatStep(before.full, rest);
      assert forall part | part in before.full + [rest] :: part in before.full || part == rest;
      hide Concat;
    }
  }

  // ----- A stored fingerprint stands for a complete copy -----

  ghost predicate Ingested(db: Db, source: Source, digest: Content -> string)
    requires source in db.marks
  {
    exists c :: digest(c) == db.marks[source] && TableOf(db, source) == Copy(source, c)
  }

  ghost predicate Sound(db: Db, digest: Content -> string) {
    forall s | s in db.marks :: Ingested(db, s, digest)
  }

  ghost predicate Injective(digest: Content -> string) {
    forall c, d :: digest(c) == digest(d) ==> c == d
  }

  lemma {:induction false} WrittenConcat(t: Table, a: seq<Row>, b: seq<Row>)
    ensures Written(t, a + b) == Written(Written(t, a), b)
  {
    if b == [] {
      assert a + b == a;
    } else {
      assert (a + b)[..|a + b| - 1] == a + b[..|b| - 1];
      WrittenConcat(t, a, b[..|b| - 1]);
    }
  }

  /** Batch after batch, the old rows give way to those of the stream. */
  lemma {:induction false} FlushedTable(db: Db, source: Source, parts: seq<seq<Row>>)
    ensures parts != [] ==> TableOf(Perform(db, source, Flushes(parts)), source) == Written([], Concat(parts))
  {
    hide *;
    if parts != [] {
      var front, rows := parts[..|parts| - 1], parts[|parts| - 1];
      FlushedTable(db, source, front);
      assert parts == front + [rows];
      FlushesStep(front, rows);
      PerformStep(db, source, Flushes(front), Flush(rows, front == []));
      FlushTable(Perform(db, source, Flushes(front)), source, rows, front == []);
      WrittenConcat([], Concat(front), rows);
      ConcatStep(front, rows);
      NothingWritten();
    }
  }

  lemma FlushTable(db: Db, source: Source, rows: seq<Row>, first: bool)
    ensures TableOf(One(db, source, Flush(rows, first)), source) == Written(if first then [] else TableOf(db, source), rows)
  {
    hide Written;
  }

  lemma NothingWritten()
    ensures Concat([]) == [] && Written([], []) == []
  {
  }

  lemma StreamCopies(db: Db, source: Source, c: Content, stopAt: nat)
    requires stopAt >= |c| && source.InPackages?
    ensures TableOf(Perform(db, source, StreamSteps(c, stopAt)), source) == Copy(source, c)
  {
    hide Rows, Split, Perform, Written, Flushes, TableOf;
    var rows := Rows(c);
    SplitMeaning(rows);
    FlushedTable(db, source, AllBatches(rows));
    ConcatStep(Split(rows).full, Split(rows).rest);
  }

  lemma ConcatStep(parts: seq<seq<Row>>, rows: seq<Row>)
    ensures Concat(parts + [rows]) == Concat(parts) + rows
    ensures Concat(parts) + [] == Concat(parts)
  {
    assert (parts + [rows])[..|parts|] == parts;
  }

  /** Rewriting the table of a source without a fingerprint leaves every other source as it is and none marked falsely. */
  lemma {:induction false} UnmarkedSound(db: Db, source: Source, steps: seq<Step>, digest: Content -> string)
    requires Sound(db, digest) && source !in db.marks
    requires forall s | s in steps :: !s.Remember?
    ensures Sound(Perform(db, source, steps), digest) && source !in Perform(db, source, steps).marks
  {
    if steps != [] {
      var before, after := Perform(db, source, steps[..|steps| - 1]), Perform(db, source, steps);
      assert steps[|steps| - 1] in steps;
      UnmarkedSound(db, source, steps[..|steps| - 1], digest);
      hide Perform, Copy;
      forall s | s in after.marks ensures Ingested(after, s, digest) {
        assert Ingested(before, s, digest) && TableOf(after, s) == TableOf(before, s);
      }
    }
  }

  lemma RememberSound(db: Db, source: Source, fp: Option<string>, commits: bool, c: Content, digest: Content -> string)
    requires Sound(db, digest) && TableOf(db, source) == Copy(source, c) && (Known(fp) ==> digest(c) == fp.value)
    ensures Sound(One(db, source, Remember(fp, commits)), digest)
  {
    hide Copy;
    var after := One(db, source, Remember(fp, commits));
    forall s | s in after.marks ensures Ingested(after, s, digest) {
      assert s != source ==> Ingested(db, s, digest);
      assert TableOf(after, s) == TableOf(db, s);
    }
  }

  lemma ClearSound(db: Db, source: Source, commits: bool, digest: Content -> string)
    requires Sound(db, digest) && (commits || source !in db.marks)
    ensures Sound(One(db, source, Clear(commits)), digest) && source !in One(db, source, Clear(commits)).marks
  {
    hide Copy;
    var after := One(db, source, Clear(commits));
    forall s | s in after.marks ensures Ingested(after, s, digest) {
      assert Ingested(db, s, digest) && TableOf(after, s) == TableOf(db, s);
    }
  }

  /** The cycle's clearing commits, or finds nothing to clear, or is the last transaction the cycle gets to. */
  ghost predicate Harmless(db: Db, cycle: Cycle, digest: Content -> string) {
    || cycle.k.clearCommits
    || SourceOf(cycle) !in db.marks
    || |Take(StepsOf(db, cycle, digest), cycle.k.budget)| <= 1
  }

  /** A harmless cycle keeps this, wherever it is cut short. */
  lemma CycleSound(db: Db, cycle: Cycle, digest: Content -> string)
    requires Sound(db, digest) && Harmless(db, cycle, digest)
    ensures Sound(AfterCycle(db, cycle, digest), digest)
  {
    if cycle.k.clearCommits || SourceOf(cycle) !in db.marks {
      ClearedCycleSound(db, cycle, digest);
    } else {
      FailedClearIsAlone(db, cycle, digest);
    }
  }

  /** A cycle that gets no further than a clearing that fails leaves the database as it was. */
  lemma FailedClearIsAlone(db: Db, cycle: Cycle, digest: Content -> string)
    requires !cycle.k.clearCommits && |Take(StepsOf(db, cycle, digest), cycle.k.budget)| <= 1
    ensures AfterCycle(db, cycle, digest) == db
  {
    var source, steps := SourceOf(cycle), Take(StepsOf(db, cycle, digest), cycle.k.budget);
    assert steps != [] ==> steps == [Clear(false)] by { FirstIsClear(db, cycle, digest); }
    NothingRead(db, source);
    PerformStep(db, source, [], Clear(false));
    assert [] + [Clear(false)] == [Clear(false)];
  }

  lemma FirstIsClear(db: Db, cycle: Cycle, digest: Content -> string)
    ensures var steps := StepsOf(db, cycle, digest); steps != [] ==> steps[0] == Clear(cycle.k.clearCommits)
  {
    hide StreamSteps, ClashFree;
  }

  lemma ClearedCycleSound(db: Db, cycle: Cycle, digest: Content -> string)
    requires Sound(db, digest) && (cycle.k.clearCommits || SourceOf(cycle) !in db.marks)
    ensures Sound(AfterCycle(db, cycle, digest), digest)
  {
    hide Sound, Copy, One, StreamSteps, Perform, RewriteSteps, Rows, Unkeyed;
    var k, source := cycle.k, SourceOf(cycle);
    var cleared := One(db, source, Clear(k.clearCommits));
    ClearSound(db, source, k.clearCommits, digest);
    match cycle
    case Apt(_, announced, served, _) =>
      NothingRead(db, source);
      if served.Some? && announced == Some(digest(served.value)) { RewriteSound(db, source, served.value, announced, k, digest); }
    case Apk(_, served, authentic, _) =>
      NothingRead(db, source);
      if served.Some? { RewriteSound(db, source, served.value, Some(digest(served.value)), k, digest); }
    case Rpm(id, announced, served, stopAt, _) =>
      if Skips(db, source, announced, k) {
        NothingRead(db, source);
      } else {
        RpmUnfolds(db, id, announced, served, stopAt, k, digest);
        if served.Some? && k.budget > 0 {
          var stream := StreamSteps(served.value, stopAt);
          StreamFlushes(served.value, stopAt);
          forall s | s in Take(stream, k.budget - 1) ensures !s.Remember? { assert s in stream && s.Flush?; }
          UnmarkedSound(cleared, source, Take(stream, k.budget - 1), digest);
          if Verified(served.value, stopAt, announced, digest) && k.budget - 1 > |stream| {
            StreamCopies(cleared, source, served.value, stopAt);
            RememberSound(Perform(cleared, source, stream), source, announced, k.rememberCommits, served.value, digest);
          }
        }
      }
  }

  lemma RewriteSound(db: Db, source: Source, c: Content, fp: Option<string>, k: Conditions, digest: Content -> string)
    requires Sound(db, digest) && (k.clearCommits || source !in db.marks) && fp == Some(digest(c))
    ensures Sound(Perform(db, source, Take(RewriteSteps(RowsFor(source, c), fp, k), k.budget)), digest)
  {
    hide Rows, Unkeyed, Written, Sound, ClashFree;
    var rows := RowsFor(source, c);
    var cleared := One(db, source, Clear(k.clearCommits));
    var flush := Flush(rows, true);
    var flushed := One(cleared, source, flush);
    ClearSound(db, source, k.clearCommits, digest);
    UnmarkedSound(cleared, source, [flush], digest);
    assert TableOf(flushed, source) == Copy(source, c);
    hide Copy, One, Perform, RewriteSteps, RowsFor;
    NothingRead(cleared, source);
    PerformStep(cleared, source, [], flush);
    assert [] + [flush] == [flush];
    RememberSound(flushed, source, fp, k.rememberCommits, c, digest);
    RewriteUnfolds(db, source, rows, fp, k);
  }

  // ----- Whole runs -----

  ghost function AfterRun(db: Db, cycles: seq<Cycle>, digest: Content -> string): Db
    decreases |cycles|
  {
    if cycles == [] then db else AfterRun(AfterCycle(db, cycles[0], digest), cycles[1..], digest)
  }

  /** Each cycle, in the state it finds, is harmless. */
  ghost predicate AllHarmless(db: Db, cycles: seq<Cycle>, digest: Content -> string)
    decreases |cycles|
  {
    cycles == [] || (Harmless(db, cycles[0], digest) && AllHarmless(AfterCycle(db, cycles[0], digest), cycles[1..], digest))
  }

  lemma {:induction false} RunSound(db: Db, cycles: seq<Cycle>, digest: Content -> string)
    requires Sound(db, digest) && AllHarmless(db, cycles, digest)
    ensures Sound(AfterRun(db, cycles, digest), digest)
    decreases |cycles|
  {
    hide Sound, AfterCycle, Harmless;
    if cycles != [] {
      CycleSound(db, cycles[0], digest);
      RunSound(AfterCycle(db, cycles[0], digest), cycles[1..], digest);
    }
  }

  /** After any run of cycles, cut short anywhere and served anything, a source is called unchanged only when its table is a
      completely ingested copy of the content with that fingerprint. */
  lemma UnchangedMeansComplete(
    cycles: seq<Cycle>, digest: Content -> string, source: Source, fp: Option<string>, readable: bool, c: Content)
    requires Injective(digest) && AllHarmless(Db(map[], map[]), cycles, digest)
    requires Unchanged(AfterRun(Db(map[], map[]), cycles, digest), source, fp, readable) && digest(c) == fp.value
    ensures TableOf(AfterRun(Db(map[], map[]), cycles, digest), source) == Copy(source, c)
  {
    hide AfterRun, AllHarmless, Copy;
    RunSound(Db(map[], map[]), cycles, digest);
    assert Ingested(AfterRun(Db(map[], map[]), cycles, digest), source, digest);
  }

  // ----- Where rows and fingerprints come from -----

  /** The cycle was served this catalogue for the source, and had it vouched for: an Alpine archive by its signature, a Debian one by
      the digest announced. RPM batches are written before that is known. */
  ghost predicate Brought(cycle: Cycle, source: Source, c: Content, digest: Content -> string) {
    && SourceOf(cycle) == source && cycle.served == Some(c)
    && (cycle.Apk? ==> cycle.authentic) && (cycle.Apt? ==> cycle.announced == Some(digest(c)))
  }

  ghost predicate RowFrom(cycle: Cycle, source: Source, r: Row, digest: Content -> string) {
    exists c :: Brought(cycle, source, c, digest) && r in RowsFor(source, c)
  }

  ghost predicate MarkFrom(cycle: Cycle, source: Source, mark: string, digest: Content -> string) {
    exists c :: Brought(cycle, source, c, digest) && digest(c) == mark
  }

  lemma {:induction false} WrittenRows(t: Table, rows: seq<Row>, r: Row)
    requires r in Written(t, rows)
    ensures r in t || r in rows
  {
    if rows != [] && r != rows[|rows| - 1] {
      var before, last := Written(t, rows[..|rows| - 1]), rows[|rows| - 1];
      assert r in before by { UpsertRows(before, last, r); }
      WrittenRows(t, rows[..|rows| - 1], r);
    }
  }

  lemma UpsertRows(t: Table, last: Row, r: Row)
    requires r in Upsert(t, last)
    ensures r in t || r == last
  {
  }

  lemma {:induction false} PerformRows(db: Db, source: Source, steps: seq<Step>, s: Source, r: Row)
    requires r in TableOf(Perform(db, source, steps), s) && r !in TableOf(db, s)
    ensures s == source && exists st :: st in steps && st.Flush? && r in st.rows
  {
    hide Written;
    var before, last := Perform(db, source, steps[..|steps| - 1]), steps[|steps| - 1];
    assert last in steps && forall st | st in steps[..|steps| - 1] :: st in steps;
    if r in TableOf(before, s) {
      PerformRows(db, source, steps[..|steps| - 1], s, r);
    } else {
      WrittenRows(if last.first then [] else TableOf(before, source), last.rows, r);
    }
  }

  lemma {:induction false} PerformMarks(db: Db, source: Source, steps: seq<Step>, s: Source)
    requires s in Perform(db, source, steps).marks
    requires !(s in db.marks && db.marks[s] == Perform(db, source, steps).marks[s])
    ensures s == source
            && exists st :: st in steps && st.Remember? && Known(st.fingerprint)
                            && st.fingerprint.value == Perform(db, source, steps).marks[s]
  {
    hide Written;
    var before, last := Perform(db, source, steps[..|steps| - 1]), steps[|steps| - 1];
    assert last in steps && forall st | st in steps[..|steps| - 1] :: st in steps;
    if s in before.marks && before.marks[s] == Perform(db, source, steps).marks[s] {
      PerformMarks(db, source, steps[..|steps| - 1], s);
    }
  }

  lemma {:induction false} FlushesRows(parts: seq<seq<Row>>, st: Step, r: Row)
    requires st in Flushes(parts)
    ensures st.Flush? && (r in st.rows ==> r in Concat(parts))
  {
    var front := parts[..|parts| - 1];
    if st in Flushes(front) {
      FlushesRows(front, st, r);
    }
  }

  lemma StreamRows(c: Content, stopAt: nat, st: Step, r: Row)
    requires st in StreamSteps(c, stopAt) && st.Flush? && r in st.rows
    ensures r in Rows(c)
  {
    hide Rows, Split, Flushes, Concat;
    if stopAt < |c| {
      var read := Rows(c[..stopAt]);
      FlushesRows(Split(read).full, st, r);
      SplitMeaning(read);
      RowsPrefix(c, stopAt);
      assert r in read;
      var i :| 0 <= i < |read| && read[i] == r;
      assert Rows(c)[i] == r;
    } else {
      FlushesRows(AllBatches(Rows(c)), st, r);
      SplitMeaning(Rows(c));
      ConcatStep(Split(Rows(c)).full, Split(Rows(c)).rest);
    }
  }

  lemma StepIsBrought(db: Db, cycle: Cycle, digest: Content -> string, st: Step)
    requires st in StepsOf(db, cycle, digest)
    ensures st.Flush? ==> forall r | r in st.rows :: RowFrom(cycle, SourceOf(cycle), r, digest)
    ensures st.Remember? && Known(st.fingerprint) ==> MarkFrom(cycle, SourceOf(cycle), st.fingerprint.value, digest)
  {
    hide StreamSteps, ClashFree, Rows, Unkeyed, Skips;
    if cycle.served.None? {
      assert st.Clear?;
      return;
    }
    var c := cycle.served.value;
    if cycle.Rpm? {
      StreamFlushes(c, cycle.stopAt);
      assert Brought(cycle, SourceOf(cycle), c, digest);
      forall r | st.Flush? && r in st.rows ensures r in RowsFor(SourceOf(cycle), c) {
        StreamRows(c, cycle.stopAt, st, r);
      }
    } else {
      assert Brought(cycle, SourceOf(cycle), c, digest);
    }
  }

  lemma CycleBrings(db: Db, cycle: Cycle, digest: Content -> string, s: Source, r: Row)
    ensures r in TableOf(AfterCycle(db, cycle, digest), s) ==> r in TableOf(db, s) || RowFrom(cycle, s, r, digest)
    ensures var after := AfterCycle(db, cycle, digest);
            s in after.marks ==> (s in db.marks && db.marks[s] == after.marks[s]) || MarkFrom(cycle, s, after.marks[s], digest)
  {
    hide StepsOf, RowFrom, MarkFrom, Perform, TableOf;
    var source, steps := SourceOf(cycle), Take(StepsOf(db, cycle, digest), cycle.k.budget);
    var after := Perform(db, source, steps);
    assert forall st | st in steps :: st in StepsOf(db, cycle, digest);
    if r in TableOf(after, s) && r !in TableOf(db, s) {
      PerformRows(db, source, steps, s, r);
      var st :| st in steps && st.Flush? && r in st.rows;
      StepIsBrought(db, cycle, digest, st);
    }
    if s in after.marks && !(s in db.marks && db.marks[s] == after.marks[s]) {
      PerformMarks(db, source, steps, s);
      var st :| st in steps && st.Remember? && Known(st.fingerprint) && st.fingerprint.value == after.marks[s];
      StepIsBrought(db, cycle, digest, st);
    }
  }

  ghost predicate SomeRowFrom(cycles: seq<Cycle>, source: Source, r: Row, digest: Content -> string) {
    exists i :: 0 <= i < |cycles| && RowFrom(cycles[i], source, r, digest)
  }

  ghost predicate SomeMarkFrom(cycles: seq<Cycle>, source: Source, mark: string, digest: Content -> string) {
    exists i :: 0 <= i < |cycles| && MarkFrom(cycles[i], source, mark, digest)
  }

  lemma {:induction false} RunBrings(db: Db, cycles: seq<Cycle>, digest: Content -> string, s: Source, r: Row)
    ensures r in TableOf(AfterRun(db, cycles, digest), s) ==> r in TableOf(db, s) || SomeRowFrom(cycles, s, r, digest)
    ensures var after := AfterRun(db, cycles, digest);
            s in after.marks ==>
              (s in db.marks && db.marks[s] == after.marks[s]) || SomeMarkFrom(cycles, s, after.marks[s], digest)
    decreases |cycles|
  {
    hide AfterCycle, RowFrom, MarkFrom, TableOf;
    if cycles != [] {
      var next, rest := AfterCycle(db, cycles[0], digest), cycles[1..];
      CycleBrings(db, cycles[0], digest, s, r);
      RunBrings(next, rest, digest, s, r);
      assert forall i | 0 <= i < |rest| :: rest[i] == cycles[i + 1];
    }
  }

  /** After any run of cycles, harmless or not, every row and every fingerprint of a source comes from a catalogue that some cycle of
      the run was served for it: an Alpine one from an archive whose signature was right, a Debian one with the digest announced. */
  lemma NothingUnvouched(cycles: seq<Cycle>, digest: Content -> string, s: Source, r: Row)
    ensures var after := AfterRun(Db(map[], map[]), cycles, digest);
            && (r in TableOf(after, s) ==> SomeRowFrom(cycles, s, r, digest))
            && (s in after.marks ==> SomeMarkFrom(cycles, s, after.marks[s], digest))
  {
    hide AfterRun;
    RunBrings(Db(map[], map[]), cycles, digest, s, r);
  }

  // ----- What a cycle that succeeds leaves -----

  lemma {:induction false} PerformElsewhere(db: Db, source: Source, steps: seq<Step>)
    ensures OthersKept(db, Perform(db, source, steps), source)
  {
    hide Written;
    if steps != [] {
      PerformElsewhere(db, source, steps[..|steps| - 1]);
    }
  }

  lemma UnchangedKeeps(db: Db, source: Source)
    ensures OthersKept(db, db, source)
  {
  }

  lemma RewriteLeaves(db: Db, source: Source, c: Content, fp: Option<string>, k: Conditions)
    ensures var after := Perform(db, source, Take(RewriteSteps(RowsFor(source, c), fp, k), k.budget));
            ClashFree(RowsFor(source, c)) && k.budget >= 3 ==> Holds(after, source, c, fp, k.rememberCommits)
  {
    hide ClashFree, RowsFor, Written, RewriteSteps, Perform;
    RewriteUnfolds(db, source, RowsFor(source, c), fp, k);
  }

  lemma SkippedRpm(
    db: Db, id: string, announced: Option<string>, served: Option<Content>, stopAt: nat, k: Conditions, digest: Content -> string)
    requires Skips(db, InPackages(id), announced, k)
    ensures var cycle := Rpm(id, announced, served, stopAt, k);
            AfterCycle(db, cycle, digest) == db && !Succeeds(db, cycle, digest) && OthersKept(db, db, InPackages(id))
  {
    hide Skips, StreamSteps, Rows;
  }

  lemma RpmLeaves(
    db: Db, id: string, announced: Option<string>, served: Option<Content>, stopAt: nat, k: Conditions, digest: Content -> string)
    requires !Skips(db, InPackages(id), announced, k)
    ensures var cycle := Rpm(id, announced, served, stopAt, k);
            var after := AfterCycle(db, cycle, digest);
            && OthersKept(db, after, InPackages(id))
            && (Succeeds(db, cycle, digest) <==>
                  && served.Some? && stopAt >= |served.value| && Rows(served.value) != []
                  && (announced.Some? && announced.value != "" ==> digest(served.value) == announced.value)
                  && k.budget >= |AllBatches(Rows(served.value))| + 2)
            && (Succeeds(db, cycle, digest) ==> Holds(after, InPackages(id), served.value, announced, k.rememberCommits))
  {
    hide Rows, Perform, Skips, OthersKept, AllBatches, Split, Flushes, Copy;
    var cycle, source := Rpm(id, announced, served, stopAt, k), InPackages(id);
    PerformElsewhere(db, source, Take(StepsOf(db, cycle, digest), k.budget));
    RpmUnfolds(db, id, announced, served, stopAt, k, digest);
    hide StepsOf, AfterCycle, Succeeds;
    if served.Some? && stopAt >= |served.value| {
      FlushesLength(AllBatches(Rows(served.value)));
      StreamCopies(One(db, source, Clear(k.clearCommits)), source, served.value, stopAt);
    }
  }

  /** The complete copy: of an Alpine catalogue every row, in order; of another the last row of each key, and every row without one. */
  lemma CopyMeaning(source: Source, c: Content, r: Row)
    ensures source.InApkPackages? ==>
              |Copy(source, c)| == |Rows(c)| && forall i | 0 <= i < |Rows(c)| :: Copy(source, c)[i] == Row(None, Rows(c)[i].row)
    ensures source.InPackages? ==>
              (r in Copy(source, c) <==> Survives(Rows(c), r))
    ensures r in Rows(c) <==> Package(r) in c
  {
    hide Rows, Written, ClashFree, Survives;
    RowsIff(c, r);
    UnkeyedIsClashFree(Rows(c));
    ClashFreeWritten(Unkeyed(Rows(c)));
    WrittenIff(Rows(c), r);
  }

  lemma UnkeyedIsClashFree(rows: seq<Row>)
    ensures ClashFree(Unkeyed(rows))
  {
  }

  // ----- The exact condition -----

  function Interrupted(cycle: Cycle, budget: nat): Cycle {
    cycle.(k := cycle.k.(budget := budget))
  }

  /** A cycle that would change the table is safe at every interruption point exactly when its clearing commits or no
      fingerprint is stored: a failed clearing is only logged, and the stale fingerprint survives the rewriting. */
  lemma CrashSafeIff(db: Db, cycle: Cycle, digest: Content -> string, whole: nat)
    requires Sound(db, digest) && Injective(digest)
    requires TableOf(AfterCycle(db, Interrupted(cycle, whole), digest), SourceOf(cycle)) != TableOf(db, SourceOf(cycle))
    ensures (forall n :: Sound(AfterCycle(db, Interrupted(cycle, n), digest), digest))
            <==> cycle.k.clearCommits || SourceOf(cycle) !in db.marks
  {
    var source := SourceOf(cycle);
    if cycle.k.clearCommits || source !in db.marks {
      forall n ensures Sound(AfterCycle(db, Interrupted(cycle, n), digest), digest) {
        ClearedCycleSound(db, Interrupted(cycle, n), digest);
      }
    } else {
      var n := StaleAt(db, cycle, digest, whole);
      hide AfterCycle, Copy, TableOf;
      assert Ingested(db, source, digest);
      assert !Ingested(AfterCycle(db, Interrupted(cycle, n), digest), source, digest);
    }
  }

  /** Cut just before its last write, a cycle whose clearing fails leaves its new table under the old fingerprint. */
  lemma StaleAt(db: Db, cycle: Cycle, digest: Content -> string, whole: nat) returns (n: nat)
    requires !cycle.k.clearCommits
    ensures var cut := AfterCycle(db, Interrupted(cycle, n), digest);
            && cut.marks == db.marks
            && TableOf(cut, SourceOf(cycle)) == TableOf(AfterCycle(db, Interrupted(cycle, whole), digest), SourceOf(cycle))
  {
    var steps := Take(StepsOf(db, Interrupted(cycle, whole), digest), whole);
    StepsShape(db, cycle, digest, whole);
    hide StepsOf;
    n := if steps != [] && steps[|steps| - 1].Remember? then |steps| - 1 else |steps|;
    assert Take(StepsOf(db, Interrupted(cycle, n), digest), n) == steps[..n];
    MarksKept(db, SourceOf(cycle), steps[..n]);
    if n < |steps| { assert steps == steps[..n] + [steps[n]]; } else { assert steps[..n] == steps; }
  }

  /** Only the last transaction of a cycle stores a fingerprint, and how far a cycle gets does not change what it sets out to do. */
  lemma StepsShape(db: Db, cycle: Cycle, digest: Content -> string, whole: nat)
    ensures forall n :: StepsOf(db, Interrupted(cycle, n), digest) == StepsOf(db, cycle, digest)
    ensures var steps := StepsOf(db, cycle, digest);
            && (forall i | 0 <= i < |steps| - 1 :: !steps[i].Remember?)
            && (forall i | 0 <= i < |steps| :: steps[i].Clear? ==> steps[i].commits == cycle.k.clearCommits)
  {
    if cycle.Rpm? && cycle.served.Some? {
      StreamFlushes(cycle.served.value, cycle.stopAt);
      hide StreamSteps;
      var stream := StreamSteps(cycle.served.value, cycle.stopAt);
      assert forall i | 0 <= i < |stream| :: stream[i] in stream;
    }
  }

  lemma {:induction false} MarksKept(db: Db, source: Source, steps: seq<Step>)
    requires forall i | 0 <= i < |steps| :: !steps[i].Remember? && steps[i] != Clear(true)
    ensures Perform(db, source, steps).marks == db.marks
  {
    if steps != [] {
      MarksKept(db, source, steps[..|steps| - 1]);
    }
  }

  // ----- Cycles that overlap -----

  /** Where a cycle is: not begun, or between the transactions it set out to make when it compared fingerprints. */
  datatype Progress = Waiting | Under(steps: seq<Step>, next: nat)

  /** Two cycles at work on one database. */
  datatype Overlap = Overlap(db: Db, x: Progress, y: Progress)

  datatype Moved = Moved(db: Db, p: Progress)

  ghost function Move(db: Db, cycle: Cycle, p: Progress, digest: Content -> string): Moved {
    match p
    case Waiting => Moved(db, Under(StepsOf(db, cycle, digest), 0))
    case Under(steps, next) =>
      if next < |steps| then Moved(One(db, SourceOf(cycle), steps[next]), Under(steps, next + 1)) else Moved(db, p)
  }

  ghost function Turn(o: Overlap, x: Cycle, y: Cycle, xs: bool, digest: Content -> string): Overlap {
    if xs then var m := Move(o.db, x, o.x, digest); Overlap(m.db, m.p, o.y)
    else var m := Move(o.db, y, o.y, digest); Overlap(m.db, o.x, m.p)
  }

  /** The turns say which cycle moves: true for x. */
  ghost function Interleaved(o: Overlap, x: Cycle, y: Cycle, turns: seq<bool>, digest: Content -> string): Overlap
    decreases |turns|
  {
    if turns == [] then o else Interleaved(Turn(o, x, y, turns[0], digest), x, y, turns[1..], digest)
  }

  lemma TurnFirst(o: Overlap, x: Cycle, y: Cycle, xs: bool, turns: seq<bool>, digest: Content -> string)
    ensures Interleaved(o, x, y, [xs] + turns, digest) == Interleaved(Turn(o, x, y, xs, digest), x, y, turns, digest)
    ensures Interleaved(o, x, y, [xs], digest) == Turn(o, x, y, xs, digest)
  {
    assert ([xs] + turns)[1..] == turns && [xs][1..] == [];
  }

  function Times(n: nat): (turns: seq<bool>)
    ensures |turns| == n && forall i | 0 <= i < n :: turns[i]
  {
    seq(n, i => true)
  }

  lemma {:induction false} MoveOn(o: Overlap, x: Cycle, y: Cycle, n: nat, digest: Content -> string)
    requires o.x.Under? && o.x.next + n <= |o.x.steps|
    ensures Interleaved(o, x, y, Times(n), digest)
            == Overlap(Perform(o.db, SourceOf(x), o.x.steps[o.x.next..o.x.next + n]), Under(o.x.steps, o.x.next + n), o.y)
    decreases n
  {
    hide *;
    var source, steps, k := SourceOf(x), o.x.steps, o.x.next;
    if n == 0 {
      NoTurns(o, x, y, digest);
      assert steps[k..k] == [];
    } else {
      var next := Turn(o, x, y, true, digest);
      TimesMore(n);
      TurnFirst(o, x, y, true, Times(n - 1), digest);
      TurnMoves(o, x, y, digest);
      MoveOn(next, x, y, n - 1, digest);
      assert steps[k..k + n] == [steps[k]] + steps[k + 1..k + n];
      PerformSplit(o.db, source, [steps[k]], steps[k + 1..k + n]);
      PerformOne(o.db, source, steps[k]);
    }
  }

  lemma NoTurns(o: Overlap, x: Cycle, y: Cycle, digest: Content -> string)
    ensures Times(0) == [] && Interleaved(o, x, y, Times(0), digest) == o && Perform(o.db, SourceOf(x), []) == o.db
  {
  }

  lemma TimesMore(n: nat)
    requires n > 0
    ensures Times(n) == [true] + Times(n - 1)
  {
  }

  lemma TurnMoves(o: Overlap, x: Cycle, y: Cycle, digest: Content -> string)
    requires o.x.Under? && o.x.next < |o.x.steps|
    ensures Turn(o, x, y, true, digest)
            == Overlap(One(o.db, SourceOf(x), o.x.steps[o.x.next]), Under(o.x.steps, o.x.next + 1), o.y)
  {
    hide One;
  }

  lemma PerformOne(db: Db, source: Source, st: Step)
    ensures Perform(db, source, [st]) == One(db, source, st)
  {
    hide One;
    assert [st][..0] == [];
  }

  /** A cycle that has all its turns before the other is the cycle on its own, cut short after n transactions. */
  lemma AloneIsCycle(db: Db, x: Cycle, y: Cycle, n: nat, digest: Content -> string)
    requires n <= |StepsOf(db, x, digest)|
    ensures Interleaved(Overlap(db, Waiting, Waiting), x, y, Times(n + 1), digest).db
            == AfterCycle(db, Interrupted(x, n), digest)
  {
    var o, steps := Overlap(db, Waiting, Waiting), StepsOf(db, x, digest);
    StepsShape(db, x, digest, n);
    hide StepsOf, Perform;
    assert Times(n + 1)[1..] == Times(n);
    MoveOn(Turn(o, x, y, true, digest), x, y, n, digest);
    assert Take(steps, n) == steps[0..n];
  }

  /** The cycle replaces the table of its source by the catalogue c, if it does not skip it. */
  ghost predicate Replaces(cycle: Cycle, c: Content, digest: Content -> string) {
    match cycle
    case Apt(_, announced, served, k) =>
      served == Some(c) && announced == Some(digest(c)) && ClashFree(Rows(c)) && k.clearCommits
    case Apk(_, served, authentic, k) => served == Some(c) && authentic && ClashFree(Unkeyed(Rows(c))) && k.clearCommits
    case Rpm(_, _, _, _, _) => false
  }

  /** The cycle stores the fingerprint of c at its end. */
  predicate Remembers(cycle: Cycle, c: Content, digest: Content -> string) {
    cycle.k.rememberCommits && digest(c) != ""
  }

  function ReplacingSteps(cycle: Cycle, c: Content, digest: Content -> string): seq<Step> {
    [Clear(true), Flush(RowsFor(SourceOf(cycle), c), true), Remember(Some(digest(c)), cycle.k.rememberCommits)]
  }

  lemma StepsReplace(db: Db, cycle: Cycle, c: Content, digest: Content -> string)
    requires Replaces(cycle, c, digest)
    ensures StepsOf(db, cycle, digest)
            == if Skips(db, SourceOf(cycle), Some(digest(c)), cycle.k) then [] else ReplacingSteps(cycle, c, digest)
  {
    hide ClashFree, Rows, Skips;
  }

  predicate Begun(p: Progress) {
    p.Under? && p.next >= 1
  }

  predicate HasFlushed(p: Progress) {
    p.Under? && p.next >= 2
  }

  predicate OnCourse(p: Progress, cycle: Cycle, c: Content, digest: Content -> string) {
    p.Waiting? || p == Under([], 0) || (p.steps == ReplacingSteps(cycle, c, digest) && p.next <= 3)
  }

  /** Once a cycle has begun, a fingerprint is stored only over the table t, and t is what every flush writes. */
  ghost predicate Orderly(db: Db, source: Source, t: Table, same: bool, begun: bool, flushed: bool, digest: Content -> string) {
    && Sound(db, digest)
    && (begun ==> source !in db.marks || (same && TableOf(db, source) == t))
    && (flushed && same ==> TableOf(db, source) == t)
  }

  lemma MoveOrderly(
    db: Db, cycle: Cycle, c: Content, p: Progress, t: Table, same: bool, begun: bool, flushed: bool, digest: Content -> string)
    requires Replaces(cycle, c, digest) && OnCourse(p, cycle, c, digest)
    requires if same then Copy(SourceOf(cycle), c) == t else !Remembers(cycle, c, digest)
    requires Orderly(db, SourceOf(cycle), t, same, Begun(p) || begun, HasFlushed(p) || flushed, digest)
    ensures var m := Move(db, cycle, p, digest);
            && OnCourse(m.p, cycle, c, digest)
            && Orderly(m.db, SourceOf(cycle), t, same, Begun(m.p) || begun, HasFlushed(m.p) || flushed, digest)
  {
    var source := SourceOf(cycle);
    StepsReplace(db, cycle, c, digest);
    hide StepsOf, Replaces, Copy, Rows, Sound;
    if p.Under? && p.next < |p.steps| {
      match p.next {
        case 0 => ClearSound(db, source, true, digest);
        case 1 => FlushOver(db, source, c, digest);
        case 2 =>
          if Remembers(cycle, c, digest) { RememberSound(db, source, Some(digest(c)), true, c, digest); }
      }
    }
  }

  /** Writing a whole table keeps the database sound where no fingerprint is stored or the table stays as it is. */
  lemma FlushOver(db: Db, source: Source, c: Content, digest: Content -> string)
    requires Sound(db, digest) && (source !in db.marks || TableOf(db, source) == Copy(source, c))
    ensures var after := One(db, source, Flush(RowsFor(source, c), true));
            Sound(after, digest) && after.marks == db.marks && TableOf(after, source) == Copy(source, c)
  {
    hide Written, RowsFor;
    var after := One(db, source, Flush(RowsFor(source, c), true));
    forall s | s in after.marks ensures Ingested(after, s, digest) {
      assert Ingested(db, s, digest) && TableOf(after, s) == TableOf(db, s);
    }
  }

  lemma {:induction false} OverlapOrderly(
    o: Overlap, x: Cycle, y: Cycle, a: Content, b: Content, turns: seq<bool>, same: bool, digest: Content -> string)
    requires Replaces(x, a, digest) && Replaces(y, b, digest) && SourceOf(x) == SourceOf(y)
    requires if same then Copy(SourceOf(x), a) == Copy(SourceOf(x), b) else !Remembers(x, a, digest) && !Remembers(y, b, digest)
    requires OnCourse(o.x, x, a, digest) && OnCourse(o.y, y, b, digest)
    requires Orderly(o.db, SourceOf(x), Copy(SourceOf(x), a), same, Begun(o.x) || Begun(o.y), HasFlushed(o.x) || HasFlushed(o.y), digest)
    ensures Sound(Interleaved(o, x, y, turns, digest).db, digest)
    decreases |turns|
  {
    hide Replaces, Remembers, OnCourse, Copy, Begun, HasFlushed, Move, Sound;
    if turns != [] {
      var t := Copy(SourceOf(x), a);
      if turns[0] {
        MoveOrderly(o.db, x, a, o.x, t, same, Begun(o.y), HasFlushed(o.y), digest);
      } else {
        MoveOrderly(o.db, y, b, o.y, t, same, Begun(o.x), HasFlushed(o.x), digest);
      }
      OverlapOrderly(Turn(o, x, y, turns[0], digest), x, y, a, b, turns[1..], same, digest);
    }
  }

  /** Whichever begins, the other finds no fingerprint once the first has cleared it. */
  lemma BothClear(o: Overlap, x: Cycle, y: Cycle, sx: seq<Step>, sy: seq<Step>, digest: Content -> string)
    requires o.x.Waiting? && o.y.Waiting? && SourceOf(x) == SourceOf(y)
    requires sx != [] && sx[0] == Clear(true) && sy != [] && sy[0] == Clear(true)
    requires StepsOf(o.db, x, digest) == sx && StepsOf(One(o.db, SourceOf(x), Clear(true)), y, digest) == sy
    ensures Interleaved(o, x, y, [true, true, false, false], digest)
            == Overlap(One(o.db, SourceOf(x), Clear(true)), Under(sx, 1), Under(sy, 1))
  {
    hide StepsOf, Interleaved;
    var cleared := One(o.db, SourceOf(x), Clear(true));
    FourTurns(o, x, y, [true, true, false, false], digest);
    var p1 := Turn(o, x, y, true, digest);
    assert p1 == Overlap(o.db, Under(sx, 0), Waiting);
    var p2 := Turn(p1, x, y, true, digest);
    assert p2 == Overlap(cleared, Under(sx, 1), Waiting);
    var p3 := Turn(p2, x, y, false, digest);
    assert p3 == Overlap(cleared, Under(sx, 1), Under(sy, 0));
    assert One(cleared, SourceOf(x), Clear(true)) == cleared;
  }

  /** x flushes, y flushes over it, x is remembered. */
  lemma FlushedOver(db: Db, x: Cycle, y: Cycle, a: Content, b: Content, digest: Content -> string)
    requires SourceOf(x) == SourceOf(y) && Remembers(x, a, digest)
    ensures var o := Overlap(db, Under(ReplacingSteps(x, a, digest), 1), Under(ReplacingSteps(y, b, digest), 1));
            var after := Interleaved(o, x, y, [true, false, true, true], digest).db;
            && SourceOf(x) in after.marks && after.marks[SourceOf(x)] == digest(a)
            && TableOf(after, SourceOf(x)) == Copy(SourceOf(y), b)
  {
    hide StepsOf, Written, RowsFor, Interleaved;
    var source, sa, sb := SourceOf(x), ReplacingSteps(x, a, digest), ReplacingSteps(y, b, digest);
    var o := Overlap(db, Under(sa, 1), Under(sb, 1));
    FourTurns(o, x, y, [true, false, true, true], digest);
    var p1 := Turn(o, x, y, true, digest);
    assert p1 == Overlap(One(db, source, sa[1]), Under(sa, 2), Under(sb, 1));
    var p2 := Turn(p1, x, y, false, digest);
    assert p2 == Overlap(One(p1.db, source, sb[1]), Under(sa, 2), Under(sb, 2));
    var p3 := Turn(p2, x, y, true, digest);
    assert p3 == Overlap(One(p2.db, source, sa[2]), Under(sa, 3), Under(sb, 2));
    assert Turn(p3, x, y, true, digest) == p3;
  }

  /** Both have cleared before either flushes: y flushes last and x is remembered. */
  lemma Overtaken(db: Db, x: Cycle, y: Cycle, a: Content, b: Content, digest: Content -> string) returns (turns: seq<bool>)
    requires Injective(digest) && Replaces(x, a, digest) && Replaces(y, b, digest) && SourceOf(x) == SourceOf(y)
    requires Copy(SourceOf(x), a) != Copy(SourceOf(x), b) && Remembers(x, a, digest)
    ensures !Sound(Interleaved(Overlap(db, Waiting, Waiting), x, y, turns, digest).db, digest)
  {
    hide StepsOf, Skips, Replaces, Remembers, Copy, RowsFor, Injective, Sound, Interleaved, Known;
    var source, o := SourceOf(x), Overlap(db, Waiting, Waiting);
    var sa, sb := ReplacingSteps(x, a, digest), ReplacingSteps(y, b, digest);
    var cleared := One(db, source, Clear(true));
    StepsReplace(cleared, x, a, digest);
    StepsReplace(cleared, y, b, digest);
    NoSkip(cleared, source, Some(digest(a)), x.k);
    NoSkip(cleared, source, Some(digest(b)), y.k);
    var second, first: seq<bool> := [true, false, true, true], [];
    if Skips(db, source, Some(digest(a)), x.k) {
      StepsReplace(db, y, b, digest);
      OneSkips(db, source, a, b, x.k, y.k, digest);
      BothClear(Swap(o), y, x, sb, sa, digest);
      first := Opposite([true, true, false, false]);
      Mirrored(Swap(o), y, x, [true, true, false, false], digest);
      assert Swap(Swap(o)) == o;
    } else {
      StepsReplace(db, x, a, digest);
      BothClear(o, x, y, sa, sb, digest);
      first := [true, true, false, false];
    }
    turns := first + second;
    InterleavedConcat(o, x, y, first, second, digest);
    FlushedOver(cleared, x, y, a, b, digest);
    NotIngested(Interleaved(o, x, y, turns, digest).db, source, a, digest);
  }

  lemma OneSkips(db: Db, source: Source, a: Content, b: Content, ka: Conditions, kb: Conditions, digest: Content -> string)
    requires Injective(digest) && Copy(source, a) != Copy(source, b) && Skips(db, source, Some(digest(a)), ka)
    ensures !Skips(db, source, Some(digest(b)), kb)
  {
    hide Copy;
  }

  lemma CopyIsWritten(source: Source, c: Content)
    ensures Copy(source, c) == Written([], RowsFor(source, c))
  {
  }

  lemma NotIngested(db: Db, source: Source, c: Content, digest: Content -> string)
    requires Injective(digest) && source in db.marks && db.marks[source] == digest(c) && TableOf(db, source) != Copy(source, c)
    ensures !Sound(db, digest)
  {
    hide Copy;
    assert !Ingested(db, source, digest);
  }

  lemma {:induction false} InterleavedConcat(
    o: Overlap, x: Cycle, y: Cycle, s: seq<bool>, t: seq<bool>, digest: Content -> string)
    ensures Interleaved(o, x, y, s + t, digest) == Interleaved(Interleaved(o, x, y, s, digest), x, y, t, digest)
    decreases |s|
  {
    hide Turn;
    if s == [] {
      assert s + t == t;
    } else {
      assert (s + t)[1..] == s[1..] + t;
      InterleavedConcat(Turn(o, x, y, s[0], digest), x, y, s[1..], t, digest);
    }
  }

  lemma TurnAt(o: Overlap, x: Cycle, y: Cycle, turns: seq<bool>, i: nat, digest: Content -> string)
    requires i < |turns|
    ensures Interleaved(o, x, y, turns[i..], digest) == Interleaved(Turn(o, x, y, turns[i], digest), x, y, turns[i + 1..], digest)
  {
    assert turns[i..][1..] == turns[i + 1..];
  }

  lemma FourTurns(o: Overlap, x: Cycle, y: Cycle, turns: seq<bool>, digest: Content -> string)
    requires |turns| == 4
    ensures Interleaved(o, x, y, turns, digest)
            == Turn(Turn(Turn(Turn(o, x, y, turns[0], digest), x, y, turns[1], digest), x, y, turns[2], digest),
                    x, y, turns[3], digest)
  {
    hide Turn;
    assert turns[0..] == turns && turns[4..] == [];
    TurnAt(o, x, y, turns, 0, digest);
    var p1 := Turn(o, x, y, turns[0], digest);
    TurnAt(p1, x, y, turns, 1, digest);
    var p2 := Turn(p1, x, y, turns[1], digest);
    TurnAt(p2, x, y, turns, 2, digest);
    TurnAt(Turn(p2, x, y, turns[2], digest), x, y, turns, 3, digest);
  }

  function Swap(o: Overlap): Overlap {
    Overlap(o.db, o.y, o.x)
  }

  function Opposite(turns: seq<bool>): seq<bool> {
    seq(|turns|, i requires 0 <= i < |turns| => !turns[i])
  }

  lemma {:induction false} Mirrored(o: Overlap, x: Cycle, y: Cycle, turns: seq<bool>, digest: Content -> string)
    ensures Interleaved(Swap(o), y, x, Opposite(turns), digest) == Swap(Interleaved(o, x, y, turns, digest))
    decreases |turns|
  {
    hide Move;
    if turns != [] {
      assert Opposite(turns)[1..] == Opposite(turns[1..]);
      assert Turn(Swap(o), y, x, Opposite(turns)[0], digest) == Swap(Turn(o, x, y, turns[0], digest));
      Mirrored(Turn(o, x, y, turns[0], digest), x, y, turns[1..], digest);
    }
  }

  /** Two cycles that replace the table of one source can overlap in any way, and be cut short at any point, exactly when they
      write the same rows or neither stores its fingerprint: otherwise one of them can be remembered over the other's table. */
  lemma OverlapIff(db: Db, x: Cycle, y: Cycle, a: Content, b: Content, digest: Content -> string)
    requires Sound(db, digest) && Injective(digest)
    requires Replaces(x, a, digest) && Replaces(y, b, digest) && SourceOf(x) == SourceOf(y)
    ensures (forall turns :: Sound(Interleaved(Overlap(db, Waiting, Waiting), x, y, turns, digest).db, digest))
            <==> Copy(SourceOf(x), a) == Copy(SourceOf(x), b) || (!Remembers(x, a, digest) && !Remembers(y, b, digest))
  {
    hide Replaces, Remembers, Copy, Sound, Injective, Interleaved;
    var o, same := Overlap(db, Waiting, Waiting), Copy(SourceOf(x), a) == Copy(SourceOf(x), b);
    if same || (!Remembers(x, a, digest) && !Remembers(y, b, digest)) {
      forall turns ensures Sound(Interleaved(o, x, y, turns, digest).db, digest) {
        OverlapOrderly(o, x, y, a, b, turns, same, digest);
      }
    } else if Remembers(x, a, digest) {
      var turns := Overtaken(db, x, y, a, b, digest);
    } else {
      var turns := Overtaken(db, y, x, b, a, digest);
      Mirrored(o, y, x, turns, digest);
      assert Swap(o) == o;
    }
  }

  lemma {:induction false} FirstFlush(parts: seq<seq<Row>>)
    requires parts != []
    ensures Flushes(parts) != [] && Flushes(parts)[0] == Flush(parts[0], true)
  {
    if |parts| > 1 {
      FirstFlush(parts[..|parts| - 1]);
    }
  }

  /** The rows of the first transaction of a stream. */
  function FirstBatch(c: Content, stopAt: nat): seq<Row> {
    var steps := StreamSteps(c, stopAt);
    if steps != [] && steps[0].Flush? then steps[0].rows else []
  }

  lemma StreamFirst(c: Content, stopAt: nat)
    requires StreamSteps(c, stopAt) != []
    ensures StreamSteps(c, stopAt)[0] == Flush(FirstBatch(c, stopAt), true)
  {
    hide Rows, Split;
    FirstFlush(if stopAt < |c| then Split(Rows(c[..stopAt])).full else AllBatches(Rows(c)));
  }

  /** Streams overlap worse: a stream that begins while another is about to be remembered leaves it remembered over the rows of a
      first batch, even when both bring the same catalogue. */
  lemma StreamOverlapBreaks(
    db: Db, id: string, a: Content, b: Content, stopA: nat, stopB: nat, ka: Conditions, kb: Conditions, digest: Content -> string)
    returns (turns: seq<bool>)
    requires Injective(digest) && digest(a) != "" && stopA >= |a| && Rows(a) != []
    requires !Skips(db, InPackages(id), Some(digest(a)), ka) && ka.rememberCommits && ka.clearCommits
    requires StreamSteps(b, stopB) != [] && kb.clearCommits
    requires Written([], FirstBatch(b, stopB)) != Copy(InPackages(id), a)
    ensures var x := Rpm(id, Some(digest(a)), Some(a), stopA, ka);
            var y := Rpm(id, Some(digest(b)), Some(b), stopB, kb);
            !Sound(Interleaved(Overlap(db, Waiting, Waiting), x, y, turns, digest).db, digest)
  {
    var x, y := Rpm(id, Some(digest(a)), Some(a), stopA, ka), Rpm(id, Some(digest(b)), Some(b), stopB, kb);
    hide Skips, StreamSteps, Rows, Copy, Written, Injective, FirstBatch, StepsOf, Perform, Interleaved;
    var source, o, batch := InPackages(id), Overlap(db, Waiting, Waiting), FirstBatch(b, stopB);
    var atEnd := StreamAtEnd(db, y, id, a, stopA, ka, digest);
    StreamBeginsWith(atEnd.db, id, b, stopB, kb, digest);
    turns := Times(|StreamSteps(a, stopA)| + 2) + [false, false, false, true];
    InterleavedConcat(o, x, y, Times(|StreamSteps(a, stopA)| + 2), [false, false, false, true], digest);
    RememberedOverFirst(atEnd, x, y, digest(a), batch, digest);
    NotIngested(Interleaved(o, x, y, turns, digest).db, source, a, digest);
  }

  /** A stream that has all its turns first, up to its last transaction. */
  lemma StreamAtEnd(db: Db, y: Cycle, id: string, c: Content, stopAt: nat, k: Conditions, digest: Content -> string)
    returns (o: Overlap)
    requires digest(c) != "" && stopAt >= |c| && Rows(c) != []
    requires !Skips(db, InPackages(id), Some(digest(c)), k) && k.rememberCommits && k.clearCommits
    ensures var x := Rpm(id, Some(digest(c)), Some(c), stopAt, k);
            o == Interleaved(Overlap(db, Waiting, Waiting), x, y, Times(|StreamSteps(c, stopAt)| + 2), digest)
    ensures o.y.Waiting? && InPackages(id) !in o.db.marks
    ensures o.x.Under? && |o.x.steps| == o.x.next + 1 && o.x.steps[o.x.next] == Remember(Some(digest(c)), true)
  {
    var x, source, stream := Rpm(id, Some(digest(c)), Some(c), stopAt, k), InPackages(id), StreamSteps(c, stopAt);
    var steps, n := [Clear(true)] + stream + [Remember(Some(digest(c)), true)], |stream| + 1;
    assert StepsOf(db, x, digest) == steps;
    hide Skips, StreamSteps, Rows, StepsOf, Perform;
    StreamUnmarked(db, source, c, stopAt);
    assert steps[0..n] == [Clear(true)] + stream;
    MoveOn(Overlap(db, Under(steps, 0), Waiting), x, y, n, digest);
    assert Times(n + 1)[1..] == Times(n);
    o := Overlap(Perform(db, source, steps[0..n]), Under(steps, n), Waiting);
  }

  lemma StreamBeginsWith(db: Db, id: string, c: Content, stopAt: nat, k: Conditions, digest: Content -> string)
    requires InPackages(id) !in db.marks && StreamSteps(c, stopAt) != [] && k.clearCommits
    ensures var steps := StepsOf(db, Rpm(id, Some(digest(c)), Some(c), stopAt, k), digest);
            |steps| > 1 && steps[0] == Clear(true) && steps[1] == Flush(FirstBatch(c, stopAt), true)
  {
    hide StreamSteps, Rows, FirstBatch, Skips;
    NoSkip(db, InPackages(id), Some(digest(c)), k);
    StreamFirst(c, stopAt);
  }

  lemma RememberedOverFirst(o: Overlap, x: Cycle, y: Cycle, fp: string, batch: seq<Row>, digest: Content -> string)
    requires SourceOf(x) == SourceOf(y) && fp != "" && o.y.Waiting?
    requires o.x.Under? && |o.x.steps| == o.x.next + 1 && o.x.steps[o.x.next] == Remember(Some(fp), true)
    requires var steps := StepsOf(o.db, y, digest); |steps| > 1 && steps[0] == Clear(true) && steps[1] == Flush(batch, true)
    ensures var after := Interleaved(o, x, y, [false, false, false, true], digest).db;
            && SourceOf(x) in after.marks && after.marks[SourceOf(x)] == fp
            && TableOf(after, SourceOf(x)) == Written([], batch)
  {
    hide StepsOf, Written, Interleaved;
    var source, steps := SourceOf(x), StepsOf(o.db, y, digest);
    FourTurns(o, x, y, [false, false, false, true], digest);
    var p1 := Turn(o, x, y, false, digest);
    assert p1 == Overlap(o.db, o.x, Under(steps, 0));
    var p2 := Turn(p1, x, y, false, digest);
    assert p2 == Overlap(One(o.db, source, steps[0]), o.x, Under(steps, 1));
    var p3 := Turn(p2, x, y, false, digest);
    assert p3 == Overlap(One(p2.db, source, steps[1]), o.x, Under(steps, 2));
  }

  lemma NoSkip(db: Db, source: Source, fp: Option<string>, k: Conditions)
    requires source !in db.marks
    ensures !Skips(db, source, fp, k)
  {
  }

  lemma StreamUnmarked(db: Db, source: Source, c: Content, stopAt: nat)
    ensures source !in Perform(db, source, [Clear(true)] + StreamSteps(c, stopAt)).marks
  {
    hide StreamSteps;
    var stream, cleared := StreamSteps(c, stopAt), One(db, source, Clear(true));
    StreamFlushes(c, stopAt);
    PerformSplit(db, source, [Clear(true)], stream);
    assert [Clear(true)][..0] == [];
    assert Perform(db, source, [Clear(true)]) == cleared;
    assert forall i | 0 <= i < |stream| :: stream[i] in stream;
    MarksKept(cleared, source, stream);
  }

  /** The count of indexed packages guards against a table changed from outside exactly as far as the table was emptied or is
      unchanged. */
  lemma GuardIff(db: Db, source: Source, t: Table, k: Conditions, digest: Content -> string)
    requires Sound(db, digest) && Injective(digest) && source in db.marks && db.marks[source] != "" && !k.force && k.readable
    ensures var changed := db.(tables := db.tables[source := t]);
            (Skips(changed, source, Some(db.marks[source]), k) ==> Ingested(changed, source, digest))
            <==> t == [] || t == TableOf(db, source)
  {
    hide Copy;
    assert Ingested(db, source, digest);
  }

  /** After any run of harmless cycles the count of indexed packages guards against a table changed from outside exactly as far as
      the table was emptied or is what the run left: one restored in part is skipped for what it no longer is. */
  lemma GuardOverRuns(cycles: seq<Cycle>, source: Source, t: Table, k: Conditions, c: Content, digest: Content -> string)
    requires Injective(digest) && AllHarmless(Db(map[], map[]), cycles, digest) && !k.force && k.readable
    requires digest(c) != ""
    requires var db := AfterRun(Db(map[], map[]), cycles, digest); source in db.marks && db.marks[source] == digest(c)
    ensures var db := AfterRun(Db(map[], map[]), cycles, digest);
            var changed := db.(tables := db.tables[source := t]);
            (Skips(changed, source, Some(digest(c)), k) ==> TableOf(changed, source) == Copy(source, c))
            <==> t == [] || t == TableOf(db, source)
  {
    hide AfterRun, AllHarmless, Copy;
    var db := AfterRun(Db(map[], map[]), cycles, digest);
    RunSound(Db(map[], map[]), cycles, digest);
    GuardIff(db, source, t, k, digest);
  }
}
