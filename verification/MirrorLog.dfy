/** services/mirror_manager.py: the log of a mirror job and its reconnectable readers. The worker, cancellations and any
    number of readers are interleaved; a reader holds the job's lock while it catches up. */
module MirrorLog {
  import opened Sequences

  type Rid = nat

  datatype Status = Running | Done | Error | Cancelled

  /** Where a reader stands in `iter_stream`. */
  datatype Pc = Outside | Holding | Read(isDone: bool) | Finished | Closed

  /** `yielded` is what the reader has sent since it started at index `from`. */
  datatype Reader = Reader(from: nat, idx: nat, yielded: seq<string>, pc: Pc)

  /** `atEnd` records how many lines the log had when the status left Running. */
  datatype State = State(
    logs: seq<string>, status: Status, atEnd: Option<nat>, lock: Option<Rid>, readers: map<Rid, Reader>)

  datatype Action =
    | Emit(line: string)
    | SetStatus(status: Status)
    | Connect(rid: Rid, from: nat)
    | Acquire(rid: Rid)
    | Yield(rid: Rid)
    | ReadStatus(rid: Rid)
    | Release(rid: Rid)
    | Close(rid: Rid)

  function WithReader(s: State, rid: Rid, r: Reader): State {
    s.(readers := s.readers[rid := r])
  }

  /** The state after an action, if the action is possible. */
  function Apply(s: State, a: Action): Option<State> {
    match a
    case Emit(line) => if s.lock.Some? then None else Some(s.(logs := s.logs + [line]))
    case SetStatus(status) =>
      if status == Running then None
      else Some(s.(status := status, atEnd := if s.status == Running then Some(|s.logs|) else s.atEnd))
    case Connect(rid, from) =>
      if rid in s.readers then None else Some(WithReader(s, rid, Reader(from, from, [], Outside)))
    case Acquire(rid) =>
      if rid !in s.readers || s.readers[rid].pc != Outside || s.lock.Some? then None
      else Some(WithReader(s, rid, s.readers[rid].(pc := Holding)).(lock := Some(rid)))
    case Yield(rid) =>
      if rid !in s.readers || s.readers[rid].pc != Holding || s.readers[rid].idx >= |s.logs| then None
      else
        var r := s.readers[rid];
        Some(WithReader(s, rid, r.(yielded := r.yielded + [s.logs[r.idx]], idx := r.idx + 1)))
    case ReadStatus(rid) =>
      if rid !in s.readers || s.readers[rid].pc != Holding || s.readers[rid].idx < |s.logs| then None
      else Some(WithReader(s, rid, s.readers[rid].(pc := Read(s.status != Running))))
    case Release(rid) =>
      if rid !in s.readers || !s.readers[rid].pc.Read? then None
      else Some(WithReader(s, rid, s.readers[rid].(pc := if s.readers[rid].pc.isDone then Finished else Outside)).(lock := None))
    case Close(rid) =>
      if rid !in s.readers || s.readers[rid].pc == Finished then None
      else Some(WithReader(s, rid, s.readers[rid].(pc := Closed)).(lock := if s.lock == Some(rid) then None else s.lock))
  }

  const NewJob: State := State([], Running, None, None, map[])

  ghost predicate IsRun(run: seq<State>, actions: seq<Action>) {
    |run| == |actions| + 1 && run[0] == NewJob
    && forall i | 0 <= i < |actions| :: Apply(run[i], actions[i]) == Some(run[i + 1])
  }

  // ----- What every step keeps -----

  /** The lines sent are those of the log from the starting index, in order, without gap or repetition. */
  ghost predicate InStep(logs: seq<string>, r: Reader) {
    && r.from <= r.idx
    && (if r.idx <= |logs| then r.yielded == logs[r.from..r.idx] else r.idx == r.from && r.yielded == [])
  }

  predicate Holds(pc: Pc) {
    pc.Holding? || pc.Read?
  }

  predicate KnowsEnd(pc: Pc) {
    pc.Finished? || (pc.Read? && pc.isDone)
  }

  /** A reader that knows of the end is past every line logged before it. */
  ghost predicate ReaderInv(s: State, rid: Rid)
    requires rid in s.readers
  {
    var r := s.readers[rid];
    && InStep(s.logs, r)
    && (Holds(r.pc) <==> s.lock == Some(rid))
    && (KnowsEnd(r.pc) ==> s.atEnd.Some? && r.idx >= s.atEnd.value)
  }

  ghost predicate JobInv(s: State) {
    && (s.status != Running <==> s.atEnd.Some?)
    && (s.atEnd.Some? ==> s.atEnd.value <= |s.logs|)
    && (s.lock.Some? ==> s.lock.value in s.readers)
  }

  ghost predicate Inv(s: State) {
    JobInv(s) && forall rid | rid in s.readers :: ReaderInv(s, rid)
  }

  lemma EmitKeepsReader(logs: seq<string>, line: string, r: Reader)
    requires InStep(logs, r)
    ensures InStep(logs + [line], r)
  {
    if r.idx <= |logs| {
      assert (logs + [line])[r.from..r.idx] == logs[r.from..r.idx];
    } else if r.idx == |logs| + 1 {
      assert (logs + [line])[r.from..r.idx] == [];
    }
  }

  lemma JobKeepsInv(s: State, a: Action)
    requires Inv(s) && Apply(s, a).Some? && (a.Emit? || a.SetStatus?)
    ensures Inv(Apply(s, a).value)
  {
    hide InStep;
    var s' := Apply(s, a).value;
    forall rid | rid in s'.readers ensures ReaderInv(s', rid) {
      assert ReaderInv(s, rid);
      if a.Emit? {
        EmitKeepsReader(s.logs, a.line, s.readers[rid]);
      }
    }
  }

  lemma YieldKeepsReader(logs: seq<string>, r: Reader)
    requires InStep(logs, r) && r.idx < |logs|
    ensures InStep(logs, r.(yielded := r.yielded + [logs[r.idx]], idx := r.idx + 1))
  {
  }

  lemma ReaderKeepsInv(s: State, a: Action)
    requires Inv(s) && Apply(s, a).Some? && !a.Emit? && !a.SetStatus?
    ensures Inv(Apply(s, a).value)
  {
    hide InStep;
    var s' := Apply(s, a).value;
    var me := a.rid;
    assert s'.logs == s.logs && s'.atEnd == s.atEnd && s'.status == s.status;
    assert s'.readers == s.readers[me := s'.readers[me]];
    forall rid | rid in s'.readers && rid != me ensures ReaderInv(s', rid) {
      assert ReaderInv(s, rid);
      if me in s.readers { assert ReaderInv(s, me); }
    }
    assert ReaderInv(s', me) by {
      if a.Connect? {
        StartsInStep(s.logs, a.from);
      } else {
        assert ReaderInv(s, me);
        if a.Yield? {
          YieldKeepsReader(s.logs, s.readers[me]);
        } else {
          SameProgress(s.logs, s.readers[me], s'.readers[me].pc);
        }
      }
    }
  }

  lemma StartsInStep(logs: seq<string>, from: nat)
    ensures InStep(logs, Reader(from, from, [], Outside))
  {
  }

  lemma SameProgress(logs: seq<string>, r: Reader, pc: Pc)
    ensures InStep(logs, r.(pc := pc)) == InStep(logs, r)
  {
  }

  lemma {:induction false} RunInv(run: seq<State>, actions: seq<Action>, i: nat)
    requires IsRun(run, actions) && i < |run|
    ensures Inv(run[i])
  {
    if i > 0 {
      RunInv(run, actions, i - 1);
      assert Apply(run[i - 1], actions[i - 1]) == Some(run[i]);
      hide Apply, Inv;
      if actions[i - 1].Emit? || actions[i - 1].SetStatus? {
        JobKeepsInv(run[i - 1], actions[i - 1]);
      } else {
        ReaderKeepsInv(run[i - 1], actions[i - 1]);
      }
    }
  }

  /** In every interleaving a reader has sent exactly the lines from its starting index on; when it announces the end it has
      sent every line logged before the status left Running. */
  lemma StreamExact(run: seq<State>, actions: seq<Action>, rid: Rid)
    requires IsRun(run, actions) && rid in run[|actions|].readers
    ensures var s := run[|actions|];
            var r := s.readers[rid];
            && (r.idx <= |s.logs| ==> r.from <= r.idx && r.yielded == s.logs[r.from..r.idx])
            && (r.idx > |s.logs| ==> r.yielded == [])
            && (r.pc == Finished ==> s.atEnd.Some? && r.idx >= s.atEnd.value)
  {
    RunInv(run, actions, |actions|);
    assert ReaderInv(run[|actions|], rid);
  }

  /** A client that comes back at the index where its first connection stopped misses nothing and sees nothing twice. */
  lemma Reconnect(s: State, first: Rid, second: Rid)
    requires Inv(s) && first in s.readers && second in s.readers
    requires s.readers[second].from == s.readers[first].idx && s.readers[second].idx <= |s.logs|
    ensures s.readers[first].yielded + s.readers[second].yielded == s.logs[s.readers[first].from..s.readers[second].idx]
  {
    assert ReaderInv(s, first) && ReaderInv(s, second);
  }

  lemma ApplyGrows(s: State, a: Action)
    requires Apply(s, a).Some?
    ensures var s' := Apply(s, a).value;
            s.logs <= s'.logs && (s.status != Running ==> s'.status != Running && s'.atEnd == s.atEnd)
  {
  }

  /** Log lines are never changed or removed, and a job that has left Running never returns to it. */
  lemma {:induction false} LogOnlyGrows(run: seq<State>, actions: seq<Action>, i: nat, j: nat)
    requires IsRun(run, actions) && i <= j < |run|
    ensures run[i].logs <= run[j].logs
    ensures run[i].status != Running ==> run[j].status != Running && run[j].atEnd == run[i].atEnd
    decreases j - i
  {
    if i < j {
      LogOnlyGrows(run, actions, i, j - 1);
      assert Apply(run[j - 1], actions[j - 1]) == Some(run[j]);
      ApplyGrows(run[j - 1], actions[j - 1]);
    }
  }

  /** Whoever holds the lock can always go on towards releasing it. */
  lemma HolderCanMove(s: State)
    requires Inv(s) && s.lock.Some?
    ensures exists a :: a in {Yield(s.lock.value), ReadStatus(s.lock.value), Release(s.lock.value)} && Apply(s, a).Some?
  {
    var rid := s.lock.value;
    assert ReaderInv(s, rid);
    assert Apply(s, Yield(rid)).Some? || Apply(s, ReadStatus(rid)).Some? || Apply(s, Release(rid)).Some?;
  }

  // ----- Which lines are certain to be sent -----

  lemma RunOn(run: seq<State>, actions: seq<Action>, a: Action) returns (run': seq<State>, actions': seq<Action>)
    requires IsRun(run, actions) && Apply(run[|actions|], a).Some?
    ensures IsRun(run', actions') && run'[|actions'|] == Apply(run[|actions|], a).value
  {
    hide Apply;
    run', actions' := run + [Apply(run[|actions|], a).value], actions + [a];
  }

  /** The worker, or cancellations that arrive late, log k lines more. */
  lemma {:induction false} RunEmits(run: seq<State>, actions: seq<Action>, k: nat) returns (run': seq<State>, actions': seq<Action>)
    requires IsRun(run, actions) && run[|actions|].lock == None
    ensures IsRun(run', actions')
    ensures exists logs :: |logs| == |run[|actions|].logs| + k && run'[|actions'|] == run[|actions|].(logs := logs)
    decreases k
  {
    if k == 0 {
      run', actions' := run, actions;
      assert run[|actions|] == run[|actions|].(logs := run[|actions|].logs);
    } else {
      var r, acts := RunOn(run, actions, Emit(""));
      assert |r[|acts|].logs| == |run[|actions|].logs| + 1;
      run', actions' := RunEmits(r, acts, k - 1);
    }
  }

  /** A reader that holds the lock sends what is left of the log. */
  lemma {:induction false} RunYields(run: seq<State>, actions: seq<Action>, rid: Rid) returns (run': seq<State>, actions': seq<Action>)
    requires IsRun(run, actions) && rid in run[|actions|].readers
    requires run[|actions|].readers[rid].pc == Holding && run[|actions|].readers[rid].idx <= |run[|actions|].logs|
    ensures IsRun(run', actions')
    ensures var s, s' := run[|actions|], run'[|actions'|];
            exists yielded ::
              s' == WithReader(s, rid, s.readers[rid].(idx := |s.logs|, yielded := yielded))
    decreases |run[|actions|].logs| - run[|actions|].readers[rid].idx
  {
    var s := run[|actions|];
    var r := s.readers[rid];
    if r.idx == |s.logs| {
      run', actions' := run, actions;
      assert s == WithReader(s, rid, r.(idx := |s.logs|, yielded := r.yielded));
    } else {
      var next, acts := RunOn(run, actions, Yield(rid));
      run', actions' := RunYields(next, acts, rid);
      var yielded :| run'[|actions'|]
                     == WithReader(next[|acts|], rid, next[|acts|].readers[rid].(idx := |next[|acts|].logs|, yielded := yielded));
      assert run'[|actions'|] == WithReader(s, rid, r.(idx := |s.logs|, yielded := yielded));
    }
  }

  /** A reader has announced the end of a job that had n lines when it stopped, and the log now has a line i at or after the
      reader's start. */
  ghost predicate EndAnnounced(run: seq<State>, actions: seq<Action>, rid: Rid, from: nat, n: nat, i: nat) {
    IsRun(run, actions) && rid in run[|actions|].readers
    && var s := run[|actions|];
       var r := s.readers[rid];
       r.pc == Finished && r.from == from && s.atEnd == Some(n) && from <= i < |s.logs|
  }

  ghost predicate Sent(s: State, rid: Rid, i: nat)
    requires rid in s.readers
  {
    var r := s.readers[rid];
    r.from <= i < r.idx && i < |s.logs| && i - r.from < |r.yielded| && r.yielded[i - r.from] == s.logs[i]
  }

  /** For every start of the reader, a line is certain to be sent before the end is announced exactly when it was logged before
      the job stopped. */
  lemma CertainIff(from: nat, n: nat, i: nat)
    requires from <= n && from <= i
    ensures (forall run: seq<State>, actions: seq<Action>, rid: Rid | EndAnnounced(run, actions, rid, from, n, i) ::
               Sent(run[|actions|], rid, i))
            <==> i < n
  {
    if i < n {
      forall run: seq<State>, actions: seq<Action>, rid: Rid | EndAnnounced(run, actions, rid, from, n, i)
        ensures Sent(run[|actions|], rid, i)
      {
        RunInv(run, actions, |actions|);
        assert ReaderInv(run[|actions|], rid);
      }
    } else {
      var run, actions := LateLine(from, n, i);
    }
  }

  lemma LateLine(from: nat, n: nat, i: nat) returns (run: seq<State>, actions: seq<Action>)
    requires from <= n <= i
    ensures EndAnnounced(run, actions, 0, from, n, i) && run[|actions|].readers[0].idx == n
  {
    hide IsRun;
    assert IsRun([NewJob], []) by { StartIsRun(); }
    run, actions := RunEmits([NewJob], [], n);
    run, actions := RunOn(run, actions, SetStatus(Done));
    run, actions := RunOn(run, actions, Connect(0, from));
    run, actions := RunOn(run, actions, Acquire(0));
    run, actions := RunYields(run, actions, 0);
    run, actions := RunOn(run, actions, ReadStatus(0));
    run, actions := RunOn(run, actions, Release(0));
    run, actions := RunEmits(run, actions, i - n + 1);
  }

  lemma StartIsRun()
    ensures IsRun([NewJob], [])
  {
  }
}
