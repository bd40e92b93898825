/** auth/users.py and the login of auth/router.py: an account is locked after too many wrong passwords. Times are in
    microseconds. */
module Lockout {
  import opened Sequences

  /** LOGIN_MAX_ATTEMPTS and LOGIN_LOCKOUT_MINUTES, the latter as a time span. */
  datatype Policy = Policy(maxFailed: int, lockout: int)

  datatype Row = Row(failedCount: nat, lockedUntil: Option<int>, active: bool)

  datatype Status = Status(locked: bool, remainingSeconds: nat, failedCount: nat, attemptsLeft: int)

  datatype LoginResult = AccountLocked | UnknownUser | WrongPassword(locked: bool) | Accepted

  predicate IsLocked(row: Row, now: int) {
    row.lockedUntil.Some? && now < row.lockedUntil.value
  }

  function AfterFailure(policy: Policy, row: Row, now: int): Row {
    var count := row.failedCount + 1;
    row.(failedCount := count, lockedUntil := if count >= policy.maxFailed then Some(now + policy.lockout) else None)
  }

  function AfterReset(row: Row): Row {
    row.(failedCount := 0, lockedUntil := None)
  }

  function StatusOf(policy: Policy, rows: map<string, Row>, username: string, now: int): Status {
    if username !in rows then Status(false, 0, 0, policy.maxFailed)
    else
      var row := rows[username];
      if IsLocked(row, now) then Status(true, (row.lockedUntil.value - now) / 1_000_000, row.failedCount, 0)
      else
        var left := policy.maxFailed - row.failedCount;
        Status(false, 0, row.failedCount, if left < 0 then 0 else left)
  }

  class Users {
    const policy: Policy
    var rows: map<string, Row>

    constructor (policy: Policy)
      ensures this.policy == policy && rows == map[]
    {
      this.policy := policy;
      rows := map[];
    }

    method GetLockoutStatus(username: string, now: int) returns (s: Status)
      ensures s == StatusOf(policy, rows, username, now)
      ensures s.locked <==> username in rows && rows[username].lockedUntil.Some? && now < rows[username].lockedUntil.value
      ensures s.failedCount == if username in rows then rows[username].failedCount else 0
      ensures s.remainingSeconds == if s.locked then (rows[username].lockedUntil.value - now) / 1_000_000 else 0
      ensures s.locked ==> s.attemptsLeft == 0
      ensures !s.locked && username in rows ==>
                s.attemptsLeft == if s.failedCount <= policy.maxFailed then policy.maxFailed - s.failedCount else 0
      ensures username !in rows ==> s.attemptsLeft == policy.maxFailed
    {
      if username !in rows {
        return Status(false, 0, 0, policy.maxFailed);
      }
      var failedCount, lockedUntil := rows[username].failedCount, rows[username].lockedUntil;
      if lockedUntil.Some? {
        if now < lockedUntil.value {
          return Status(true, (lockedUntil.value - now) / 1_000_000, failedCount, 0);
        }
      }
      var left := policy.maxFailed - failedCount;
      s := Status(false, 0, failedCount, if left < 0 then 0 else left);
    }

    /** The failure is recorded at `now`; the status returned is read at `later`. */
    method RecordFailedLogin(username: string, now: int, later: int) returns (s: Status)
      modifies this
      ensures rows == if username in old(rows) then old(rows)[username := AfterFailure(policy, old(rows)[username], now)] else old(rows)
      ensures s == StatusOf(policy, rows, username, later)
    {
      if username in rows {
        var newCount := rows[username].failedCount + 1;
        var lockedUntil: Option<int> := None;
        if newCount >= policy.maxFailed {
          lockedUntil := Some(now + policy.lockout);
        }
        rows := rows[username := rows[username].(failedCount := newCount, lockedUntil := lockedUntil)];
      }
      s := GetLockoutStatus(username, later);
    }

    method ResetFailedLogins(username: string)
      modifies this
      ensures rows == if username in old(rows) then old(rows)[username := AfterReset(old(rows)[username])] else old(rows)
    {
      if username in rows {
        rows := rows[username := rows[username].(failedCount := 0, lockedUntil := None)];
      }
    }

    /** The lock is looked at first, then the account, then the password; only a right password resets the count. */
    method Login(username: string, passwordRight: bool, checkAt: int, recordAt: int) returns (r: LoginResult)
      modifies this
      ensures var before := old(rows);
              if username in before && IsLocked(before[username], checkAt) then r == AccountLocked && rows == before
              else if username !in before || !before[username].active then r == UnknownUser && rows == before
              else if !passwordRight then
                var row := AfterFailure(policy, before[username], recordAt);
                r == WrongPassword(IsLocked(row, recordAt)) && rows == before[username := row]
              else r == Accepted && rows == before[username := AfterReset(before[username])]
      ensures var locked := username in old(rows) && old(rows)[username].lockedUntil.Some?
                            && checkAt < old(rows)[username].lockedUntil.value;
              && (r.AccountLocked? <==> locked)
              && (r.UnknownUser? <==> !locked && (username !in old(rows) || !old(rows)[username].active))
              && (r.Accepted? ==> passwordRight) && (r.WrongPassword? ==> !passwordRight)
      ensures rows.Keys == old(rows).Keys && forall u | u in rows && u != username :: rows[u] == old(rows)[u]
      ensures r.AccountLocked? || r.UnknownUser? ==> rows == old(rows)
      ensures r.Accepted? ==> rows[username] == Row(0, None, old(rows)[username].active)
      ensures r.WrongPassword? ==>
                var count := old(rows)[username].failedCount + 1;
                && rows[username] == Row(count, if count >= policy.maxFailed then Some(recordAt + policy.lockout) else None,
                                         old(rows)[username].active)
                && (r.locked <==> count >= policy.maxFailed && policy.lockout > 0)
    {
      var lockout := GetLockoutStatus(username, checkAt);
      if lockout.locked {
        return AccountLocked;
      }
      if username !in rows || !rows[username].active {
        return UnknownUser;
      }
      if !passwordRight {
        var status := RecordFailedLogin(username, recordAt, recordAt);
        return WrongPassword(status.locked);
      }
      ResetFailedLogins(username);
      r := Accepted;
    }
  }

  // ----- Runs of wrong passwords on one account -----

  /** A lock time is set exactly when the failure count has reached the maximum. */
  ghost predicate RowInv(policy: Policy, row: Row) {
    row.lockedUntil.Some? <==> row.failedCount >= policy.maxFailed
  }

  /** Every failure establishes it, whatever came before; so does a reset, with a maximum of at least one. */
  lemma RowInvHolds(policy: Policy, row: Row, now: int)
    ensures RowInv(policy, AfterFailure(policy, row, now))
    ensures RowInv(policy, AfterReset(row)) <==> policy.maxFailed >= 1
  {
  }

  /** One attempt: when the lock is looked at and, if it comes to that, when the failure is recorded. */
  datatype Attempt = Attempt(checkAt: int, recordAt: int)

  ghost predicate InOrder(attempts: seq<Attempt>) {
    && (forall i | 0 <= i < |attempts| :: attempts[i].checkAt <= attempts[i].recordAt)
    && (forall i, j | 0 <= i < j < |attempts| :: attempts[i].recordAt <= attempts[j].checkAt)
  }

  /** Times of the wrong-password checks in a run without a successful login; attempts on a locked account are not checked. */
  function Checks(policy: Policy, row: Row, attempts: seq<Attempt>): seq<int>
    decreases |attempts|
  {
    if attempts == [] then []
    else if IsLocked(row, attempts[0].checkAt) then Checks(policy, row, attempts[1..])
    else [attempts[0].recordAt] + Checks(policy, AfterFailure(policy, row, attempts[0].recordAt), attempts[1..])
  }

  /** No check comes before the lock ends, nor before an attempt is made. */
  lemma {:induction false} FirstCheck(policy: Policy, row: Row, attempts: seq<Attempt>, since: int)
    requires InOrder(attempts) && (attempts != [] ==> since <= attempts[0].checkAt)
    requires Checks(policy, row, attempts) != []
    ensures since <= Checks(policy, row, attempts)[0]
    ensures row.lockedUntil.Some? ==> row.lockedUntil.value <= Checks(policy, row, attempts)[0]
    decreases |attempts|
  {
    if IsLocked(row, attempts[0].checkAt) {
      FirstCheck(policy, row, attempts[1..], since);
    }
  }

  /** Once the count reaches the maximum, consecutive checks are a lockout apart; before, they are in order. */
  lemma {:induction false} Spacing(policy: Policy, row: Row, attempts: seq<Attempt>, k: nat)
    requires InOrder(attempts) && k + 1 < |Checks(policy, row, attempts)|
    ensures var times := Checks(policy, row, attempts);
            times[k] <= times[k + 1]
            && (row.failedCount + k + 1 >= policy.maxFailed ==> times[k] + policy.lockout <= times[k + 1])
    decreases |attempts|
  {
    if IsLocked(row, attempts[0].checkAt) {
      Spacing(policy, row, attempts[1..], k);
    } else {
      var next := AfterFailure(policy, row, attempts[0].recordAt);
      if k == 0 {
        FirstCheck(policy, next, attempts[1..], attempts[0].recordAt);
      } else {
        Spacing(policy, next, attempts[1..], k - 1);
      }
    }
  }

  lemma OneMore(n: int, part: int)
    ensures (n + 1) * part == n * part + part
  {
  }

  /** From check i to check j, every step at or after the one reaching the maximum takes a lockout. */
  lemma {:induction false} Span(policy: Policy, row: Row, attempts: seq<Attempt>, i: nat, j: nat)
    requires InOrder(attempts) && i <= j < |Checks(policy, row, attempts)| && policy.maxFailed >= 1
    ensures var times := Checks(policy, row, attempts);
            var reached := if i < policy.maxFailed - 1 then policy.maxFailed - 1 else i;
            times[j] - times[i] >= 0 && (j >= reached ==> times[j] - times[i] >= (j - reached) * policy.lockout)
    decreases j - i
  {
    if i < j {
      Span(policy, row, attempts, i, j - 1);
      Spacing(policy, row, attempts, j - 1);
      var reached := if i < policy.maxFailed - 1 then policy.maxFailed - 1 else i;
      OneMore(j - 1 - reached, policy.lockout);
    }
  }

  /** The bound: from check i to check j at most the maximum, plus one per whole lockout elapsed. */
  ghost predicate Bounded(policy: Policy, times: seq<int>)
    requires policy.lockout > 0
  {
    forall i, j | 0 <= i <= j < |times| :: AtMost(policy, j - i + 1, times[j] - times[i])
  }

  predicate AtMost(policy: Policy, count: int, span: int)
    requires policy.lockout > 0
  {
    count <= policy.maxFailed + span / policy.lockout
  }

  lemma TimesMonotone(a: int, b: int, c: nat)
    requires a <= b
    ensures a * c <= b * c
  {
  }

  lemma Quotient(total: int, count: nat, part: int)
    requires part > 0 && total >= count * part
    ensures total / part >= count
  {
    var q := total / part;
    assert total < (q + 1) * part;
    if q + 1 <= count {
      TimesMonotone(q + 1, count, part);
    }
  }

  lemma ChecksBounded(policy: Policy, row: Row, attempts: seq<Attempt>)
    requires policy.lockout > 0 && policy.maxFailed >= 1 && InOrder(attempts)
    ensures Bounded(policy, Checks(policy, row, attempts))
  {
    var times := Checks(policy, row, attempts);
    forall i, j | 0 <= i <= j < |times| ensures AtMost(policy, j - i + 1, times[j] - times[i]) {
      Span(policy, row, attempts, i, j);
      var reached := if i < policy.maxFailed - 1 then policy.maxFailed - 1 else i;
      Quotient(times[j] - times[i], if j >= reached then j - reached else 0, policy.lockout);
    }
  }

  /** In every sequential run without a successful login, on an account in any state, the wrong-password checks made within a
      span T number at most the maximum plus T divided by the lockout, rounded down; this holds exactly for a maximum of at
      least one. */
  lemma BoundIff(policy: Policy)
    requires policy.lockout > 0
    ensures (forall row, attempts | InOrder(attempts) :: Bounded(policy, Checks(policy, row, attempts)))
            <==> policy.maxFailed >= 1
  {
    if policy.maxFailed >= 1 {
      forall row, attempts | InOrder(attempts) ensures Bounded(policy, Checks(policy, row, attempts)) {
        ChecksBounded(policy, row, attempts);
      }
    } else {
      var row, attempts := Row(0, None, true), [Attempt(0, 0)];
      assert Checks(policy, row, attempts) == [0];
      var times := Checks(policy, row, attempts);
      assert Checks(policy, AfterFailure(policy, row, 0), attempts[1..]) == [];
      assert times[0] == 0 && !AtMost(policy, 1, 0);
      assert InOrder(attempts) && !Bounded(policy, times);
    }
  }

  // ----- The bound is attained -----

  /** n attempts at one moment. */
  function Burst(n: nat, now: int): seq<Attempt> {
    seq(n, _ => Attempt(now, now))
  }

  /** k moments, each one step after the one before. */
  function Ladder(step: int, k: nat, now: int): seq<int> {
    if k == 0 then [] else [now + step] + Ladder(step, k - 1, now + step)
  }

  /** k more attempts, each as the lock set by the one before ends. */
  function Patient(policy: Policy, k: nat, now: int): seq<Attempt> {
    var times := Ladder(policy.lockout, k, now);
    seq(|times|, i requires 0 <= i < |times| => Attempt(times[i], times[i]))
  }

  lemma {:induction false} LadderClimbs(step: int, k: nat, now: int)
    requires step > 0
    ensures var times := Ladder(step, k, now);
            && |times| == k && (k > 0 ==> times[k - 1] == now + k * step)
            && (forall i | 0 <= i < k :: now < times[i]) && forall i, j | 0 <= i < j < k :: times[i] < times[j]
  {
    if k > 0 {
      LadderClimbs(step, k - 1, now + step);
      assert k * step == step + (k - 1) * step;
    }
  }

  lemma {:induction false} BurstChecks(policy: Policy, failed: nat, n: nat, now: int, later: seq<Attempt>)
    requires failed + n <= policy.maxFailed && n > 0 && policy.lockout > 0
    ensures var end := Row(failed + n, if failed + n == policy.maxFailed then Some(now + policy.lockout) else None, true);
            Checks(policy, Row(failed, None, true), Burst(n, now) + later) == seq(n, _ => now) + Checks(policy, end, later)
    decreases n
  {
    var attempts, row := Burst(n, now) + later, Row(failed, None, true);
    assert attempts[0] == Attempt(now, now) && attempts[1..] == Burst(n - 1, now) + later;
    var next := AfterFailure(policy, row, now);
    if n == 1 {
      assert Burst(0, now) + later == later;
    } else {
      BurstChecks(policy, failed + 1, n - 1, now, later);
      assert [now] + seq(n - 1, _ => now) == seq(n, _ => now);
    }
    hide Checks;
    assert [now] + (seq(n - 1, _ => now) + Checks(policy, Row(failed + n, if failed + n == policy.maxFailed then Some(now + policy.lockout) else None, true), later))
        == seq(n, _ => now) + Checks(policy, Row(failed + n, if failed + n == policy.maxFailed then Some(now + policy.lockout) else None, true), later);
  }

  lemma {:induction false} PatientChecks(policy: Policy, row: Row, k: nat, now: int)
    requires policy.lockout > 0 && row.failedCount >= policy.maxFailed && row.lockedUntil == Some(now + policy.lockout)
    ensures Checks(policy, row, Patient(policy, k, now)) == Ladder(policy.lockout, k, now)
    decreases k
  {
    if k > 0 {
      var attempts, t := Patient(policy, k, now), now + policy.lockout;
      assert attempts[0] == Attempt(t, t) && attempts[1..] == Patient(policy, k - 1, t);
      PatientChecks(policy, AfterFailure(policy, row, t), k - 1, t);
    }
  }

  /** For every k there is a run with exactly the maximum plus k checks within k lockouts. */
  lemma BoundAttained(policy: Policy, k: nat)
    requires policy.lockout > 0 && policy.maxFailed >= 1
    ensures exists attempts :: InOrder(attempts) && var times := Checks(policy, Row(0, None, true), attempts);
              |times| == policy.maxFailed + k && times[|times| - 1] - times[0] == k * policy.lockout
  {
    var max, step := policy.maxFailed, policy.lockout;
    var attempts := Burst(max, 0) + Patient(policy, k, 0);
    BurstChecks(policy, 0, max, 0, Patient(policy, k, 0));
    PatientChecks(policy, Row(max, Some(step), true), k, 0);
    LadderClimbs(step, k, 0);
    assert Checks(policy, Row(0, None, true), attempts) == seq(max, _ => 0) + Ladder(step, k, 0);
    assert InOrder(attempts);
  }
}
