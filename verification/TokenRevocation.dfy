/** auth/token_revocation.py, auth/jwt.py and the logout of auth/router.py: tokens revoked by identifier in a table that a
    daily job purges of entries whose token has expired, comparing ISO texts. */
module TokenRevocation {
  import opened Sequences
  import opened TextOrder
  import opened IsoTime

  /** A token with a valid signature. `exp` counts whole seconds (section 4.1.4 of RFC 7519); `jti` identifies the token
      (section 4.1.7 of RFC 7519). */
  datatype Token = Token(jti: Option<string>, sub: Option<string>, role: Option<string>, scope: Option<string>, exp: DateTime)

  datatype Claims = Claims(username: string, role: string, jti: Option<string>)

  datatype RevokedRow = RevokedRow(username: string, revokedAt: string, expiresAt: string)

  type Rows = map<string, RevokedRow>

  predicate WellFormed(t: Token) {
    Valid(t.exp) && t.exp.micro == 0
  }

  /** A token must not be accepted on or after its expiration time. */
  predicate Expired(t: Token, now: DateTime)
    requires WellFormed(t) && Valid(now)
  {
    Instant(t.exp) <= Instant(now)
  }

  function OrEmpty(o: Option<string>): string {
    if o.Some? then o.value else ""
  }

  function Revoked(rows: Rows, jti: string, username: string, expiresAt: DateTime, now: DateTime): Rows {
    if jti == "" || jti in rows then rows else rows[jti := RevokedRow(username, Iso(now), Iso(expiresAt))]
  }

  function Purged(rows: Rows, now: DateTime): Rows {
    map j | j in rows && !Less(rows[j].expiresAt, Iso(now)) :: rows[j]
  }

  function Decoded(rows: Rows, t: Token, now: DateTime): Option<Claims>
    requires WellFormed(t) && Valid(now)
  {
    if Expired(t, now) || OrEmpty(t.sub) == "" || t.scope == Some("mfa_required") then None
    else if OrEmpty(t.jti) != "" && OrEmpty(t.jti) in rows then None
    else Some(Claims(t.sub.value, if t.role.Some? then t.role.value else "reader", t.jti))
  }

  class RevokedTokens {
    var rows: Rows

    constructor ()
      ensures rows == map[]
    {
      rows := map[];
    }

    method RevokeJti(jti: string, username: string, expiresAt: DateTime, now: DateTime)
      modifies this
      ensures rows == Revoked(old(rows), jti, username, expiresAt, now)
      ensures rows - {jti} == old(rows) - {jti}
      ensures jti in rows <==> jti != "" || jti in old(rows)
      ensures jti in rows ==> rows[jti] == if jti in old(rows) then old(rows)[jti] else RevokedRow(username, Iso(now), Iso(expiresAt))
    {
      if jti == "" {
        return;
      }
      if jti !in rows {
        rows := rows[jti := RevokedRow(username, Iso(now), Iso(expiresAt))];
      }
    }

    method IsRevoked(jti: Option<string>) returns (b: bool)
      ensures b <==> OrEmpty(jti) != "" && OrEmpty(jti) in rows
    {
      if jti.None? || jti.value == "" {
        return false;
      }
      b := jti.value in rows;
    }

    method PurgeExpired(now: DateTime) returns (deleted: nat)
      modifies this
      ensures rows == Purged(old(rows), now)
      ensures forall j :: j in rows <==> j in old(rows) && !Less(old(rows)[j].expiresAt, Iso(now))
      ensures deleted == |old(rows)| - |rows|
    {
      var kept := Purged(rows, now);
      SubmapSize(kept, rows);
      deleted := |rows| - |kept|;
      rows := kept;
    }

    method DecodeToken(t: Token, now: DateTime) returns (claims: Option<Claims>)
      requires WellFormed(t) && Valid(now)
      ensures claims == Decoded(rows, t, now)
      ensures claims.Some? <==>
                && Instant(now) < Instant(t.exp) && t.sub.Some? && t.sub.value != "" && t.scope != Some("mfa_required")
                && (t.jti.None? || t.jti.value == "" || t.jti.value !in rows)
      ensures claims.Some? ==>
                && claims.value.username == t.sub.value && claims.value.jti == t.jti
                && claims.value.role == if t.role.Some? then t.role.value else "reader"
    {
      if Expired(t, now) {
        return None;
      }
      var username := t.sub;
      if username.None? || username.value == "" {
        return None;
      }
      if t.scope == Some("mfa_required") {
        return None;
      }
      if t.jti.Some? && t.jti.value != "" {
        var revoked := IsRevoked(t.jti);
        if revoked {
          return None;
        }
      }
      claims := Some(Claims(username.value, if t.role.Some? then t.role.value else "reader", t.jti));
    }

    /** The request is let in when the token decodes at `at`; its claims are read again at `claimsAt`. */
    method Logout(t: Token, at: DateTime, claimsAt: DateTime) returns (loggedOut: bool)
      requires WellFormed(t) && Valid(at) && Valid(claimsAt)
      modifies this
      ensures loggedOut <==> Decoded(old(rows), t, at).Some?
      ensures rows == if loggedOut then AfterLogout(old(rows), t, claimsAt) else old(rows)
      ensures loggedOut && Instant(claimsAt) < Instant(t.exp) && t.jti.Some? && t.jti.value != "" ==>
                rows == old(rows)[t.jti.value := RevokedRow(t.sub.value, Iso(claimsAt), Iso(t.exp))]
      ensures !loggedOut || Instant(claimsAt) >= Instant(t.exp) || t.jti.None? || t.jti.value == "" ==> rows == old(rows)
    {
      var user := DecodeToken(t, at);
      if user.None? {
        return false;
      }
      if !Expired(t, claimsAt) && t.jti.Some? && t.jti.value != "" {
        RevokeJti(t.jti.value, user.value.username, t.exp, claimsAt);
      }
      loggedOut := true;
    }
  }

  function AfterLogout(rows: Rows, t: Token, claimsAt: DateTime): Rows
    requires WellFormed(t) && Valid(claimsAt)
  {
    if Expired(t, claimsAt) then rows else Revoked(rows, OrEmpty(t.jti), OrEmpty(t.sub), t.exp, claimsAt)
  }

  lemma SubmapSize<K, V>(a: map<K, V>, b: map<K, V>)
    requires a.Keys <= b.Keys
    ensures |a| <= |b|
  {
    assert b.Keys == a.Keys + (b.Keys - a.Keys);
  }

  // ----- Runs -----

  datatype Event =
    | Issue(token: Token)
    | Logout(token: Token, at: DateTime, claimsAt: DateTime)
    | Purge(at: DateTime)
    | Wait(until: DateTime)

  datatype State = State(rows: Rows, clock: DateTime, issued: set<Token>, loggedOut: set<Token>)

  predicate NotBefore(a: DateTime, b: DateTime) {
    Valid(a) && Valid(b) && Instant(b) <= Instant(a)
  }

  /** Token identifiers are random and never drawn twice; the clock does not go back. */
  ghost predicate Possible(s: State, e: Event) {
    match e
    case Issue(t) => WellFormed(t) && forall u | u in s.issued && OrEmpty(u.jti) != "" :: u.jti != t.jti
    case Logout(t, at, claimsAt) => t in s.issued && WellFormed(t) && NotBefore(at, s.clock) && NotBefore(claimsAt, at)
    case Purge(at) => NotBefore(at, s.clock)
    case Wait(until) => NotBefore(until, s.clock)
  }

  ghost function Apply(s: State, e: Event): State
    requires Possible(s, e)
  {
    match e
    case Issue(t) => s.(issued := s.issued + {t})
    case Logout(t, at, claimsAt) =>
      if Decoded(s.rows, t, at).None? then s.(clock := at)
      else State(AfterLogout(s.rows, t, claimsAt), claimsAt, s.issued, s.loggedOut + {t})
    case Purge(at) => s.(rows := Purged(s.rows, at), clock := at)
    case Wait(until) => s.(clock := until)
  }

  /** A row carries the expiration text of the token it revokes. */
  ghost predicate RowFor(rows: Rows, t: Token) {
    OrEmpty(t.jti) in rows && rows[OrEmpty(t.jti)].expiresAt == Iso(t.exp)
  }

  ghost predicate Inv(s: State) {
    && Valid(s.clock) && s.loggedOut <= s.issued && (forall t | t in s.issued :: WellFormed(t))
    && (forall t, u | t in s.issued && u in s.issued && OrEmpty(t.jti) != "" && t.jti == u.jti :: t == u)
    && (forall j | j in s.rows :: exists t :: t in s.loggedOut && t.jti == Some(j) && RowFor(s.rows, t))
    && (forall t | t in s.loggedOut && OrEmpty(t.jti) != "" :: RowFor(s.rows, t) || Expired(t, s.clock))
  }

  ghost predicate Init(s: State) {
    Valid(s.clock) && s.rows == map[] && s.issued == {} && s.loggedOut == {}
  }

  /** The purge drops a row exactly when its token expired before: text order agrees with time. */
  lemma PurgeDropsIff(rows: Rows, t: Token, now: DateTime)
    requires WellFormed(t) && Valid(now) && RowFor(rows, t)
    ensures OrEmpty(t.jti) !in Purged(rows, now) <==> Instant(t.exp) < Instant(now)
  {
    IsoOrder(t.exp, now);
    hide Iso, Instant, Less;
  }

  /** A row it drops is that of a token that has expired. */
  lemma PurgeDropsOnlyExpired(rows: Rows, t: Token, now: DateTime)
    requires WellFormed(t) && Valid(now) && RowFor(rows, t)
    ensures RowFor(Purged(rows, now), t) || Expired(t, now)
  {
    IsoOrder(t.exp, now);
  }

  lemma ApplyKeepsInv(s: State, e: Event)
    requires Inv(s) && Possible(s, e)
    ensures Inv(Apply(s, e))
  {
    hide Iso, Instant, Less, Valid;
    var s' := Apply(s, e);
    match e {
      case Issue(t) =>
        forall j | j in s'.rows ensures exists u :: u in s'.loggedOut && u.jti == Some(j) && RowFor(s'.rows, u) {
          var u :| u in s.loggedOut && u.jti == Some(j) && RowFor(s.rows, u);
        }
      case Logout(t, at, claimsAt) =>
        LogoutKeepsInv(s, t, at, claimsAt);
      case Purge(at) =>
        PurgeKeepsInv(s, at);
      case Wait(until) =>
    }
  }

  lemma PurgeKeepsInv(s: State, at: DateTime)
    requires Inv(s) && Possible(s, Purge(at))
    ensures Inv(Apply(s, Purge(at)))
  {
    hide Iso, Instant, Less, Valid;
    var s' := Apply(s, Purge(at));
    forall j | j in s'.rows ensures exists u :: u in s'.loggedOut && u.jti == Some(j) && RowFor(s'.rows, u) {
      var u :| u in s.loggedOut && u.jti == Some(j) && RowFor(s.rows, u);
    }
    forall t | t in s.loggedOut && OrEmpty(t.jti) != "" ensures RowFor(s'.rows, t) || Expired(t, s'.clock) {
      if RowFor(s.rows, t) {
        PurgeDropsOnlyExpired(s.rows, t, at);
      }
    }
  }

  lemma LogoutKeepsInv(s: State, t: Token, at: DateTime, claimsAt: DateTime)
    requires Inv(s) && Possible(s, Logout(t, at, claimsAt))
    ensures Inv(Apply(s, Logout(t, at, claimsAt)))
  {
    hide Iso, Instant, Less, Valid;
    var s' := Apply(s, Logout(t, at, claimsAt));
    forall j | j in s'.rows ensures exists u :: u in s'.loggedOut && u.jti == Some(j) && RowFor(s'.rows, u) {
      LogoutKeepsRow(s, t, at, claimsAt, j);
    }
    forall u | u in s'.loggedOut && OrEmpty(u.jti) != "" ensures RowFor(s'.rows, u) || Expired(u, s'.clock) {
      LogoutKeepsToken(s, t, at, claimsAt, u);
    }
  }

  lemma LogoutKeepsRow(s: State, t: Token, at: DateTime, claimsAt: DateTime, j: string)
    requires Inv(s) && Possible(s, Logout(t, at, claimsAt)) && j in Apply(s, Logout(t, at, claimsAt)).rows
    ensures var s' := Apply(s, Logout(t, at, claimsAt));
            exists u :: u in s'.loggedOut && u.jti == Some(j) && RowFor(s'.rows, u)
  {
    hide Iso, Instant, Less, Valid;
    var s' := Apply(s, Logout(t, at, claimsAt));
    if j in s.rows {
      var u :| u in s.loggedOut && u.jti == Some(j) && RowFor(s.rows, u);
      assert RowFor(s'.rows, u);
    } else {
      assert RowFor(s'.rows, t);
    }
  }

  lemma LogoutKeepsToken(s: State, t: Token, at: DateTime, claimsAt: DateTime, u: Token)
    requires Inv(s) && Possible(s, Logout(t, at, claimsAt))
    requires u in Apply(s, Logout(t, at, claimsAt)).loggedOut && OrEmpty(u.jti) != ""
    ensures var s' := Apply(s, Logout(t, at, claimsAt)); WellFormed(u) && Valid(s'.clock) && (RowFor(s'.rows, u) || Expired(u, s'.clock))
  {
    hide Iso, Less, Valid;
    if u == t && OrEmpty(t.jti) in s.rows {
      var w :| w in s.loggedOut && w.jti == Some(OrEmpty(t.jti)) && RowFor(s.rows, w);
      assert w == t;
    }
  }

  /** The states of a run, event by event. */
  ghost predicate IsRun(run: seq<State>, events: seq<Event>) {
    |run| == |events| + 1 && Init(run[0])
    && forall i | 0 <= i < |events| :: Possible(run[i], events[i]) && run[i + 1] == Apply(run[i], events[i])
  }

  lemma StartInv(s: State)
    requires Init(s)
    ensures Inv(s)
  {
  }

  lemma {:induction false} RunInv(run: seq<State>, events: seq<Event>, i: nat)
    requires IsRun(run, events) && i < |run|
    ensures Inv(run[i])
  {
    hide Inv, Apply, Possible;
    if i == 0 {
      StartInv(run[0]);
    } else {
      RunInv(run, events, i - 1);
      ApplyKeepsInv(run[i - 1], events[i - 1]);
    }
  }

  lemma {:induction false} LoggedOutStays(run: seq<State>, events: seq<Event>, i: nat, j: nat, t: Token)
    requires IsRun(run, events) && i <= j < |run| && t in run[i].loggedOut
    ensures t in run[j].loggedOut
    decreases j - i
  {
    hide Possible, Decoded, AfterLogout, Purged;
    if i < j {
      LoggedOutStays(run, events, i, j - 1, t);
      var e := events[j - 1];
      assert run[j] == Apply(run[j - 1], e);
    }
  }

  /** In every run of issues, logouts, purges and waits, a token logged out at any point is refused ever after, whether its
      row is still there or has been purged. */
  lemma LoggedOutIsRefused(run: seq<State>, events: seq<Event>, i: nat, j: nat, t: Token, now: DateTime)
    requires IsRun(run, events) && i <= j < |run| && t in run[i].loggedOut && OrEmpty(t.jti) != ""
    requires NotBefore(now, run[j].clock)
    ensures WellFormed(t) && Decoded(run[j].rows, t, now) == None
  {
    LoggedOutStays(run, events, i, j, t);
    RunInv(run, events, j);
  }

  /** A token counts as logged out only after a logout of it, made while it was accepted. */
  lemma {:induction false} LoggedOutByEvent(run: seq<State>, events: seq<Event>, j: nat, t: Token) returns (i: nat)
    requires IsRun(run, events) && j < |run| && t in run[j].loggedOut
    ensures i < j && events[i].Logout? && events[i].token == t && Possible(run[i], events[i])
    ensures Decoded(run[i].rows, t, events[i].at).Some?
  {
    hide Decoded, AfterLogout, Purged;
    var e := events[j - 1];
    assert Possible(run[j - 1], e) && run[j] == Apply(run[j - 1], e);
    if t in run[j - 1].loggedOut {
      i := LoggedOutByEvent(run, events, j - 1, t);
    } else {
      i := j - 1;
    }
  }

  /** In every reachable state a token is accepted exactly when it names someone, is no intermediate token of a second factor, has
      not expired and, if it carries an identifier, has not been logged out. */
  lemma AcceptedIff(run: seq<State>, events: seq<Event>, j: nat, t: Token, now: DateTime)
    requires IsRun(run, events) && j < |run| && t in run[j].issued && NotBefore(now, run[j].clock)
    ensures WellFormed(t)
    ensures Decoded(run[j].rows, t, now).Some?
            <==> && t.sub.Some? && t.sub.value != "" && t.scope != Some("mfa_required") && Instant(now) < Instant(t.exp)
                 && (t !in run[j].loggedOut || t.jti.None? || t.jti.value == "")
  {
    RunInv(run, events, j);
    var s := run[j];
    hide Iso, IsRun;
    if t.jti.Some? && t.jti.value in s.rows && t.jti.value != "" {
      var u :| u in s.loggedOut && u.jti == Some(t.jti.value) && RowFor(s.rows, u);
      assert u == t;
    }
  }

  /** A token of the second factor's scope, issued or not, is accepted in no reachable state. */
  lemma SecondFactorNeverSkipped(run: seq<State>, events: seq<Event>, j: nat, t: Token, now: DateTime)
    requires IsRun(run, events) && j < |run| && WellFormed(t) && Valid(now) && t.scope == Some("mfa_required")
    ensures Decoded(run[j].rows, t, now).None? && t !in run[j].loggedOut
  {
    if t in run[j].loggedOut {
      var i := LoggedOutByEvent(run, events, j, t);
    }
  }

  /** And one that was never logged out, names someone and has not expired is accepted. */
  lemma NotLoggedOutIsAccepted(run: seq<State>, events: seq<Event>, j: nat, t: Token, now: DateTime)
    requires IsRun(run, events) && j < |run| && t in run[j].issued && NotBefore(now, run[j].clock)
    requires forall i | 0 <= i < j :: !(events[i].Logout? && events[i].token == t)
    requires WellFormed(t) && t.sub.Some? && t.sub.value != "" && t.scope.None? && Instant(now) < Instant(t.exp)
    ensures Decoded(run[j].rows, t, now).Some?
  {
    hide Decoded, Instant, Possible, Apply;
    AcceptedIff(run, events, j, t, now);
    if t in run[j].loggedOut {
      var i := LoggedOutByEvent(run, events, j, t);
      assert false;
    }
  }

  /** A logout that succeeds makes the token unusable from then on exactly when the token carries an identifier or had expired
      by the time its claims were read; without one the request succeeds and the token stays good until it expires. */
  lemma LogoutEffectiveIff(rows: Rows, t: Token, at: DateTime, claimsAt: DateTime)
    requires WellFormed(t) && NotBefore(claimsAt, at) && Decoded(rows, t, at).Some?
    ensures Decoded(AfterLogout(rows, t, claimsAt), t, claimsAt).None? <==> OrEmpty(t.jti) != "" || Expired(t, claimsAt)
  {
  }
}
