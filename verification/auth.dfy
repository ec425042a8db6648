/** The dashboard's password gate: brute-force lockout over a sliding
    window of failed attempts, session expiry, and the decision
    `check_auth` makes on each run of the page. Times are whole seconds
    passed in; the password and the environment are parameters. */
module DashboardAuth {
  import opened Base
  import opened Text

  const MaxAttempts := 5
  const LockoutWindow := 120
  /** Four hours. */
  const SessionExpiry := 4 * 60 * 60

  /** The auth keys of the session: `failed_attempts`, `authenticated`
      and `authenticated_at`, each `None` while missing. */
  datatype AuthState = AuthState(failedAttempts: Option<seq<int>>, authenticated: Option<bool>,
                                 authenticatedAt: Option<int>)

  /** An attempt still inside the window at `now`. */
  predicate Recent(now: int, t: int) { now - t < LockoutWindow }

  function RecentFor(now: int): int -> bool {
    (t: int) => Recent(now, t)
  }

  /** `_is_locked_out`: with attempts on record, the stale ones are
      dropped from the session and the user is locked out iff at least
      five remain. */
  function IsLockedOut(st: AuthState, now: int): (r: (bool, AuthState))
    ensures var attempts := st.failedAttempts.GetOr([]);
      && (|attempts| == 0 ==> r == (false, st))
      && (|attempts| > 0 ==>
           && r.1 == st.(failedAttempts := Some(Filter(attempts, RecentFor(now))))
           && (r.0 <==> CountIf(attempts, RecentFor(now)) >= MaxAttempts))
  {
    var attempts := st.failedAttempts.GetOr([]);
    if |attempts| == 0 then (false, st)
    else
      var recent := Filter(attempts, RecentFor(now));
      CountIfIsFilterLength(attempts, RecentFor(now));
      (|recent| >= MaxAttempts, st.(failedAttempts := Some(recent)))
  }

  /** The smallest element. */
  function MinOf(s: seq<int>): (r: int)
    requires |s| > 0
    ensures r in s && forall x :: x in s ==> r <= x
  {
    if |s| == 1 then s[0]
    else
      var m := MinOf(s[1..]);
      assert forall x :: x in s ==> x == s[0] || x in s[1..];
      if s[0] <= m then s[0] else m
  }

  /** `_lockout_remaining`: 0 without attempts; otherwise the seconds
      until the oldest recent attempt leaves the window. `None` is the
      `ValueError` of `min` when no attempt is recent. */
  function LockoutRemaining(st: AuthState, now: int): (r: Option<int>)
    ensures var attempts := st.failedAttempts.GetOr([]);
      && (|attempts| == 0 ==> r == Some(0))
      && (|attempts| > 0 ==> (r.None? <==> forall t :: t in attempts ==> !Recent(now, t)))
    ensures r.Some? ==> r.value >= 0
    ensures r.Some? && r.value > 0 ==>
      exists t :: t in st.failedAttempts.GetOr([]) && Recent(now, t) && r.value == LockoutWindow - (now - t)
    ensures r.Some? ==> forall u :: u in st.failedAttempts.GetOr([]) && Recent(now, u) ==> r.value <= LockoutWindow - (now - u)
    ensures r.Some? && (forall t :: t in st.failedAttempts.GetOr([]) ==> t <= now) ==> r.value <= LockoutWindow
  {
    var attempts := st.failedAttempts.GetOr([]);
    if |attempts| == 0 then Some(0)
    else
      var recent := Filter(attempts, RecentFor(now));
      if |recent| == 0 then
        assert forall t :: t in attempts ==> !Recent(now, t) by {
          forall t | t in attempts ensures !Recent(now, t) {
            var i :| 0 <= i < |attempts| && attempts[i] == t;
          }
        }
        None
      else
        var oldest := MinOf(recent);
        Some(Max(0, LockoutWindow - (now - oldest)))
  }

  /** `_record_failed_attempt`: exactly one timestamp more. */
  function RecordFailedAttempt(st: AuthState, now: int): (r: AuthState)
    ensures r.failedAttempts == Some(st.failedAttempts.GetOr([]) + [now])
    ensures r.authenticated == st.authenticated && r.authenticatedAt == st.authenticatedAt
  {
    st.(failedAttempts := Some(st.failedAttempts.GetOr([]) + [now]))
  }

  /** `_is_session_expired`: a missing or zero login time is expired;
      otherwise the session lasts `SessionExpiry` seconds. */
  function IsSessionExpired(st: AuthState, now: int): (r: bool)
    ensures st.authenticatedAt.None? || st.authenticatedAt == Some(0) ==> r
    ensures st.authenticatedAt.Some? && st.authenticatedAt.value != 0 ==>
      (r <==> now - st.authenticatedAt.value > SessionExpiry)
  {
    match st.authenticatedAt
    case None => true
    case Some(t) => t == 0 || now - t > SessionExpiry
  }

  /** `_is_production`. */
  predicate IsProduction(environment: Option<string>) {
    var e := Lower(Strip(environment.GetOr("")));
    e == "production" || e == "prod"
  }

  /** How a run of `check_auth` ends. */
  datatype Outcome =
    | NotConfigured      // no password in production: refused
    | AuthDisabled       // no password elsewhere: open
    | SessionValid
    | LockedOut(remaining: int)
    | LoggedIn           // correct password: the page reruns, logged in
    | WrongPassword
    | AwaitingLogin      // the form is shown and the button not pressed

  datatype AuthResult = AuthResult(granted: bool, state: AuthState, expiredNotice: bool, outcome: Outcome)

  /** `check_auth`. `password` is `DASHBOARD_PASSWORD` (missing or empty
      means none), `entered` and `clicked` are the form's field and button. */
  function CheckAuth(st: AuthState, now: int, password: Option<string>, environment: Option<string>,
                     entered: string, clicked: bool): (r: AuthResult)
    ensures password.None? || password == Some("") ==>
      r.state == st && (r.granted <==> !IsProduction(environment))
    ensures r.granted ==> password.None? || password == Some("") || r.outcome == SessionValid
    ensures r.outcome == SessionValid <==>
      password.Some? && password.value != "" && st.authenticated == Some(true) && !IsSessionExpired(st, now)
    ensures r.expiredNotice <==>
      password.Some? && password.value != "" && st.authenticated == Some(true) && IsSessionExpired(st, now)
    ensures r.expiredNotice ==> !r.granted
    ensures r.expiredNotice && r.outcome != LoggedIn ==> r.state.authenticated == Some(false)
    ensures r.outcome == LoggedIn ==>
      password.Some? && clicked && entered == password.value && r.state.authenticated == Some(true) && r.state.authenticatedAt == Some(now)
    ensures r.outcome == WrongPassword ==>
      password.Some? && clicked && entered != password.value &&
      |r.state.failedAttempts.GetOr([])| == |IsLockedOut(st, now).1.failedAttempts.GetOr([])| + 1
    ensures r.outcome.LockedOut? ==> r.state.failedAttempts == IsLockedOut(st, now).1.failedAttempts
  {
    if password.None? || password.value == "" then
      AuthResult(!IsProduction(environment), st, false, if IsProduction(environment) then NotConfigured else AuthDisabled)
    else
      var st1 := if st.authenticated.None? then st.(authenticated := Some(false)) else st;
      if st1.authenticated == Some(true) && !IsSessionExpired(st1, now) then
        AuthResult(true, st1, false, SessionValid)
      else
        var expired := st1.authenticated == Some(true);
        var st2 := if expired then st1.(authenticated := Some(false)) else st1;
        var (locked, st3) := IsLockedOut(st2, now);
        if locked then
          var remaining := LockoutRemaining(st3, now);
          LockedOutHasRemaining(st2, now);
          AuthResult(false, st3, expired, LockedOut(remaining.value))
        else if !clicked then
          AuthResult(false, st3, expired, AwaitingLogin)
        else if entered == password.value then
          AuthResult(false, st3.(authenticated := Some(true), authenticatedAt := Some(now)), expired, LoggedIn)
        else
          AuthResult(false, RecordFailedAttempt(st3, now), expired, WrongPassword)
  }

  /** Past a valid session with a password set, the login form decides:
      locked out while five recent failures stand; otherwise the right
      password, entered and submitted, logs in; a wrong one is recorded
      as a failure; without the button nothing happens. The state the
      form works on is the session with `authenticated` reset to false
      and the stale attempts pruned. */
  lemma CheckAuthLoginForm(st: AuthState, now: int, password: Option<string>, environment: Option<string>,
                           entered: string, clicked: bool)
    ensures password.Some? && password.value != "" && !(st.authenticated == Some(true) && !IsSessionExpired(st, now)) ==>
      var r := CheckAuth(st, now, password, environment, entered, clicked);
      var (locked, st3) := IsLockedOut(st.(authenticated := Some(false)), now);
      && !r.granted
      && (locked ==> r.outcome.LockedOut? && r.state == st3 && LockoutRemaining(st3, now) == Some(r.outcome.remaining))
      && (!locked && !clicked ==> r.outcome == AwaitingLogin && r.state == st3)
      && (!locked && clicked && entered == password.value ==>
            r.outcome == LoggedIn && r.state == st3.(authenticated := Some(true), authenticatedAt := Some(now)))
      && (!locked && clicked && entered != password.value ==>
            r.outcome == WrongPassword && r.state == RecordFailedAttempt(st3, now))
  {
    if password.Some? && password.value != "" && !(st.authenticated == Some(true) && !IsSessionExpired(st, now)) {
      var st1 := if st.authenticated.None? then st.(authenticated := Some(false)) else st;
      var st2 := if st1.authenticated == Some(true) then st1.(authenticated := Some(false)) else st1;
      if st.authenticated.None? {
        assert st2 == st.(authenticated := Some(false));
      } else if st.authenticated == Some(true) {
        assert st2 == st.(authenticated := Some(false));
      } else {
        assert st.authenticated.value == false;
        assert st2 == st.(authenticated := Some(false));
      }
    }
  }

  /** Once `_is_locked_out` has pruned the attempts and locked the user
      out, `_lockout_remaining` has a recent attempt to measure from. */
  lemma LockedOutHasRemaining(st: AuthState, now: int)
    requires IsLockedOut(st, now).0
    ensures LockoutRemaining(IsLockedOut(st, now).1, now).Some?
  {
    var attempts := st.failedAttempts.GetOr([]);
    var recent := Filter(attempts, RecentFor(now));
    assert recent[0] in recent;
  }

  /** While locked out the password field is never read: what was typed
      and whether the button was pressed change nothing. */
  lemma LockoutIgnoresEntry(st: AuthState, now: int, password: Option<string>, environment: Option<string>,
                            entered1: string, clicked1: bool, entered2: string, clicked2: bool)
    requires CheckAuth(st, now, password, environment, entered1, clicked1).outcome.LockedOut?
    ensures CheckAuth(st, now, password, environment, entered1, clicked1) ==
            CheckAuth(st, now, password, environment, entered2, clicked2)
  {
  }

  /** Five failures inside the window lock the user out, and the
      correct password does not get through until they age out. */
  lemma {:induction false} FiveFailuresLockOut(st: AuthState, now: int, password: string, environment: Option<string>,
                                               entered: string, clicked: bool)
    requires password != "" && st.authenticated != Some(true)
    requires st.failedAttempts.Some? && |st.failedAttempts.value| >= MaxAttempts
    requires forall t :: t in st.failedAttempts.value ==> Recent(now, t)
    ensures CheckAuth(st, now, Some(password), environment, entered, clicked).outcome.LockedOut?
    ensures !CheckAuth(st, now, Some(password), environment, entered, clicked).granted
  {
    var attempts := st.failedAttempts.value;
    var st1 := if st.authenticated.None? then st.(authenticated := Some(false)) else st;
    FilterAll(attempts, RecentFor(now));
    assert IsLockedOut(st1, now).0;
  }

  /** Attempts that have aged out no longer count. */
  lemma StaleAttemptsUnlock(st: AuthState, now: int)
    requires forall t :: t in st.failedAttempts.GetOr([]) ==> !Recent(now, t)
    ensures !IsLockedOut(st, now).0
  {
    var attempts := st.failedAttempts.GetOr([]);
    if |attempts| > 0 {
      forall i | 0 <= i < |attempts| ensures !RecentFor(now)(attempts[i]) {
        assert attempts[i] in attempts;
      }
      FilterNone(attempts, RecentFor(now));
    }
  }

  /** A login at `t` is honoured for exactly `SessionExpiry` seconds. */
  lemma SessionLasts(st: AuthState, t: int, now: int)
    requires t != 0 && st.authenticatedAt == Some(t)
    ensures !IsSessionExpired(st, now) <==> now <= t + SessionExpiry
  {
  }
}
