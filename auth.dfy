/**
 * The session store and the authentication gate of server/src/auth.rs.
 *
 * The monotonic clock (`Instant`) is a parameter `now`, counted in
 * nanoseconds; the fresh UUID that `create` draws is the parameter `token`.
 */
module Auth {
  import opened Wrappers

  const SecondsPerHour: nat := 3600
  const NanosPerSecond: nat := 1_000_000_000

  /** The sign-in page every unauthenticated request is sent to. */
  const LoginPath: string := "/admin/login"

  /** `Instant::elapsed`: time since `createdAt`, saturating at zero. */
  function Elapsed(createdAt: nat, now: nat): (e: nat)
    ensures now >= createdAt ==> createdAt + e == now
    ensures now <= createdAt ==> e == 0
  {
    if now >= createdAt then now - createdAt else 0
  }

  /** A session created at `createdAt` is still live at `now` when its age is strictly below the TTL. */
  predicate Live(createdAt: nat, now: nat, durationSecs: nat): (b: bool)
    ensures now >= createdAt ==> (b <==> now < createdAt + durationSecs * NanosPerSecond)
    ensures now <= createdAt ==> (b <==> durationSecs > 0)
  {
    Elapsed(createdAt, now) < durationSecs * NanosPerSecond
  }

  /** A session is live at the instant it is created exactly when the TTL is not zero. */
  lemma LiveAtCreation(now: nat, durationSecs: nat)
    ensures Live(now, now, durationSecs) <==> durationSecs > 0
  {
  }

  /** Once the age reaches the TTL the session stays expired: there is no sliding expiry. */
  lemma ExpiryIsFinal(createdAt: nat, t1: nat, t2: nat, durationSecs: nat)
    requires t1 <= t2 && !Live(createdAt, t1, durationSecs)
    ensures !Live(createdAt, t2, durationSecs)
  {
  }

  /** `SessionStore`: token -> creation instant, with a fixed TTL. */
  class SessionStore {
    var sessions: map<string, nat>
    /** `session_duration`, in whole seconds. */
    const sessionDurationSecs: nat

    /** `SessionStore::new`: an empty store whose TTL is the given number of hours. */
    constructor (sessionDurationHours: nat)
      ensures sessionDurationSecs == sessionDurationHours * SecondsPerHour
      ensures sessions == map[]
    {
      sessionDurationSecs := sessionDurationHours * SecondsPerHour;
      sessions := map[];
    }

    /**
     * `create`: drops every session whose age at `now` has reached the TTL,
     * keeps the others with their creation instants, then records `token` as
     * created at `now` and returns it.
     */
    method Create(token: string, now: nat) returns (t: string)
      modifies this
      ensures t == token
      ensures sessions == (map k | k in old(sessions) && Live(old(sessions)[k], now, sessionDurationSecs) :: old(sessions)[k])[token := now]
      ensures token in sessions && sessions[token] == now
      ensures forall k :: k != token ==>
        (k in sessions <==> k in old(sessions) && Live(old(sessions)[k], now, sessionDurationSecs))
      ensures forall k :: k in sessions && k != token ==> sessions[k] == old(sessions)[k]
      ensures forall k :: k in sessions ==> Live(sessions[k], now, sessionDurationSecs) || k == token
      ensures sessionDurationSecs > 0 ==> Live(sessions[token], now, sessionDurationSecs)
    {
      sessions := map k | k in sessions && Live(sessions[k], now, sessionDurationSecs) :: sessions[k];
      sessions := sessions[token := now];
      t := token;
    }

    /** `is_valid`: the token is present and its session is live at `now`. Reads only. */
    method IsValid(token: string, now: nat) returns (b: bool)
      ensures b <==> token in sessions && Live(sessions[token], now, sessionDurationSecs)
      ensures token !in sessions ==> !b
    {
      if token in sessions {
        b := Live(sessions[token], now, sessionDurationSecs);
      } else {
        b := false;
      }
    }

    /** `remove` (logout): forgets `token`; idempotent, and every other session is kept as it was. */
    method Remove(token: string)
      modifies this
      ensures sessions == old(sessions) - {token}
      ensures token !in sessions
      ensures token !in old(sessions) ==> sessions == old(sessions)
    {
      sessions := sessions - {token};
    }
  }

  /** What the `AuthUser` extractor produces. */
  datatype AuthOutcome = Authenticated | RedirectTo(location: string)

  /**
   * The `AuthUser` extractor: succeeds exactly when the request carries a
   * `session_id` cookie whose value the store accepts at `now`; otherwise it
   * redirects to the sign-in page.
   */
  method AuthenticateRequest(store: SessionStore, sessionCookie: Option<string>, now: nat) returns (r: AuthOutcome)
    ensures r.Authenticated? <==>
      sessionCookie.Some? && sessionCookie.value in store.sessions &&
      Live(store.sessions[sessionCookie.value], now, store.sessionDurationSecs)
    ensures r.RedirectTo? ==> r.location == LoginPath
  {
    var valid := false;
    if sessionCookie.Some? {
      valid := store.IsValid(sessionCookie.value, now);
    }
    if valid {
      r := Authenticated;
    } else {
      r := RedirectTo(LoginPath);
    }
  }
}
