/**
 * The admin authentication handlers: the API gate, login, logout, and the two
 * halves of a password reset. Each handler works on the shared rate limiter and
 * the authentication tables; randomness, the key derivation, SHA-256 and mail
 * delivery are parameters.
 */
module AdminAuth {
  import opened Wrappers
  import opened Text
  import opened AuditLog
  import opened AdminStore
  import opened RequestParsing
  import opened RateLimit
  import opened CredentialCodec

  const MinPasswordLength: nat := 10

  const LoginRequired: string := "Admin login required."
  const InvalidCsrf: string := "Invalid CSRF token."
  const TooManyAttempts: string := "Too many attempts. Try again later."
  const InvalidCredentials: string := "Invalid email or password."
  const EmailRequired: string := "Email is required."
  const TooManyResets: string := "Too many reset requests. Try again later."
  const TokenRequired: string := "Reset token is required."
  const PasswordTooShort: string := "Password must be at least 10 characters."
  const InvalidResetToken: string := "Invalid or expired reset token."

  /** The outcome of `_require_admin_api`. */
  datatype Gate = Granted | Refused(status: nat, error: string)

  /** The JSON replies of the handlers. `Aborted` is the request whose freshly drawn
      token collides with a stored primary key: the insert raises and no reply is
      written. */
  datatype Reply =
    | Failure(status: nat, error: string)
    | LoggedIn(admin: Actor, csrfToken: string, sessionToken: string)
    | LoggedOut
    | ResetMailed
    | ResetComplete(csrfToken: string, sessionToken: string)
    | Aborted

  /** The string fields of a JSON body; `None` for a missing or empty field. */
  datatype Body = Body(email: Option<string>, password: Option<string>, token: Option<string>)

  /** `(body.get('email') or '').strip().lower()`. */
  function NormalizedEmail(field: Option<string>): string {
    Lower(PyStrip(field.GetOr("")))
  }

  /** The session token of the request's Cookie header. */
  function RequestToken(req: Request): Option<string> {
    SessionToken(CookiesOf(Split(req.cookie, ';')))
  }

  /** What `_current_admin` returns for the request. */
  function AdminOf(t: Tables, req: Request, now: int, newCsrf: string): Option<Admin> {
    match RequestToken(req)
    case None => None
    case Some(token) => CurrentAdminResult(t, token, now, newCsrf)
  }

  /** The tables after `_current_admin` for the request. */
  function StateAfterLookup(t: Tables, req: Request, now: int, newCsrf: string): Tables {
    match RequestToken(req)
    case None => t
    case Some(token) => CurrentAdminState(t, token, now, newCsrf)
  }

  /** The CSRF check: the stripped header is non-empty and equals the session's token. */
  predicate CsrfAccepted(header: string, csrf: string) {
    PyStrip(header) != "" && PyStrip(header) == csrf
  }

  function ActorOf(a: Admin): Actor { Actor(a.id, a.email) }

  predicate LoginLocked(lockouts: map<string, int>, email: string, ip: string, now: int) {
    Until(lockouts, EmailKey(email)) > now || Until(lockouts, IpKey(ip)) > now
  }

  /** The account found by lowercased email exists and its stored credential
      verifies the password. */
  predicate CredentialsAccepted(kdf: Kdf, users: seq<AdminUser>, email: string, password: string) {
    UserByEmail(users, email).Some? && VerifyPassword(kdf, password, UserByEmail(users, email).value.passwordHash)
  }

  /** A session token reading a URL-safe fresh CSRF token finds the same row twice. */
  lemma LookupTwice(t: Tables, req: Request, now: int, newCsrf: string, nextCsrf: string)
    requires UrlSafe(newCsrf)
    ensures var t1 := StateAfterLookup(t, req, now, newCsrf);
            AdminOf(t1, req, now, nextCsrf) == AdminOf(t, req, now, newCsrf)
            && StateAfterLookup(t1, req, now, nextCsrf) == t1
  {
    match RequestToken(req)
    case None =>
    case Some(token) =>
      if Authenticated(t, token, now).Some? {
        CsrfHealIsStable(t, token, now, newCsrf, nextCsrf);
      }
  }

  /** The session lookup with the request's cookie. */
  method LookupAdmin(store: Store, req: Request, now: int, newCsrf: string) returns (admin: Option<Admin>)
    requires store.Valid()
    modifies store
    ensures store.Valid()
    ensures admin == AdminOf(old(store.State()), req, now, newCsrf)
    ensures store.State() == StateAfterLookup(old(store.State()), req, now, newCsrf)
    ensures store.audit == old(store.audit) && store.nextAuditId == old(store.nextAuditId)
    ensures store.nextUserId == old(store.nextUserId)
  {
    var cookies := ParseCookies(req.cookie);
    admin := store.CurrentAdmin(SessionToken(cookies), now, newCsrf);
  }

  /** `_require_admin_api`: refuse with 401 when no session authenticates, and when
      the CSRF token is required, with 403 unless the header carries it; every
      refusal is audited. */
  method RequireAdminApi(store: Store, req: Request, now: int, requireCsrf: bool, newCsrf: string) returns (gate: Gate)
    requires store.Valid()
    modifies store
    ensures store.Valid()
    ensures var a := AdminOf(old(store.State()), req, now, newCsrf);
            gate == Granted <==> a.Some? && (!requireCsrf || CsrfAccepted(req.csrfHeader, a.value.csrf))
    ensures store.State() == StateAfterLookup(old(store.State()), req, now, newCsrf)
    ensures var a := AdminOf(old(store.State()), req, now, newCsrf);
            a.None? ==>
              gate == Refused(401, LoginRequired)
              && store.audit == Audited(old(store.audit), old(store.nextAuditId), "admin_api_unauthorized", false,
                                        None, "", req, ApiDenied(req.path, "no_session"), now)
              && store.nextAuditId == old(store.nextAuditId) + 1
    ensures var a := AdminOf(old(store.State()), req, now, newCsrf);
            a.Some? && requireCsrf && !CsrfAccepted(req.csrfHeader, a.value.csrf) ==>
              gate == Refused(403, InvalidCsrf)
              && store.audit == Audited(old(store.audit), old(store.nextAuditId), "admin_api_forbidden", false,
                                        Some(ActorOf(a.value)), "", req, ApiDenied(req.path, "csrf_mismatch"), now)
              && store.nextAuditId == old(store.nextAuditId) + 1
    ensures gate == Granted ==> store.audit == old(store.audit) && store.nextAuditId == old(store.nextAuditId)
    ensures store.nextUserId == old(store.nextUserId)
  {
    var admin := LookupAdmin(store, req, now, newCsrf);
    if admin.None? {
      store.Audit("admin_api_unauthorized", false, None, "", req, ApiDenied(req.path, "no_session"), now);
      return Refused(401, LoginRequired);
    }
    if requireCsrf {
      var header := PyStrip(req.csrfHeader);
      if header == "" || header != admin.value.csrf {
        store.Audit("admin_api_forbidden", false, Some(ActorOf(admin.value)), "", req,
                    ApiDenied(req.path, "csrf_mismatch"), now);
        return Refused(403, InvalidCsrf);
      }
    }
    return Granted;
  }

  /** The session opened for the account found by email authenticates as that account. */
  lemma NewSessionAuthenticates(t: Tables, nextId: nat, email: string, now: int, sessionToken: string, csrfToken: string)
    requires UsersOrdered(t.users, nextId) && UserByEmail(t.users, email).Some?
    ensures var user := UserByEmail(t.users, email).value;
            Authenticated(WithSession(Pruned(t, now), sessionToken, user.id, csrfToken, now), sessionToken, now)
            == Some(Admin(user.id, user.email, csrfToken))
  {
    UserByEmailById(t.users, nextId, email);
  }

  /** `_post_admin_auth_login`. */
  method Login(limiter: RateLimiter, store: Store, req: Request, body: Body, now: int,
               kdf: Kdf, sessionToken: string, csrfToken: string) returns (reply: Reply)
    requires limiter.Valid() && store.Valid()
    modifies limiter, store
    ensures limiter.Valid() && store.Valid()
    ensures limiter.resetAttempts == old(limiter.resetAttempts)
    // A locked login is refused before the account or the password is looked at.
    ensures var email := NormalizedEmail(body.email);
            LoginLocked(old(limiter.lockouts), email, ClientIp(req), now) ==>
              reply == Failure(429, TooManyAttempts)
              && store.State() == old(store.State())
              && limiter.loginAttempts == old(limiter.loginAttempts)
              && limiter.lockouts == CheckLocks(old(limiter.lockouts), LoginKeys(email, ClientIp(req)), now).lockouts
              && store.audit == Audited(old(store.audit), old(store.nextAuditId), "admin_login", false,
                                        None, email, req, Reason("rate_limited"), now)
              && store.nextAuditId == old(store.nextAuditId) + 1
    ensures var email := NormalizedEmail(body.email);
            var ip := ClientIp(req);
            var checked := CheckLocks(old(limiter.lockouts), LoginKeys(email, ip), now).lockouts;
            !LoginLocked(old(limiter.lockouts), email, ip, now)
            && !CredentialsAccepted(kdf, old(store.users), email, body.password.GetOr("")) ==>
              reply == Failure(401, InvalidCredentials)
              && store.State() == old(store.State())
              && LoginState(limiter.loginAttempts, limiter.lockouts)
                 == RecordFailure(LoginState(old(limiter.loginAttempts), checked), email, ip, now)
              && store.audit == Audited(old(store.audit), old(store.nextAuditId), "admin_login", false,
                                        None, email, req, Reason("invalid_credentials"), now)
              && store.nextAuditId == old(store.nextAuditId) + 1
    ensures var email := NormalizedEmail(body.email);
            var ip := ClientIp(req);
            var checked := CheckLocks(old(limiter.lockouts), LoginKeys(email, ip), now).lockouts;
            var pruned := Pruned(old(store.State()), now);
            !LoginLocked(old(limiter.lockouts), email, ip, now)
            && CredentialsAccepted(kdf, old(store.users), email, body.password.GetOr("")) ==>
              var user := UserByEmail(old(store.users), email).value;
              limiter.loginAttempts == PrunedBuckets(old(limiter.loginAttempts), now, LoginWindow) - {EmailKey(email), IpKey(ip)}
              && limiter.lockouts == checked - {EmailKey(email), IpKey(ip)}
              && (reply == LoggedIn(Actor(user.id, user.email), csrfToken, sessionToken) <==> sessionToken !in pruned.sessions)
              && (reply != LoggedIn(Actor(user.id, user.email), csrfToken, sessionToken) ==>
                    reply == Aborted && store.State() == pruned
                    && store.audit == old(store.audit) && store.nextAuditId == old(store.nextAuditId))
    ensures reply.LoggedIn? ==>
              store.State() == WithSession(Pruned(old(store.State()), now), sessionToken, reply.admin.id, csrfToken, now)
              && Authenticated(store.State(), sessionToken, now)
                 == Some(Admin(reply.admin.id, reply.admin.email, csrfToken))
              && store.audit == Audited(old(store.audit), old(store.nextAuditId), "admin_login", true,
                                        Some(reply.admin), reply.admin.email, req, Reason("success"), now)
              && store.nextAuditId == old(store.nextAuditId) + 1
    ensures store.nextUserId == old(store.nextUserId)
  {
    var email := NormalizedEmail(body.email);
    var password := body.password.GetOr("");
    var ip := ClientIp(req);
    var locked := limiter.IsLoginLocked(email, ip, now);
    if locked {
      store.Audit("admin_login", false, None, email, req, Reason("rate_limited"), now);
      return Failure(429, TooManyAttempts);
    }
    var user := UserByEmail(store.users, email);
    if user.None? || !VerifyPassword(kdf, password, user.value.passwordHash) {
      var _ := limiter.RecordLoginAttempt(email, ip, false, now);
      store.Audit("admin_login", false, None, email, req, Reason("invalid_credentials"), now);
      return Failure(401, InvalidCredentials);
    }
    var _ := limiter.RecordLoginAttempt(email, ip, true, now);
    NewSessionAuthenticates(store.State(), store.nextUserId, email, now, sessionToken, csrfToken);
    var row := user.value;
    var created := store.CreateSession(row.id, now, sessionToken, csrfToken);
    if !created {
      return Aborted;
    }
    store.Audit("admin_login", true, Some(Actor(row.id, row.email)), row.email, req, Reason("success"), now);
    return LoggedIn(Actor(row.id, row.email), csrfToken, sessionToken);
  }

  /** `_post_admin_auth_logout`: a logged-in admin must pass the CSRF gate; then the
      logout is audited and the cookie's session deleted. Without a live session
      the cookie's session is deleted all the same. */
  method Logout(store: Store, req: Request, now: int, newCsrf: string, nextCsrf: string) returns (reply: Reply)
    requires store.Valid()
    requires UrlSafe(newCsrf)
    modifies store
    ensures store.Valid()
    ensures var a := AdminOf(old(store.State()), req, now, newCsrf);
            reply == LoggedOut <==> a.None? || CsrfAccepted(req.csrfHeader, a.value.csrf)
    ensures reply != LoggedOut ==> reply == Failure(403, InvalidCsrf)
    ensures var t1 := StateAfterLookup(old(store.State()), req, now, newCsrf);
            reply == LoggedOut ==>
              store.users == t1.users && store.resets == t1.resets
              && store.sessions == (if RequestToken(req).Some? then t1.sessions - {RequestToken(req).value} else t1.sessions)
    ensures reply != LoggedOut ==> store.State() == StateAfterLookup(old(store.State()), req, now, newCsrf)
    ensures var a := AdminOf(old(store.State()), req, now, newCsrf);
            a.Some? && reply == LoggedOut ==>
              store.audit == Audited(old(store.audit), old(store.nextAuditId), "admin_logout", true,
                                     Some(ActorOf(a.value)), "", req, Reason("manual"), now)
              && store.nextAuditId == old(store.nextAuditId) + 1
    // A refusal is the CSRF gate's, audited as such.
    ensures var a := AdminOf(old(store.State()), req, now, newCsrf);
            reply != LoggedOut ==>
              a.Some?
              && store.audit == Audited(old(store.audit), old(store.nextAuditId), "admin_api_forbidden", false,
                                        Some(ActorOf(a.value)), "", req, ApiDenied(req.path, "csrf_mismatch"), now)
              && store.nextAuditId == old(store.nextAuditId) + 1
    ensures var a := AdminOf(old(store.State()), req, now, newCsrf);
            a.None? ==> store.audit == old(store.audit) && store.nextAuditId == old(store.nextAuditId)
    ensures store.nextUserId == old(store.nextUserId)
  {
    LookupTwice(old(store.State()), req, now, newCsrf, nextCsrf);
    var admin := LookupAdmin(store, req, now, newCsrf);
    if admin.Some? {
      var gate := RequireAdminApi(store, req, now, true, nextCsrf);
      if gate.Refused? {
        return Failure(gate.status, gate.error);
      }
      store.Audit("admin_logout", true, Some(ActorOf(admin.value)), "", req, Reason("manual"), now);
    }
    var cookies := ParseCookies(req.cookie);
    store.ClearSession(SessionToken(cookies));
    return LoggedOut;
  }

  /** `_post_admin_auth_request_reset`. The reply does not tell whether the account
      exists; a reset row is stored only when it does. */
  method RequestReset(limiter: RateLimiter, store: Store, req: Request, body: Body, now: int,
                      sha: Sha256, resetToken: string, emailSent: bool) returns (reply: Reply)
    requires limiter.Valid() && store.Valid()
    modifies limiter, store
    ensures limiter.Valid() && store.Valid()
    ensures limiter.loginAttempts == old(limiter.loginAttempts) && limiter.lockouts == old(limiter.lockouts)
    ensures store.users == old(store.users) && store.sessions == old(store.sessions)
    ensures store.nextAuditId == old(store.nextAuditId) + (if reply == Aborted then 0 else 1)
    ensures store.nextUserId == old(store.nextUserId)
    ensures reply == Aborted ==> store.audit == old(store.audit) && store.resets == old(store.resets)
    ensures var email := NormalizedEmail(body.email);
            email == "" ==>
              reply == Failure(400, EmailRequired)
              && limiter.resetAttempts == old(limiter.resetAttempts) && store.resets == old(store.resets)
              && store.audit == Audited(old(store.audit), old(store.nextAuditId), "admin_password_reset_request", false,
                                        None, email, req, Reason("missing_email"), now)
    ensures var email := NormalizedEmail(body.email);
            var check := CheckReset(PrunedBuckets(old(limiter.resetAttempts), now, ResetWindow), ResetKeys(email, ClientIp(req)), now);
            email != "" ==> limiter.resetAttempts == check.buckets
                            && (check.limited ==>
                                  reply == Failure(429, TooManyResets) && store.resets == old(store.resets)
                                  && store.audit == Audited(old(store.audit), old(store.nextAuditId), "admin_password_reset_request", false,
                                                            None, email, req, Reason("rate_limited"), now))
    ensures var email := NormalizedEmail(body.email);
            var check := CheckReset(PrunedBuckets(old(limiter.resetAttempts), now, ResetWindow), ResetKeys(email, ClientIp(req)), now);
            var user := UserByEmail(old(store.users), email);
            var hash := TokenHash(sha, resetToken);
            email != "" && !check.limited ==>
              (reply == ResetMailed || (reply == Aborted && user.Some? && hash in old(store.resets)))
              && (user.None? ==> store.resets == old(store.resets))
              && (reply == ResetMailed && user.Some? ==>
                    store.resets == old(store.resets)[hash := ResetRow(user.value.id, now + ResetTtl, None)]
                    && Redeemable(store.State(), hash, now) == Some(user.value.id))
              && (reply == ResetMailed ==>
                    store.audit == Audited(old(store.audit), old(store.nextAuditId), "admin_password_reset_request", true,
                                           None, email, req, ResetRequested(user.Some?, user.Some? && emailSent), now))
  {
    var email := NormalizedEmail(body.email);
    if email == "" {
      store.Audit("admin_password_reset_request", false, None, email, req, Reason("missing_email"), now);
      return Failure(400, EmailRequired);
    }
    var limited := limiter.IsResetRateLimited(email, ClientIp(req), now);
    if limited {
      store.Audit("admin_password_reset_request", false, None, email, req, Reason("rate_limited"), now);
      return Failure(429, TooManyResets);
    }
    var user := UserByEmail(store.users, email);
    var sent := false;
    if user.Some? {
      var created := store.InsertReset(TokenHash(sha, resetToken), user.value.id, now);
      if !created {
        return Aborted;
      }
      sent := emailSent;
    }
    store.Audit("admin_password_reset_request", true, None, email, req, ResetRequested(user.Some?, sent), now);
    return ResetMailed;
  }

  /** After an accepted reset, with or without the new session: the token is used
      up, the user's only session is the new one, and the user row carries the new
      password hash. */
  lemma ResetOutcome(t: Tables, hash: string, userId: nat, newHash: string, now: int, sessionToken: string, csrfToken: string)
    ensures var p := Pruned(Redeemed(t, hash, userId, newHash, now), now);
            var w := WithSession(p, sessionToken, userId, csrfToken, now);
            (forall later :: Redeemable(p, hash, later).None? && Redeemable(w, hash, later).None?)
            && (forall k :: k in p.sessions ==> p.sessions[k].userId != userId)
            && (forall k :: k in w.sessions && w.sessions[k].userId == userId ==> k == sessionToken)
            && w.users == p.users
            && UserById(p.users, userId)
               == (match UserById(t.users, userId) case Some(u) => Some(u.(passwordHash := newHash)) case None => None)
  {
    ResetTokenUsedUp(t, hash, userId, newHash, now, sessionToken, csrfToken);
    ResetSessions(t, hash, userId, newHash, now, sessionToken, csrfToken);
    RedeemedEffect(t, hash, userId, newHash, now, now, sessionToken);
  }

  lemma ResetTokenUsedUp(t: Tables, hash: string, userId: nat, newHash: string, now: int, sessionToken: string, csrfToken: string)
    ensures var p := Pruned(Redeemed(t, hash, userId, newHash, now), now);
            var w := WithSession(p, sessionToken, userId, csrfToken, now);
            hash !in p.resets && w.resets == p.resets
  {
  }

  lemma ResetSessions(t: Tables, hash: string, userId: nat, newHash: string, now: int, sessionToken: string, csrfToken: string)
    ensures var p := Pruned(Redeemed(t, hash, userId, newHash, now), now);
            var w := WithSession(p, sessionToken, userId, csrfToken, now);
            (forall k :: k in p.sessions ==> p.sessions[k].userId != userId)
            && (forall k :: k in w.sessions && w.sessions[k].userId == userId ==> k == sessionToken)
  {
  }

  /** `_post_admin_auth_reset`. An empty token, then a short password, is refused
      before any lookup; a token is accepted only while its hash names an unused
      live row; acceptance replaces the password, uses up the row, ends every
      session of the user and opens one new session. The read of the row and the
      write that marks it used are one conditional write here (`Store.Redeem`);
      one request at a time this is what the handler's read-then-write does. */
  method SubmitReset(store: Store, req: Request, body: Body, now: int,
                     kdf: Kdf, sha: Sha256, salt: seq<byte>, sessionToken: string, csrfToken: string)
    returns (reply: Reply)
    requires store.Valid()
    modifies store
    ensures store.Valid()
    ensures store.nextAuditId == old(store.nextAuditId) + (if reply == Aborted then 0 else 1)
    ensures store.nextUserId == old(store.nextUserId)
    ensures reply == Aborted ==> store.audit == old(store.audit)
    ensures var token := PyStrip(body.token.GetOr(""));
            token == "" ==>
              reply == Failure(400, TokenRequired) && store.State() == old(store.State())
              && store.audit == Audited(old(store.audit), old(store.nextAuditId), "admin_password_reset_submit", false,
                                        None, "", req, Reason("missing_token"), now)
    ensures var token := PyStrip(body.token.GetOr(""));
            token != "" && |body.password.GetOr("")| < MinPasswordLength ==>
              reply == Failure(400, PasswordTooShort) && store.State() == old(store.State())
              && store.audit == Audited(old(store.audit), old(store.nextAuditId), "admin_password_reset_submit", false,
                                        None, "", req, Reason("password_too_short"), now)
    ensures var token := PyStrip(body.token.GetOr(""));
            var hash := TokenHash(sha, token);
            token != "" && |body.password.GetOr("")| >= MinPasswordLength
            && Redeemable(old(store.State()), hash, now).None? ==>
              reply == Failure(400, InvalidResetToken) && store.State() == old(store.State())
              && store.audit == Audited(old(store.audit), old(store.nextAuditId), "admin_password_reset_submit", false,
                                        None, "", req, Reason("invalid_or_expired_token"), now)
    ensures var token := PyStrip(body.token.GetOr(""));
            var password := body.password.GetOr("");
            var hash := TokenHash(sha, token);
            var userId := Redeemable(old(store.State()), hash, now);
            token != "" && |password| >= MinPasswordLength && userId.Some? ==>
              var redeemed := Redeemed(old(store.State()), hash, userId.value, Encode(kdf, password, salt), now);
              (reply == ResetComplete(csrfToken, sessionToken) || reply == Aborted)
              && (reply == Aborted <==> sessionToken in Pruned(redeemed, now).sessions)
              && store.State() == (if reply == Aborted then Pruned(redeemed, now)
                                   else WithSession(Pruned(redeemed, now), sessionToken, userId.value, csrfToken, now))
              && (forall later :: Redeemable(store.State(), hash, later).None?)
              && (forall k :: k in store.sessions && store.sessions[k].userId == userId.value ==> k == sessionToken)
              && (UserById(store.users, userId.value).Some? ==>
                    VerifyPassword(kdf, password, UserById(store.users, userId.value).value.passwordHash))
              && (reply.ResetComplete? ==>
                    var row := UserById(store.users, userId.value);
                    store.audit == Audited(old(store.audit), old(store.nextAuditId), "admin_password_reset_submit", true,
                                           if row.Some? then Some(Actor(row.value.id, row.value.email)) else None,
                                           if row.Some? then row.value.email else "", req, Reason("success"), now))
  {
    var token := PyStrip(body.token.GetOr(""));
    var password := body.password.GetOr("");
    if token == "" {
      store.Audit("admin_password_reset_submit", false, None, "", req, Reason("missing_token"), now);
      return Failure(400, TokenRequired);
    }
    if |password| < MinPasswordLength {
      store.Audit("admin_password_reset_submit", false, None, "", req, Reason("password_too_short"), now);
      return Failure(400, PasswordTooShort);
    }
    var hash := TokenHash(sha, token);
    var newHash := Encode(kdf, password, salt);
    ghost var before := store.State();
    var userId := store.Redeem(hash, newHash, now);
    if userId.None? {
      store.Audit("admin_password_reset_submit", false, None, "", req, Reason("invalid_or_expired_token"), now);
      return Failure(400, InvalidResetToken);
    }
    ResetOutcome(before, hash, userId.value, newHash, now, sessionToken, csrfToken);
    VerifyEncoded(kdf, password, salt, DefaultIterations);
    var adminRow := UserById(store.users, userId.value);
    var created := store.CreateSession(userId.value, now, sessionToken, csrfToken);
    if !created {
      return Aborted;
    }
    var actor := if adminRow.Some? then Some(Actor(adminRow.value.id, adminRow.value.email)) else None;
    store.Audit("admin_password_reset_submit", true, actor, if adminRow.Some? then adminRow.value.email else "",
                req, Reason("success"), now);
    return ResetComplete(csrfToken, sessionToken);
  }

  /** A reset token works once: submitting it again, at the same time or later,
      is refused as invalid. */
  method SubmitResetTwice(store: Store, req: Request, body: Body, now: int, later: int,
                          kdf: Kdf, sha: Sha256, salt: seq<byte>, tokens: seq<string>)
    returns (first: Reply, second: Reply)
    requires store.Valid() && now <= later && |tokens| == 4
    modifies store
    ensures store.Valid()
    ensures first.ResetComplete? ==> second == Failure(400, InvalidResetToken)
  {
    first := SubmitReset(store, req, body, now, kdf, sha, salt, tokens[0], tokens[1]);
    second := SubmitReset(store, req, body, later, kdf, sha, salt, tokens[2], tokens[3]);
  }
}
