/**
 * The admin authentication tables (`admin_users`, `admin_sessions`,
 * `admin_password_resets`, `admin_audit_logs`) and the session helpers of the
 * request handler that read and write them. SQLite's `datetime('now')` is the
 * integer `now` of the request; random tokens are parameters.
 */
module AdminStore {
  import opened Wrappers
  import opened Text
  import opened AuditLog
  import RequestParsing

  const SessionTtl: int := 60 * 60 * 24 * 14
  const ResetTtl: int := 60 * 60

  /** The value of SQLite's `randomblob(24)`. */
  type Blob24 = b: seq<byte> | |b| == 24 witness seq(24, i => 0)

  datatype AdminUser = AdminUser(id: nat, email: string, passwordHash: string)
  datatype Session = Session(userId: nat, csrf: string, expiresAt: int)
  datatype ResetRow = ResetRow(userId: nat, expiresAt: int, usedAt: Option<int>)

  /** The row `_current_admin` returns: the user joined with the session's CSRF token. */
  datatype Admin = Admin(id: nat, email: string, csrf: string)

  /** The `admin` argument of `_audit_admin`. */
  datatype Actor = Actor(id: nat, email: string)

  /** The three authentication tables; sessions are keyed by token, reset rows by
      the token's hash (both primary keys). Users are in rowid order. */
  datatype Tables = Tables(users: seq<AdminUser>, sessions: map<string, Session>, resets: map<string, ResetRow>)

  /** What `secrets.token_urlsafe` returns: non-empty base64url text. */
  predicate UrlSafe(t: string) {
    |t| > 0 && forall i :: 0 <= i < |t| ==> IsUrlSafeChar(t[i])
  }

  predicate IsUrlSafeChar(c: char) {
    ('A' <= c <= 'Z') || ('a' <= c <= 'z') || ('0' <= c <= '9') || c == '-' || c == '_'
  }

  /** User ids are increasing in rowid order and below the next id to hand out. */
  predicate UsersOrdered(users: seq<AdminUser>, nextId: nat) {
    0 < nextId
    && (forall i, j :: 0 <= i < j < |users| ==> users[i].id < users[j].id)
    && (forall i :: 0 <= i < |users| ==> 0 < users[i].id < nextId)
  }

  // ---------------------------------------------------------------- lookups

  /** The row `SELECT ... WHERE lower(email) = ?` fetches: the first in rowid order. */
  function EmailIndex(users: seq<AdminUser>, email: string): (i: nat)
    ensures i <= |users|
    ensures i < |users| ==> Lower(users[i].email) == email
    ensures forall j :: 0 <= j < i ==> Lower(users[j].email) != email
  {
    if |users| == 0 then 0
    else if Lower(users[0].email) == email then 0
    else 1 + EmailIndex(users[1..], email)
  }

  function UserByEmail(users: seq<AdminUser>, email: string): Option<AdminUser> {
    var i := EmailIndex(users, email);
    if i < |users| then Some(users[i]) else None
  }

  function IdIndex(users: seq<AdminUser>, id: nat): (i: nat)
    ensures i <= |users|
    ensures i < |users| ==> users[i].id == id
    ensures forall j :: 0 <= j < i ==> users[j].id != id
  {
    if |users| == 0 then 0
    else if users[0].id == id then 0
    else 1 + IdIndex(users[1..], id)
  }

  function UserById(users: seq<AdminUser>, id: nat): (u: Option<AdminUser>)
    ensures u.Some? ==> u.value in users && u.value.id == id
    ensures u.None? ==> forall j :: 0 <= j < |users| ==> users[j].id != id
  {
    var i := IdIndex(users, id);
    if i < |users| then Some(users[i]) else None
  }

  /** With unique ids, looking a listed user up by its id finds that user. */
  lemma UserByIdOfRow(users: seq<AdminUser>, nextId: nat, i: nat)
    requires UsersOrdered(users, nextId) && i < |users|
    ensures UserById(users, users[i].id) == Some(users[i])
  {
    var j := IdIndex(users, users[i].id);
    assert j <= i;
  }

  /** The user found by email is the one found by its id. */
  lemma UserByEmailById(users: seq<AdminUser>, nextId: nat, email: string)
    requires UsersOrdered(users, nextId) && UserByEmail(users, email).Some?
    ensures UserById(users, UserByEmail(users, email).value.id) == UserByEmail(users, email)
  {
    UserByIdOfRow(users, nextId, EmailIndex(users, email));
  }

  /** The join of `_current_admin`: a session with this token that has not yet
      expired, and the user it belongs to. */
  function Authenticated(t: Tables, token: string, now: int): Option<Admin> {
    if token in t.sessions && t.sessions[token].expiresAt > now then
      match UserById(t.users, t.sessions[token].userId)
      case Some(u) => Some(Admin(u.id, u.email, t.sessions[token].csrf))
      case None => None
    else None
  }

  /** The user a reset token hash can still be redeemed for: an unused row that has
      not yet expired. */
  function Redeemable(t: Tables, hash: string, now: int): Option<nat> {
    if hash in t.resets && t.resets[hash].usedAt.None? && t.resets[hash].expiresAt > now
    then Some(t.resets[hash].userId) else None
  }

  // ---------------------------------------------------------------- transitions

  /** What `_current_admin` returns: the authenticated row, a blank CSRF token
      replaced by the new one. */
  function CurrentAdminResult(t: Tables, token: string, now: int, newCsrf: string): Option<Admin> {
    match Authenticated(t, token, now)
    case None => None
    case Some(a) => Some(if PyStrip(a.csrf) == "" then a.(csrf := newCsrf) else a)
  }

  /** The tables after `_current_admin`: the blank CSRF token written back. */
  function CurrentAdminState(t: Tables, token: string, now: int, newCsrf: string): Tables {
    if Authenticated(t, token, now).Some? && PyStrip(t.sessions[token].csrf) == ""
    then t.(sessions := t.sessions[token := t.sessions[token].(csrf := newCsrf)])
    else t
  }

  /** `_prune_admin_auth_artifacts`: drop expired sessions, and reset rows that are
      used or expired. */
  function Pruned(t: Tables, now: int): Tables {
    t.(sessions := map k | k in t.sessions && t.sessions[k].expiresAt > now :: t.sessions[k],
       resets := map h | h in t.resets && t.resets[h].usedAt.None? && t.resets[h].expiresAt > now :: t.resets[h])
  }

  /** The `INSERT INTO admin_sessions` of `_create_admin_session`. */
  function WithSession(t: Tables, token: string, userId: nat, csrf: string, now: int): Tables {
    t.(sessions := t.sessions[token := Session(userId, csrf, now + SessionTtl)])
  }

  function WithNewHash(users: seq<AdminUser>, id: nat, hash: string): (r: seq<AdminUser>)
    ensures |r| == |users|
    ensures forall i :: 0 <= i < |users| ==>
              r[i] == if users[i].id == id then users[i].(passwordHash := hash) else users[i]
  {
    if |users| == 0 then []
    else [if users[0].id == id then users[0].(passwordHash := hash) else users[0]] + WithNewHash(users[1..], id, hash)
  }

  /** The three writes of a redeemed reset: the user's new password hash, the row
      marked used, every session of the user deleted. */
  function Redeemed(t: Tables, hash: string, userId: nat, newHash: string, now: int): Tables {
    Tables(
      WithNewHash(t.users, userId, newHash),
      map k | k in t.sessions && t.sessions[k].userId != userId :: t.sessions[k],
      if hash in t.resets then t.resets[hash := t.resets[hash].(usedAt := Some(now))] else t.resets)
  }

  /** The redemption as one conditional write: the reset row is marked used only
      while it is unused and live (`UPDATE ... WHERE token_hash = ? AND used_at IS
      NULL AND expires_at > now`), and the password and session writes follow only
      when that changed a row. */
  function GuardedRedeem(t: Tables, hash: string, newHash: string, now: int): Option<Tables> {
    match Redeemable(t, hash, now)
    case None => None
    case Some(userId) => Some(Redeemed(t, hash, userId, newHash, now))
  }

  /** `trim(s) = ''` in SQLite, whose one-argument `trim` removes spaces only. */
  predicate SqlBlank(s: string) {
    forall i :: 0 <= i < |s| ==> s[i] == ' '
  }

  /** The legacy-session repair of `init_db`: each session whose CSRF token is blank
      to SQLite's `trim` gets `lower(hex(randomblob(24)))`, a blob of its own. */
  function CsrfRepaired(sessions: map<string, Session>, blob: string -> Blob24): map<string, Session> {
    map k | k in sessions :: if SqlBlank(sessions[k].csrf) then sessions[k].(csrf := Hex(blob(k))) else sessions[k]
  }

  // ---------------------------------------------------------------- properties

  lemma UrlSafeNotBlank(t: string)
    requires UrlSafe(t)
    ensures PyStrip(t) == t && PyStrip(t) != ""
  {
    StripUnchanged(t, Python);
  }

  /** A blank CSRF token is healed once: the next read at the same time returns the
      same non-empty token and writes nothing, whatever new token it is given. */
  lemma CsrfHealIsStable(t: Tables, token: string, now: int, newCsrf: string, nextCsrf: string)
    requires UrlSafe(newCsrf)
    requires Authenticated(t, token, now).Some?
    ensures var t1 := CurrentAdminState(t, token, now, newCsrf);
            var a := CurrentAdminResult(t, token, now, newCsrf);
            a.Some? && a.value.csrf != ""
            && Authenticated(t1, token, now) == a
            && CurrentAdminResult(t1, token, now, nextCsrf) == a
            && CurrentAdminState(t1, token, now, nextCsrf) == t1
  {
    UrlSafeNotBlank(newCsrf);
    var a := Authenticated(t, token, now).value;
    if PyStrip(a.csrf) != "" {
      assert a.csrf != "" by { if a.csrf == "" { StripUnchanged("", Python); } }
    }
  }

  /** Pruning at `now` never changes who is authenticated, or which reset rows can
      be redeemed, at `now` or later. */
  lemma PruneKeepsLiveArtifacts(t: Tables, now: int, later: int, token: string, hash: string)
    requires now <= later
    ensures Authenticated(Pruned(t, now), token, later) == Authenticated(t, token, later)
    ensures Redeemable(Pruned(t, now), hash, later) == Redeemable(t, hash, later)
  {
  }

  /** After pruning, every session is live and every reset row is unused and live. */
  lemma PruneLeavesOnlyLive(t: Tables, now: int)
    ensures var p := Pruned(t, now);
            (forall k :: k in p.sessions ==> p.sessions[k].expiresAt > now && Authenticated(p, k, now) == Authenticated(t, k, now))
            && (forall h :: h in p.resets ==> Redeemable(p, h, now) == Some(p.resets[h].userId))
  {
  }

  /** A new session authenticates its user, with the CSRF token it was created
      with, for exactly the fourteen days after its creation, and leaves every
      other session as it was. */
  lemma NewSessionLifetime(t: Tables, token: string, userId: nat, csrf: string, now: int, later: int, other: string)
    requires UserById(t.users, userId).Some?
    requires other != token
    ensures var t1 := WithSession(t, token, userId, csrf, now);
            (Authenticated(t1, token, later).Some? <==> later < now + SessionTtl)
            && (later < now + SessionTtl ==>
                  Authenticated(t1, token, later) == Some(Admin(userId, UserById(t.users, userId).value.email, csrf)))
            && Authenticated(t1, other, later) == Authenticated(t, other, later)
  {
  }

  /** A redeemed token is never redeemable again. */
  lemma RedeemedOnce(t: Tables, hash: string, userId: nat, newHash: string, now: int, later: int)
    ensures Redeemable(Redeemed(t, hash, userId, newHash, now), hash, later).None?
  {
  }

  lemma {:induction false} IdIndexOfNewHash(users: seq<AdminUser>, userId: nat, newHash: string, id: nat)
    ensures IdIndex(WithNewHash(users, userId, newHash), id) == IdIndex(users, id)
  {
    if |users| > 0 {
      var r := WithNewHash(users, userId, newHash);
      assert r[1..] == WithNewHash(users[1..], userId, newHash);
      IdIndexOfNewHash(users[1..], userId, newHash, id);
    }
  }

  /** A redeemed reset sets the user's password hash and no other, and ends every
      session of that user while every other session keeps authenticating. */
  lemma RedeemedEffect(t: Tables, hash: string, userId: nat, newHash: string, now: int, later: int, token: string)
    ensures var t1 := Redeemed(t, hash, userId, newHash, now);
            UserById(t1.users, userId)
              == (match UserById(t.users, userId) case Some(u) => Some(u.(passwordHash := newHash)) case None => None)
            && (forall id :: id != userId ==> UserById(t1.users, id) == UserById(t.users, id))
            && (Authenticated(t1, token, later).Some? ==> Authenticated(t1, token, later).value.id != userId)
            && ((Authenticated(t, token, later).Some? && Authenticated(t, token, later).value.id != userId)
                  ==> Authenticated(t1, token, later) == Authenticated(t, token, later))
  {
    var t1 := Redeemed(t, hash, userId, newHash, now);
    IdIndexOfNewHash(t.users, userId, newHash, userId);
    forall id | id != userId ensures UserById(t1.users, id) == UserById(t.users, id) {
      IdIndexOfNewHash(t.users, userId, newHash, id);
    }
    if token in t.sessions {
      IdIndexOfNewHash(t.users, userId, newHash, t.sessions[token].userId);
    }
  }

  /** Two submits of one token that both read the row before either writes (the
      handler reads, then writes unconditionally): both writes go through, and the
      sessions both open authenticate the user, so the token is redeemed twice. */
  lemma RacedSubmitsBothRedeem(t: Tables, hash: string, userId: nat, hashA: string, hashB: string, now: int,
                               tokenA: string, csrfA: string, tokenB: string, csrfB: string)
    requires Redeemable(t, hash, now) == Some(userId) && UserById(t.users, userId).Some?
    requires tokenA != tokenB
    ensures var w := Redeemed(Redeemed(t, hash, userId, hashA, now), hash, userId, hashB, now);
            var sA := WithSession(Pruned(w, now), tokenA, userId, csrfA, now);
            var sB := WithSession(Pruned(sA, now), tokenB, userId, csrfB, now);
            Authenticated(sB, tokenA, now).Some? && Authenticated(sB, tokenA, now).value.id == userId
            && Authenticated(sB, tokenB, now).Some? && Authenticated(sB, tokenB, now).value.id == userId
  {
    var w1 := Redeemed(t, hash, userId, hashA, now);
    IdIndexOfNewHash(t.users, userId, hashA, userId);
    IdIndexOfNewHash(w1.users, userId, hashB, userId);
  }

  /** The conditional write succeeds exactly when the token is redeemable, and after
      it succeeds no later write with the same token does: of two submits, whatever
      each of them read, at most one changes anything. */
  lemma GuardedRedeemOnce(t: Tables, hash: string, hashA: string, hashB: string, now: int, later: int)
    ensures GuardedRedeem(t, hash, hashA, now).Some? <==> Redeemable(t, hash, now).Some?
    ensures GuardedRedeem(t, hash, hashA, now).Some? ==>
              GuardedRedeem(GuardedRedeem(t, hash, hashA, now).value, hash, hashB, later).None?
  {
  }

  /** After the repair no session's CSRF token is blank to SQLite, a non-blank token
      is kept, owners and expiry are unchanged, and repairing again changes nothing. */
  lemma {:induction false} CsrfRepairEffect(sessions: map<string, Session>, blob: string -> Blob24, blob2: string -> Blob24)
    ensures var r := CsrfRepaired(sessions, blob);
            r.Keys == sessions.Keys
            && (forall k :: k in r ==> !SqlBlank(r[k].csrf)
                                       && r[k].userId == sessions[k].userId && r[k].expiresAt == sessions[k].expiresAt)
            && (forall k :: k in sessions && !SqlBlank(sessions[k].csrf) ==> r[k] == sessions[k])
            && CsrfRepaired(r, blob2) == r
  {
    var r := CsrfRepaired(sessions, blob);
    forall k | k in r ensures !SqlBlank(r[k].csrf) {
      if SqlBlank(sessions[k].csrf) {
        var h := Hex(blob(k));
        assert IsHexDigit(h[0]);
      }
    }
  }

  /** SQLite's `trim` removes spaces only, so a tab-only CSRF token survives the
      repair and is replaced only by the lookup, which strips as Python does. */
  lemma TabCsrfOutlivesRepair(blob: string -> Blob24)
    ensures var s := map["t" := Session(1, "\t", 0)];
            CsrfRepaired(s, blob)["t"].csrf == "\t" && PyStrip("\t") == ""
  {
    var s := map["t" := Session(1, "\t", 0)];
    assert s["t"].csrf[0] != ' ';
    assert TrimStart("\t", Python) == TrimStart("", Python);
  }

  // ---------------------------------------------------------------- the store

  /** The tables as the handlers see them through the database connection. */
  class Store {
    var users: seq<AdminUser>
    var sessions: map<string, Session>
    var resets: map<string, ResetRow>
    var audit: seq<Entry>
    var nextUserId: nat
    var nextAuditId: nat

    ghost predicate Valid()
      reads this
    {
      UsersOrdered(users, nextUserId) && Ordered(audit, nextAuditId)
    }

    function State(): Tables
      reads this
    {
      Tables(users, sessions, resets)
    }

    constructor ()
      ensures Valid()
      ensures State() == Tables([], map[], map[]) && audit == []
    {
      users, sessions, resets, audit := [], map[], map[], [];
      nextUserId, nextAuditId := 1, 1;
    }

    /** `_current_admin` for the session token of the request's cookie. */
    method CurrentAdmin(token: Option<string>, now: int, freshCsrf: string) returns (admin: Option<Admin>)
      requires Valid()
      modifies this
      ensures Valid()
      ensures token.None? ==> admin.None? && State() == old(State())
      ensures token.Some? ==>
        admin == CurrentAdminResult(old(State()), token.value, now, freshCsrf)
        && State() == CurrentAdminState(old(State()), token.value, now, freshCsrf)
      ensures audit == old(audit) && nextUserId == old(nextUserId) && nextAuditId == old(nextAuditId)
    {
      if token.None? {
        return None;
      }
      var tok := token.value;
      if !(tok in sessions && sessions[tok].expiresAt > now) {
        return None;
      }
      var session := sessions[tok];
      var user := UserById(users, session.userId);
      if user.None? {
        return None;
      }
      var row := Admin(user.value.id, user.value.email, session.csrf);
      if PyStrip(session.csrf) == "" {
        sessions := sessions[tok := session.(csrf := freshCsrf)];
        row := row.(csrf := freshCsrf);
      }
      return Some(row);
    }

    /** `_prune_admin_auth_artifacts`. */
    method PruneArtifacts(now: int)
      requires Valid()
      modifies this
      ensures Valid()
      ensures State() == Pruned(old(State()), now)
      ensures audit == old(audit) && nextUserId == old(nextUserId) && nextAuditId == old(nextAuditId)
    {
      sessions := map k | k in sessions && sessions[k].expiresAt > now :: sessions[k];
      resets := map h | h in resets && resets[h].usedAt.None? && resets[h].expiresAt > now :: resets[h];
    }

    /** `_create_admin_session`: prune, then insert a session valid for fourteen
        days. A token already present violates the primary key: nothing is
        inserted and the request fails. */
    method CreateSession(userId: nat, now: int, token: string, csrf: string) returns (created: bool)
      requires Valid()
      modifies this
      ensures Valid()
      ensures created == (token !in Pruned(old(State()), now).sessions)
      ensures State() == if created then WithSession(Pruned(old(State()), now), token, userId, csrf, now)
                         else Pruned(old(State()), now)
      ensures audit == old(audit) && nextUserId == old(nextUserId) && nextAuditId == old(nextAuditId)
    {
      PruneArtifacts(now);
      if token in sessions {
        return false;
      }
      sessions := sessions[token := Session(userId, csrf, now + SessionTtl)];
      return true;
    }

    /** `_clear_admin_session`. */
    method ClearSession(token: Option<string>)
      requires Valid()
      modifies this
      ensures Valid()
      ensures sessions == if token.Some? then old(sessions) - {token.value} else old(sessions)
      ensures users == old(users) && resets == old(resets)
      ensures audit == old(audit) && nextUserId == old(nextUserId) && nextAuditId == old(nextAuditId)
    {
      if token.Some? {
        sessions := sessions - {token.value};
      }
    }

    /** The `INSERT INTO admin_password_resets` of a reset request: the row expires
        after sixty minutes; a hash already present violates the primary key. */
    method InsertReset(hash: string, userId: nat, now: int) returns (created: bool)
      requires Valid()
      modifies this
      ensures Valid()
      ensures created == (hash !in old(resets))
      ensures resets == if created then old(resets)[hash := ResetRow(userId, now + ResetTtl, None)] else old(resets)
      ensures users == old(users) && sessions == old(sessions)
      ensures audit == old(audit) && nextUserId == old(nextUserId) && nextAuditId == old(nextAuditId)
    {
      if hash in resets {
        return false;
      }
      resets := resets[hash := ResetRow(userId, now + ResetTtl, None)];
      return true;
    }

    /** The three writes of a redeemed reset, committed together, behind the
        conditional write of `GuardedRedeem`: the user whose row was claimed, or
        None and no change when the token is not redeemable. */
    method Redeem(hash: string, newHash: string, now: int) returns (userId: Option<nat>)
      requires Valid()
      modifies this
      ensures Valid()
      ensures userId == Redeemable(old(State()), hash, now)
      ensures State() == GuardedRedeem(old(State()), hash, newHash, now).GetOr(old(State()))
      ensures audit == old(audit) && nextUserId == old(nextUserId) && nextAuditId == old(nextAuditId)
    {
      if !(hash in resets && resets[hash].usedAt.None? && resets[hash].expiresAt > now) {
        return None;
      }
      var owner := resets[hash].userId;
      resets := resets[hash := resets[hash].(usedAt := Some(now))];
      users := WithNewHash(users, owner, newHash);
      sessions := map k | k in sessions && sessions[k].userId != owner :: sessions[k];
      return Some(owner);
    }

    /** The legacy-session repair `init_db` runs on every start of a script. */
    method RepairCsrf(blob: string -> Blob24)
      requires Valid()
      modifies this
      ensures Valid()
      ensures sessions == CsrfRepaired(old(sessions), blob)
      ensures users == old(users) && resets == old(resets)
      ensures audit == old(audit) && nextUserId == old(nextUserId) && nextAuditId == old(nextAuditId)
    {
      sessions := map k | k in sessions :: if SqlBlank(sessions[k].csrf) then sessions[k].(csrf := Hex(blob(k))) else sessions[k];
    }

    /** `_audit_admin`: prune rows past the retention, then insert one row. The admin
        id is recorded when an admin with a nonzero id is given, and the actor email
        defaults to that admin's email. */
    method Audit(action: string, success: bool, admin: Option<Actor>, actorEmail: string,
                 req: RequestParsing.Request, details: Details, now: int)
      requires Valid()
      modifies this
      ensures Valid()
      ensures audit == Audited(old(audit), old(nextAuditId), action, success, admin, actorEmail, req, details, now)
      ensures nextAuditId == old(nextAuditId) + 1
      ensures State() == old(State()) && nextUserId == old(nextUserId)
    {
      RetainedOrdered(audit, now, nextAuditId);
      var row := AuditRow(nextAuditId, action, success, admin, actorEmail, req, details, now);
      AppendOrdered(Retained(audit, now), nextAuditId, row);
      audit := Retained(audit, now) + [row];
      nextAuditId := nextAuditId + 1;
    }

    /** The `INSERT INTO admin_users` of the provisioning script. */
    method InsertUser(email: string, passwordHash: string) returns (id: nat)
      requires Valid()
      modifies this
      ensures Valid()
      ensures id == old(nextUserId) && nextUserId == old(nextUserId) + 1
      ensures users == old(users) + [AdminUser(id, email, passwordHash)]
      ensures sessions == old(sessions) && resets == old(resets)
      ensures audit == old(audit) && nextAuditId == old(nextAuditId)
    {
      id := nextUserId;
      users := users + [AdminUser(id, email, passwordHash)];
      nextUserId := nextUserId + 1;
    }

    /** `UPDATE admin_users SET password_hash` and `DELETE FROM admin_sessions WHERE
        user_id`, as the provisioning script does for an existing account. */
    method ReplacePassword(userId: nat, passwordHash: string)
      requires Valid()
      modifies this
      ensures Valid()
      ensures users == WithNewHash(old(users), userId, passwordHash)
      ensures sessions == map k | k in old(sessions) && old(sessions)[k].userId != userId :: old(sessions)[k]
      ensures resets == old(resets)
      ensures audit == old(audit) && nextUserId == old(nextUserId) && nextAuditId == old(nextAuditId)
    {
      users := WithNewHash(users, userId, passwordHash);
      sessions := map k | k in sessions && sessions[k].userId != userId :: sessions[k];
    }
  }

  /** The audit row `_audit_admin` inserts. */
  function AuditRow(id: nat, action: string, success: bool, admin: Option<Actor>, actorEmail: string,
                    req: RequestParsing.Request, details: Details, now: int): Entry
  {
    var adminId := if admin.Some? && admin.value.id != 0 then Some(admin.value.id) else None;
    var email := if adminId.Some? && actorEmail == "" then admin.value.email else actorEmail;
    Entry(id, adminId, action, success, email, RequestParsing.ClientIp(req), req.userAgent, details, now)
  }

  /** The log after `_audit_admin`: the retained rows, then the new one. */
  function Audited(log: seq<Entry>, id: nat, action: string, success: bool, admin: Option<Actor>, actorEmail: string,
                   req: RequestParsing.Request, details: Details, now: int): seq<Entry>
  {
    Retained(log, now) + [AuditRow(id, action, success, admin, actorEmail, req, details, now)]
  }
}
