/**
 * The `admin_audit_logs` table: one row per admin-facing event, pruned by age on
 * every write, listed newest first with optional filters.
 */
module AuditLog {
  import opened Wrappers

  const DaySeconds: int := 24 * 60 * 60
  /** `max(1, int(OSCAR_AUDIT_RETENTION_DAYS or '90'))`, at its default. */
  const RetentionDays: int := 90

  /** The JSON `details` object of the handlers modelled here. */
  datatype Details =
    | Reason(reason: string)
    | ApiDenied(path: string, reason: string)
    | ResetRequested(accountFound: bool, emailSent: bool)

  datatype Entry = Entry(
    id: nat,
    adminUserId: Option<nat>,
    action: string,
    success: bool,
    actorEmail: string,
    requestIp: string,
    userAgent: string,
    details: Details,
    createdAt: int)

  /** Row ids grow with insertion order and stay below the next id to hand out. */
  predicate Ordered(log: seq<Entry>, nextId: nat) {
    (forall i, j :: 0 <= i < j < |log| ==> log[i].id < log[j].id)
    && (forall i :: 0 <= i < |log| ==> log[i].id < nextId)
  }

  /** `_prune_admin_audit_logs`: delete rows created before now minus the retention. */
  function Retained(log: seq<Entry>, now: int): (r: seq<Entry>)
    ensures |r| <= |log|
  {
    if |log| == 0 then []
    else (if log[0].createdAt < now - RetentionDays * DaySeconds then [] else [log[0]]) + Retained(log[1..], now)
  }

  /** A row survives the prune exactly when it is young enough. */
  lemma {:induction false} RetainedMembers(log: seq<Entry>, now: int, e: Entry)
    ensures e in Retained(log, now) <==> e in log && e.createdAt >= now - RetentionDays * DaySeconds
  {
    if |log| > 0 {
      RetainedMembers(log[1..], now, e);
      assert log == [log[0]] + log[1..];
    }
  }

  /** Pruning keeps the id order, so the log stays ordered. */
  lemma {:induction false} RetainedOrdered(log: seq<Entry>, now: int, nextId: nat)
    requires Ordered(log, nextId)
    ensures Ordered(Retained(log, now), nextId)
  {
    if |log| > 0 {
      RetainedOrdered(log[1..], now, nextId);
      var rest := Retained(log[1..], now);
      forall e | e in rest ensures log[0].id < e.id {
        RetainedMembers(log[1..], now, e);
        var j :| 0 <= j < |log[1..]| && log[1..][j] == e;
        assert log[j + 1] == e;
      }
    }
  }

  /** Appending a row with the next id keeps the log ordered. */
  lemma AppendOrdered(log: seq<Entry>, nextId: nat, e: Entry)
    requires Ordered(log, nextId) && e.id == nextId
    ensures Ordered(log + [e], nextId + 1)
  {
  }

  /** The `WHERE` clause of the listing: an action filter and a success filter. */
  predicate Matches(e: Entry, action: Option<string>, success: Option<bool>) {
    (action.None? || e.action == action.value) && (success.None? || e.success == success.value)
  }

  /** The rows that match, newest first (`ORDER BY id DESC`). */
  function NewestMatching(log: seq<Entry>, action: Option<string>, success: Option<bool>): (r: seq<Entry>)
    ensures |r| <= |log|
  {
    if |log| == 0 then []
    else
      var last := log[|log| - 1];
      (if Matches(last, action, success) then [last] else []) + NewestMatching(log[..|log| - 1], action, success)
  }

  /** The listing of `_get_admin_audit_logs`: at most `limit` matching rows, newest first. */
  function Query(log: seq<Entry>, action: Option<string>, success: Option<bool>, limit: nat): (r: seq<Entry>)
    ensures |r| <= limit
  {
    var all := NewestMatching(log, action, success);
    if |all| <= limit then all else all[..limit]
  }

  /** Every listed row is in the log and matches the filters; every matching row
      is listed unless the limit cut the listing. */
  lemma {:induction false} NewestMatchingMembers(log: seq<Entry>, action: Option<string>, success: Option<bool>, e: Entry)
    ensures e in NewestMatching(log, action, success) <==> e in log && Matches(e, action, success)
  {
    if |log| > 0 {
      NewestMatchingMembers(log[..|log| - 1], action, success, e);
      assert log == log[..|log| - 1] + [log[|log| - 1]];
    }
  }

  /** Strictly decreasing ids. */
  predicate Descending(r: seq<Entry>) {
    forall i, j :: 0 <= i < j < |r| ==> r[i].id > r[j].id
  }

  /** In an ordered log the listing runs strictly from newer to older rows. */
  lemma {:induction false} NewestMatchingDescending(log: seq<Entry>, nextId: nat, action: Option<string>, success: Option<bool>)
    requires Ordered(log, nextId)
    ensures Descending(NewestMatching(log, action, success))
  {
    if |log| > 0 {
      var init := log[..|log| - 1];
      var last := log[|log| - 1];
      assert Ordered(init, nextId);
      NewestMatchingDescending(init, nextId, action, success);
      var rest := NewestMatching(init, action, success);
      forall e | e in rest ensures e.id < last.id {
        NewestMatchingMembers(init, action, success, e);
        var k :| 0 <= k < |init| && init[k] == e;
        assert log[k] == e;
      }
      var r := NewestMatching(log, action, success);
      if Matches(last, action, success) {
        assert r == [last] + rest;
        forall i, j | 0 <= i < j < |r| ensures r[i].id > r[j].id {
          assert r[j] == rest[j - 1] && rest[j - 1] in rest;
          if i > 0 { assert r[i] == rest[i - 1]; }
        }
      } else {
        assert r == rest;
      }
    }
  }

  /** The listing is exactly the newest `limit` matching rows. */
  lemma QueryListing(log: seq<Entry>, nextId: nat, action: Option<string>, success: Option<bool>, limit: nat)
    requires Ordered(log, nextId)
    ensures var r := Query(log, action, success, limit);
            var all := NewestMatching(log, action, success);
            r == all[..if |all| <= limit then |all| else limit]
            && (forall e :: e in r ==> e in log && Matches(e, action, success))
            && Descending(r)
  {
    var all := NewestMatching(log, action, success);
    NewestMatchingDescending(log, nextId, action, success);
    forall e | e in Query(log, action, success, limit) ensures e in log && Matches(e, action, success) {
      NewestMatchingMembers(log, action, success, e);
    }
    assert all[..|all|] == all;
  }
}
