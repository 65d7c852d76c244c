/**
 * The process-wide login and reset-request limiter of the admin server: three
 * dictionaries shared by every request handler, one mapping a key
 * (`email:<addr>`, `ip:<addr>`) to the times of recent failed logins, one mapping a
 * key to the time its lockout ends, and one mapping `reset-email:` / `reset-ip:` keys
 * to the times of recent reset requests. Times are whole seconds.
 */
module RateLimit {
  import opened Text

  const LoginWindow: int := 15 * 60
  const LoginMaxAttempts: nat := 10
  const LockoutSeconds: int := 15 * 60
  const ResetWindow: int := 15 * 60
  const ResetMaxAttempts: nat := 5

  type Buckets = map<string, seq<int>>

  /** `buckets.get(key, [])`. */
  function Get(buckets: Buckets, key: string): seq<int> {
    if key in buckets then buckets[key] else []
  }

  /** `lockouts.get(key, 0)`. */
  function Until(lockouts: map<string, int>, key: string): int {
    if key in lockouts then lockouts[key] else 0
  }

  // ---------------------------------------------------------------- keys

  function EmailKey(email: string): string { "email:" + Lower(email) }
  function IpKey(ip: string): string { "ip:" + ip }
  function LoginKeys(email: string, ip: string): seq<string> { [EmailKey(email), IpKey(ip)] }

  function ResetEmailKey(email: string): string { "reset-email:" + Lower(email) }
  function ResetIpKey(ip: string): string { "reset-ip:" + ip }
  function ResetKeys(email: string, ip: string): seq<string> { [ResetEmailKey(email), ResetIpKey(ip)] }

  /** The identity key and the origin key of one request never coincide. */
  lemma LoginKeysDistinct(email: string, ip: string)
    ensures EmailKey(email) != IpKey(ip)
    ensures Distinct(LoginKeys(email, ip))
  {
    assert EmailKey(email)[0] == 'e' && IpKey(ip)[0] == 'i';
  }

  lemma ResetKeysDistinct(email: string, ip: string)
    ensures ResetEmailKey(email) != ResetIpKey(ip)
    ensures Distinct(ResetKeys(email, ip))
  {
    assert ResetEmailKey(email)[6] == 'e' && ResetIpKey(ip)[6] == 'i';
  }

  lemma DistinctTail(keys: seq<string>)
    requires |keys| > 0 && Distinct(keys)
    ensures Distinct(keys[1..]) && keys[0] !in keys[1..]
  {
    forall i, j | 0 <= i < j < |keys[1..]| ensures keys[1..][i] != keys[1..][j] {
      assert keys[1..][i] == keys[i + 1] && keys[1..][j] == keys[j + 1];
    }
    forall i | 0 <= i < |keys[1..]| ensures keys[1..][i] != keys[0] {
      assert keys[1..][i] == keys[i + 1];
    }
  }

  // ---------------------------------------------------------------- sliding window

  /** `[ts for ts in bucket if now - ts <= window]`. */
  function Recent(bucket: seq<int>, now: int, window: int): (r: seq<int>)
    ensures |r| <= |bucket|
  {
    if |bucket| == 0 then []
    else (if now - bucket[0] <= window then [bucket[0]] else []) + Recent(bucket[1..], now, window)
  }

  /** The window keeps exactly the timestamps that are at most `window` old. */
  lemma {:induction false} RecentMembers(bucket: seq<int>, now: int, window: int, ts: int)
    ensures ts in Recent(bucket, now, window) <==> ts in bucket && now - ts <= window
  {
    if |bucket| > 0 {
      RecentMembers(bucket[1..], now, window, ts);
      assert bucket == [bucket[0]] + bucket[1..];
    }
  }

  /** The filter works element by element, so it keeps the original order. */
  lemma {:induction false} RecentConcat(a: seq<int>, b: seq<int>, now: int, window: int)
    ensures Recent(a + b, now, window) == Recent(a, now, window) + Recent(b, now, window)
  {
    if |a| == 0 {
      assert a + b == b;
    } else {
      RecentConcat(a[1..], b, now, window);
      var ab := a + b;
      assert ab[0] == a[0] && ab[1..] == a[1..] + b;
      var head := if now - a[0] <= window then [a[0]] else [];
      assert Recent(ab, now, window) == head + Recent(ab[1..], now, window);
      assert Recent(a, now, window) == head + Recent(a[1..], now, window);
    }
  }

  /** A bucket whose every timestamp is in the window is kept whole. */
  lemma {:induction false} RecentAllKept(bucket: seq<int>, now: int, window: int)
    requires forall i :: 0 <= i < |bucket| ==> now - bucket[i] <= window
    ensures Recent(bucket, now, window) == bucket
  {
    if |bucket| > 0 {
      RecentAllKept(bucket[1..], now, window);
      assert bucket == [bucket[0]] + bucket[1..];
    }
  }

  /** What `_rate_limit_prune` leaves in a dictionary. */
  function PrunedBuckets(buckets: Buckets, now: int, window: int): Buckets {
    map k | k in buckets && Recent(buckets[k], now, window) != [] :: Recent(buckets[k], now, window)
  }

  /** `_rate_limit_prune`: every bucket is cut down to its recent timestamps and a
      key whose bucket becomes empty is deleted; no key is added. */
  method PruneBuckets(buckets: Buckets, now: int, window: int) returns (pruned: Buckets)
    ensures pruned.Keys <= buckets.Keys
    ensures forall k :: k in pruned ==> pruned[k] == Recent(buckets[k], now, window) && pruned[k] != []
    ensures forall k :: k in buckets && Recent(buckets[k], now, window) != [] ==> k in pruned
    ensures pruned == PrunedBuckets(buckets, now, window)
  {
    pruned := buckets;
    var todo := buckets.Keys;
    while todo != {}
      invariant todo <= buckets.Keys
      invariant pruned.Keys <= buckets.Keys
      invariant forall k :: k in todo ==> k in pruned && pruned[k] == buckets[k]
      invariant forall k :: k in buckets && k !in todo ==>
                  (k in pruned <==> Recent(buckets[k], now, window) != [])
                  && (k in pruned ==> pruned[k] == Recent(buckets[k], now, window))
      decreases todo
    {
      var key :| key in todo;
      var kept := Recent(pruned[key], now, window);
      if kept == [] {
        pruned := pruned - {key};
      } else {
        pruned := pruned[key := kept];
      }
      todo := todo - {key};
    }
  }

  // ---------------------------------------------------------------- lockout check

  datatype LockCheck = LockCheck(locked: bool, lockouts: map<string, int>)

  /** The loop of `_is_login_locked` over its keys: stop at the first key whose
      lockout is still running; on the way, drop every nonzero lockout that has ended. */
  function CheckLocks(lockouts: map<string, int>, keys: seq<string>, now: int): LockCheck {
    if |keys| == 0 then LockCheck(false, lockouts)
    else
      var until := Until(lockouts, keys[0]);
      if until > now then LockCheck(true, lockouts)
      else CheckLocks(if until != 0 then lockouts - {keys[0]} else lockouts, keys[1..], now)
  }

  /** Locked exactly when one of the keys has a lockout ending strictly after now. */
  lemma {:induction false} CheckLocksLocked(lockouts: map<string, int>, keys: seq<string>, now: int)
    requires Distinct(keys)
    ensures CheckLocks(lockouts, keys, now).locked
            <==> exists i :: 0 <= i < |keys| && Until(lockouts, keys[i]) > now
  {
    if |keys| > 0 {
      var until := Until(lockouts, keys[0]);
      if until <= now {
        var next := if until != 0 then lockouts - {keys[0]} else lockouts;
        DistinctTail(keys);
        CheckLocksLocked(next, keys[1..], now);
        forall i | 0 <= i < |keys[1..]| ensures Until(next, keys[1..][i]) > now <==> Until(lockouts, keys[i + 1]) > now {
          assert keys[1..][i] == keys[i + 1] && keys[i + 1] != keys[0];
        }
        if exists i :: 0 <= i < |keys| && Until(lockouts, keys[i]) > now {
          var i :| 0 <= i < |keys| && Until(lockouts, keys[i]) > now;
          assert i > 0 && Until(next, keys[1..][i - 1]) > now;
        }
      }
    }
  }

  /** The check only deletes lockouts, only for the keys it inspects, and only those
      that are nonzero and have ended; when it reports no lock, it has deleted every
      such lockout of every key. */
  lemma {:induction false} CheckLocksClearsExpired(lockouts: map<string, int>, keys: seq<string>, now: int)
    ensures var after := CheckLocks(lockouts, keys, now).lockouts;
            after.Keys <= lockouts.Keys
            && (forall k :: k in after ==> after[k] == lockouts[k])
            && (forall k :: k in lockouts && k !in after ==> k in keys && lockouts[k] != 0 && lockouts[k] <= now)
            && (!CheckLocks(lockouts, keys, now).locked ==>
                  forall k :: k in keys && k in lockouts && lockouts[k] != 0 ==> k !in after)
  {
    if |keys| > 0 {
      var until := Until(lockouts, keys[0]);
      if until <= now {
        var next := if until != 0 then lockouts - {keys[0]} else lockouts;
        CheckLocksClearsExpired(next, keys[1..], now);
        var after := CheckLocks(lockouts, keys, now).lockouts;
        assert after == CheckLocks(next, keys[1..], now).lockouts;
        forall k | k in lockouts && k !in after
          ensures k in keys && lockouts[k] != 0 && lockouts[k] <= now
        {
          if k != keys[0] { assert k in next; assert k in keys[1..]; }
        }
        if !CheckLocks(lockouts, keys, now).locked {
          forall k | k in keys && k in lockouts && lockouts[k] != 0 ensures k !in after {
            if k != keys[0] {
              var i :| 0 <= i < |keys| && keys[i] == k;
              assert keys[1..][i - 1] == k;
            }
          }
        }
      }
    }
  }

  // ---------------------------------------------------------------- login failures

  datatype LoginState = LoginState(attempts: Buckets, lockouts: map<string, int>)

  /** The failure branch of `_record_login_attempt` over its keys: append now to the
      key's bucket and, once the bucket holds the maximum, lock the key. */
  function AddFailures(s: LoginState, keys: seq<string>, now: int): LoginState
    decreases |keys|
  {
    if |keys| == 0 then s
    else
      var bucket := Get(s.attempts, keys[0]) + [now];
      var lockouts := if |bucket| >= LoginMaxAttempts then s.lockouts[keys[0] := now + LockoutSeconds] else s.lockouts;
      AddFailures(LoginState(s.attempts[keys[0] := bucket], lockouts), keys[1..], now)
  }

  /** One failed login at `now`: prune, then add the failure for both keys. */
  function RecordFailure(s: LoginState, email: string, ip: string, now: int): LoginState {
    AddFailures(LoginState(PrunedBuckets(s.attempts, now, LoginWindow), s.lockouts), LoginKeys(email, ip), now)
  }

  /** A failure appends now to the bucket of both keys, locks exactly the keys whose
      bucket reaches the maximum until now plus the lockout time, and touches no other key. */
  lemma FailureUpdatesBothKeys(s: LoginState, k1: string, k2: string, now: int)
    requires k1 != k2
    ensures var r := AddFailures(s, [k1, k2], now);
            r.attempts.Keys == s.attempts.Keys + {k1, k2}
            && r.attempts[k1] == Get(s.attempts, k1) + [now]
            && r.attempts[k2] == Get(s.attempts, k2) + [now]
            && (forall k :: k in s.attempts && k != k1 && k != k2 ==> r.attempts[k] == s.attempts[k])
            && (forall k :: k == k1 || k == k2 ==>
                  Until(r.lockouts, k) == if |Get(s.attempts, k)| + 1 >= LoginMaxAttempts then now + LockoutSeconds else Until(s.lockouts, k))
            && (forall k :: k != k1 && k != k2 ==> (k in r.lockouts <==> k in s.lockouts) && Until(r.lockouts, k) == Until(s.lockouts, k))
  {
    var a1 := Get(s.attempts, k1) + [now];
    var s1 := LoginState(s.attempts[k1 := a1],
                         if |a1| >= LoginMaxAttempts then s.lockouts[k1 := now + LockoutSeconds] else s.lockouts);
    assert [k1, k2][1..] == [k2];
    assert AddFailures(s, [k1, k2], now) == AddFailures(s1, [k2], now);
    assert Get(s1.attempts, k2) == Get(s.attempts, k2);
    var a2 := Get(s.attempts, k2) + [now];
    var s2 := LoginState(s1.attempts[k2 := a2],
                         if |a2| >= LoginMaxAttempts then s1.lockouts[k2 := now + LockoutSeconds] else s1.lockouts);
    assert [k2][1..] == [];
    assert AddFailures(s1, [k2], now) == s2;
  }

  /** Failed logins at `times`, one after another. */
  function FailRun(s: LoginState, email: string, ip: string, times: seq<int>): LoginState
    decreases |times|
  {
    if |times| == 0 then s
    else RecordFailure(FailRun(s, email, ip, times[..|times| - 1]), email, ip, times[|times| - 1])
  }

  predicate EndsWith(s: seq<int>, suffix: seq<int>) {
    |suffix| <= |s| && s[|s| - |suffix|..] == suffix
  }

  /** One failure, seen from the identity key: its bucket is cut to the window and
      gets now appended, and it is locked when that bucket reaches the maximum. */
  lemma RecordFailureOnEmailKey(s: LoginState, email: string, ip: string, now: int)
    ensures var r := RecordFailure(s, email, ip, now);
            var bucket := Recent(Get(s.attempts, EmailKey(email)), now, LoginWindow) + [now];
            Get(r.attempts, EmailKey(email)) == bucket
            && (|bucket| >= LoginMaxAttempts ==> Until(r.lockouts, EmailKey(email)) == now + LockoutSeconds)
  {
    var pruned := PrunedBuckets(s.attempts, now, LoginWindow);
    assert Get(pruned, EmailKey(email)) == Recent(Get(s.attempts, EmailKey(email)), now, LoginWindow);
    LoginKeysDistinct(email, ip);
    FailureUpdatesBothKeys(LoginState(pruned, s.lockouts), EmailKey(email), IpKey(ip), now);
  }

  /** A bucket ending with timestamps that are all within the window still ends with
      them after the window is applied. */
  lemma RecentKeepsSuffix(b: seq<int>, suffix: seq<int>, now: int, window: int)
    requires EndsWith(b, suffix)
    requires forall i :: 0 <= i < |suffix| ==> now - suffix[i] <= window
    ensures EndsWith(Recent(b, now, window), suffix)
  {
    var head := b[..|b| - |suffix|];
    assert b == head + suffix;
    RecentConcat(head, suffix, now, window);
    RecentAllKept(suffix, now, window);
  }

  /** Failures no further apart than the window all stay in the identity key's bucket. */
  lemma {:induction false} FailRunKeepsFailures(s: LoginState, email: string, ip: string, times: seq<int>)
    requires forall i, j :: 0 <= i < j < |times| ==> times[j] - times[i] <= LoginWindow
    ensures EndsWith(Get(FailRun(s, email, ip, times).attempts, EmailKey(email)), times)
    decreases |times|
  {
    if |times| > 0 {
      var earlier := times[..|times| - 1];
      var now := times[|times| - 1];
      FailRunKeepsFailures(s, email, ip, earlier);
      var before := FailRun(s, email, ip, earlier);
      RecentKeepsSuffix(Get(before.attempts, EmailKey(email)), earlier, now, LoginWindow);
      RecordFailureOnEmailKey(before, email, ip, now);
      assert earlier + [now] == times;
    }
  }

  /** Ten failed logins for one identity within the window lock it: every login check
      until the lockout of the last failure has run out reports a lock, whatever the
      state the run started from. */
  lemma TenFailuresLockOut(s: LoginState, email: string, ip: string, times: seq<int>, now: int)
    requires |times| >= LoginMaxAttempts
    requires forall i, j :: 0 <= i < j < |times| ==> times[j] - times[i] <= LoginWindow
    requires now < times[|times| - 1] + LockoutSeconds
    ensures CheckLocks(FailRun(s, email, ip, times).lockouts, LoginKeys(email, ip), now).locked
  {
    var earlier := times[..|times| - 1];
    var last := times[|times| - 1];
    FailRunKeepsFailures(s, email, ip, earlier);
    var before := FailRun(s, email, ip, earlier);
    RecentKeepsSuffix(Get(before.attempts, EmailKey(email)), earlier, last, LoginWindow);
    RecordFailureOnEmailKey(before, email, ip, last);
    var final := FailRun(s, email, ip, times);
    assert Until(final.lockouts, EmailKey(email)) == last + LockoutSeconds;
    LoginKeysDistinct(email, ip);
    CheckLocksLocked(final.lockouts, LoginKeys(email, ip), now);
    assert LoginKeys(email, ip)[0] == EmailKey(email);
  }

  // ---------------------------------------------------------------- reset requests

  datatype ResetCheck = ResetCheck(limited: bool, buckets: Buckets)

  /** The loop of `_is_reset_rate_limited`: a key already at the maximum makes the
      call limited and is left alone; any other key gets now appended. The loop
      does not stop at a limited key. */
  function CheckReset(buckets: Buckets, keys: seq<string>, now: int): ResetCheck
    decreases |keys|
  {
    if |keys| == 0 then ResetCheck(false, buckets)
    else
      var bucket := Get(buckets, keys[0]);
      var full := |bucket| >= ResetMaxAttempts;
      var rest := CheckReset(if full then buckets else buckets[keys[0] := bucket + [now]], keys[1..], now);
      ResetCheck(full || rest.limited, rest.buckets)
  }

  /** With distinct keys: limited exactly when some key already held the maximum;
      each key below the maximum gets now appended, a full key and every other key
      keep their bucket. */
  lemma CheckResetEffect(buckets: Buckets, keys: seq<string>, now: int)
    requires Distinct(keys)
    ensures var r := CheckReset(buckets, keys, now);
            (r.limited <==> exists i :: 0 <= i < |keys| && |Get(buckets, keys[i])| >= ResetMaxAttempts)
            && (forall k :: k !in keys ==> (k in r.buckets <==> k in buckets) && Get(r.buckets, k) == Get(buckets, k))
            && (forall i :: 0 <= i < |keys| ==>
                  (keys[i] in r.buckets
                   && r.buckets[keys[i]] == if |Get(buckets, keys[i])| >= ResetMaxAttempts
                                           then Get(buckets, keys[i]) else Get(buckets, keys[i]) + [now]))
  {
    CheckResetLimited(buckets, keys, now);
    CheckResetOthers(buckets, keys, now);
    CheckResetKeys(buckets, keys, now);
  }

  /** The step of the reset loop past the first key leaves the later keys' buckets alone. */
  lemma CheckResetNext(buckets: Buckets, keys: seq<string>, now: int)
    requires |keys| > 0 && Distinct(keys)
    ensures var bucket := Get(buckets, keys[0]);
            var next := if |bucket| >= ResetMaxAttempts then buckets else buckets[keys[0] := bucket + [now]];
            Distinct(keys[1..]) && keys[0] !in keys[1..]
            && forall i :: 0 <= i < |keys[1..]| ==> Get(next, keys[1..][i]) == Get(buckets, keys[1..][i])
  {
    DistinctTail(keys);
  }

  lemma {:induction false} CheckResetLimited(buckets: Buckets, keys: seq<string>, now: int)
    requires Distinct(keys)
    decreases |keys|
    ensures CheckReset(buckets, keys, now).limited
            <==> exists i :: 0 <= i < |keys| && |Get(buckets, keys[i])| >= ResetMaxAttempts
  {
    if |keys| > 0 {
      var bucket := Get(buckets, keys[0]);
      var full := |bucket| >= ResetMaxAttempts;
      var next := if full then buckets else buckets[keys[0] := bucket + [now]];
      CheckResetNext(buckets, keys, now);
      CheckResetLimited(next, keys[1..], now);
      if CheckReset(buckets, keys, now).limited && !full {
        var j :| 0 <= j < |keys[1..]| && |Get(next, keys[1..][j])| >= ResetMaxAttempts;
        assert keys[j + 1] == keys[1..][j];
      }
      if exists i :: 0 <= i < |keys| && |Get(buckets, keys[i])| >= ResetMaxAttempts {
        var i :| 0 <= i < |keys| && |Get(buckets, keys[i])| >= ResetMaxAttempts;
        if i > 0 { assert keys[1..][i - 1] == keys[i]; }
      }
    }
  }

  lemma {:induction false} CheckResetOthers(buckets: Buckets, keys: seq<string>, now: int)
    decreases |keys|
    ensures var r := CheckReset(buckets, keys, now);
            forall k :: k !in keys ==> (k in r.buckets <==> k in buckets) && Get(r.buckets, k) == Get(buckets, k)
  {
    if |keys| > 0 {
      var bucket := Get(buckets, keys[0]);
      var next := if |bucket| >= ResetMaxAttempts then buckets else buckets[keys[0] := bucket + [now]];
      CheckResetOthers(next, keys[1..], now);
      assert forall k :: k in keys[1..] ==> k in keys;
    }
  }

  lemma {:induction false} CheckResetKeys(buckets: Buckets, keys: seq<string>, now: int)
    requires Distinct(keys)
    decreases |keys|
    ensures var r := CheckReset(buckets, keys, now);
            forall i :: 0 <= i < |keys| ==>
              (keys[i] in r.buckets
               && r.buckets[keys[i]] == if |Get(buckets, keys[i])| >= ResetMaxAttempts
                                       then Get(buckets, keys[i]) else Get(buckets, keys[i]) + [now])
  {
    if |keys| > 0 {
      var k0 := keys[0];
      var bucket := Get(buckets, k0);
      var next := if |bucket| >= ResetMaxAttempts then buckets else buckets[k0 := bucket + [now]];
      CheckResetNext(buckets, keys, now);
      CheckResetKeys(next, keys[1..], now);
      CheckResetOthers(next, keys[1..], now);
      var r := CheckReset(buckets, keys, now);
      assert r.buckets == CheckReset(next, keys[1..], now).buckets;
      assert Get(r.buckets, k0) == Get(next, k0);
      forall i | 0 < i < |keys| ensures keys[i] == keys[1..][i - 1] { }
    }
  }

  /** For the two keys of one request: limited exactly when either bucket is full. */
  lemma ResetLimitedKeys(buckets: Buckets, email: string, ip: string, now: int)
    ensures CheckReset(buckets, ResetKeys(email, ip), now).limited
            <==> |Get(buckets, ResetEmailKey(email))| >= ResetMaxAttempts || |Get(buckets, ResetIpKey(ip))| >= ResetMaxAttempts
  {
    var keys := ResetKeys(email, ip);
    ResetKeysDistinct(email, ip);
    CheckResetLimited(buckets, keys, now);
    assert keys[0] == ResetEmailKey(email) && keys[1] == ResetIpKey(ip);
  }

  /** No reset bucket ever grows past the maximum. */
  predicate ResetBounded(buckets: Buckets) {
    forall k :: k in buckets ==> |buckets[k]| <= ResetMaxAttempts
  }

  lemma {:induction false} CheckResetBounded(buckets: Buckets, keys: seq<string>, now: int)
    requires ResetBounded(buckets)
    ensures ResetBounded(CheckReset(buckets, keys, now).buckets)
    decreases |keys|
  {
    if |keys| > 0 {
      var bucket := Get(buckets, keys[0]);
      var full := |bucket| >= ResetMaxAttempts;
      CheckResetBounded(if full then buckets else buckets[keys[0] := bucket + [now]], keys[1..], now);
    }
  }

  lemma PrunedBounded(buckets: Buckets, now: int, window: int)
    requires ResetBounded(buckets)
    ensures ResetBounded(PrunedBuckets(buckets, now, window))
  {
  }

  /** Deleting the keys one at a time deletes the set of them. */
  lemma RemoveOneMore<V>(m: map<string, V>, keys: seq<string>, i: nat)
    requires i < |keys|
    ensures m - Elements(keys[..i + 1]) == (m - Elements(keys[..i])) - {keys[i]}
  {
    assert Elements(keys[..i + 1]) == Elements(keys[..i]) + {keys[i]} by {
      assert keys[..i + 1] == keys[..i] + [keys[i]];
    }
  }

  // ---------------------------------------------------------------- the shared state

  /** The three class-level dictionaries of the request handler. */
  class RateLimiter {
    var loginAttempts: Buckets
    var lockouts: map<string, int>
    var resetAttempts: Buckets

    ghost predicate Valid()
      reads this
    {
      ResetBounded(resetAttempts)
    }

    constructor ()
      ensures Valid()
      ensures loginAttempts == map[] && lockouts == map[] && resetAttempts == map[]
    {
      loginAttempts, lockouts, resetAttempts := map[], map[], map[];
    }

    /** `_is_login_locked`. */
    method IsLoginLocked(email: string, ip: string, now: int) returns (locked: bool)
      modifies this
      ensures locked <==> Until(old(lockouts), EmailKey(email)) > now || Until(old(lockouts), IpKey(ip)) > now
      ensures LockCheck(locked, lockouts) == CheckLocks(old(lockouts), LoginKeys(email, ip), now)
      ensures loginAttempts == old(loginAttempts) && resetAttempts == old(resetAttempts)
      ensures old(Valid()) ==> Valid()
    {
      var keys := LoginKeys(email, ip);
      LoginKeysDistinct(email, ip);
      CheckLocksLocked(lockouts, keys, now);
      var i := 0;
      while i < |keys|
        invariant 0 <= i <= |keys|
        invariant CheckLocks(old(lockouts), keys, now) == CheckLocks(lockouts, keys[i..], now)
        invariant loginAttempts == old(loginAttempts) && resetAttempts == old(resetAttempts)
      {
        var key := keys[i];
        var lockedUntil := Until(lockouts, key);
        if lockedUntil > now {
          return true;
        }
        if lockedUntil != 0 {
          lockouts := lockouts - {key};
        }
        assert keys[i..][1..] == keys[i + 1..];
        i := i + 1;
      }
      return false;
    }

    /** `_record_login_attempt`: prune, then clear both keys on success, or record
        the failure for both keys; the result is the success flag. */
    method RecordLoginAttempt(email: string, ip: string, success: bool, now: int) returns (admitted: bool)
      modifies this
      ensures admitted == success
      ensures success ==>
        loginAttempts == PrunedBuckets(old(loginAttempts), now, LoginWindow) - {EmailKey(email), IpKey(ip)}
        && lockouts == old(lockouts) - {EmailKey(email), IpKey(ip)}
      ensures !success ==>
        LoginState(loginAttempts, lockouts) == RecordFailure(LoginState(old(loginAttempts), old(lockouts)), email, ip, now)
      ensures resetAttempts == old(resetAttempts)
      ensures old(Valid()) ==> Valid()
    {
      var keys := LoginKeys(email, ip);
      loginAttempts := PruneBuckets(loginAttempts, now, LoginWindow);
      if success {
        ghost var pruned := loginAttempts;
        for i := 0 to |keys|
          invariant loginAttempts == pruned - Elements(keys[..i])
          invariant lockouts == old(lockouts) - Elements(keys[..i])
          invariant resetAttempts == old(resetAttempts)
        {
          RemoveOneMore(pruned, keys, i);
          RemoveOneMore(old(lockouts), keys, i);
          loginAttempts := loginAttempts - {keys[i]};
          lockouts := lockouts - {keys[i]};
        }
        assert keys[..|keys|] == keys;
        assert Elements(keys) == {EmailKey(email), IpKey(ip)};
        return true;
      }
      ghost var start := LoginState(loginAttempts, lockouts);
      for i := 0 to |keys|
        invariant AddFailures(start, keys, now) == AddFailures(LoginState(loginAttempts, lockouts), keys[i..], now)
        invariant resetAttempts == old(resetAttempts)
      {
        var key := keys[i];
        var attempts := Get(loginAttempts, key) + [now];
        loginAttempts := loginAttempts[key := attempts];
        if |attempts| >= LoginMaxAttempts {
          lockouts := lockouts[key := now + LockoutSeconds];
        }
        assert keys[i..][1..] == keys[i + 1..];
      }
      return false;
    }

    /** `_is_reset_rate_limited`: prune, then count the request against every key
        still below the maximum; limited when some key was already at the maximum. */
    method IsResetRateLimited(email: string, ip: string, now: int) returns (limited: bool)
      requires Valid()
      modifies this
      ensures Valid()
      ensures ResetCheck(limited, resetAttempts)
              == CheckReset(PrunedBuckets(old(resetAttempts), now, ResetWindow), ResetKeys(email, ip), now)
      ensures limited <==>
        |Get(PrunedBuckets(old(resetAttempts), now, ResetWindow), ResetEmailKey(email))| >= ResetMaxAttempts
        || |Get(PrunedBuckets(old(resetAttempts), now, ResetWindow), ResetIpKey(ip))| >= ResetMaxAttempts
      ensures loginAttempts == old(loginAttempts) && lockouts == old(lockouts)
    {
      var keys := ResetKeys(email, ip);
      resetAttempts := PruneBuckets(resetAttempts, now, ResetWindow);
      ghost var start := resetAttempts;
      ResetLimitedKeys(start, email, ip, now);
      PrunedBounded(old(resetAttempts), now, ResetWindow);
      CheckResetBounded(start, keys, now);
      limited := false;
      for i := 0 to |keys|
        invariant CheckReset(start, keys, now)
                  == var rest := CheckReset(resetAttempts, keys[i..], now); ResetCheck(limited || rest.limited, rest.buckets)
        invariant loginAttempts == old(loginAttempts) && lockouts == old(lockouts)
      {
        var key := keys[i];
        var attempts := Get(resetAttempts, key);
        if |attempts| >= ResetMaxAttempts {
          limited := true;
        } else {
          resetAttempts := resetAttempts[key := attempts + [now]];
        }
        assert keys[i..][1..] == keys[i + 1..];
      }
      assert keys[|keys|..] == [];
    }
  }
}
