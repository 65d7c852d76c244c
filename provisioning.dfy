/**
 * The provisioning script that creates the admin account or resets its password
 * from the command line.
 */
module Provisioning {
  import opened Wrappers
  import opened Text
  import opened AdminStore
  import opened CredentialCodec

  const MinPasswordLength: nat := 10

  /** How the script ends: the two refusals raise `SystemExit` before the database
      is opened; the other three print which change was made. */
  datatype Outcome = InvalidEmail | PasswordTooShort | AlreadySet | PasswordUpdated(id: nat) | Created(id: nat)

  /** Emails are unchanged by a new password hash, so the same row is found by email. */
  lemma {:induction false} EmailIndexOfNewHash(users: seq<AdminUser>, id: nat, hash: string, email: string)
    ensures EmailIndex(WithNewHash(users, id, hash), email) == EmailIndex(users, email)
  {
    if |users| > 0 {
      var r := WithNewHash(users, id, hash);
      assert r[1..] == WithNewHash(users[1..], id, hash);
      EmailIndexOfNewHash(users[1..], id, hash, email);
    }
  }

  /** A new row with a lowercased email is what an email lookup finds when no
      earlier row matched. */
  lemma AppendedUserFound(users: seq<AdminUser>, u: AdminUser, email: string)
    requires UserByEmail(users, email).None? && u.email == email && Lower(email) == email
    ensures UserByEmail(users + [u], email) == Some(u)
  {
    var all := users + [u];
    var i := EmailIndex(all, email);
    assert EmailIndex(users, email) == |users|;
    assert Lower(all[|users|].email) == email;
    assert i == |users|;
  }

  /** `create_admin.main` with the parsed `--email` and `--password` arguments, the
      random salt of the new hash, and the random blobs of `init_db`'s CSRF repair,
      which runs once the arguments pass. */
  method Provision(store: Store, emailArg: string, password: string, kdf: Kdf, salt: seq<byte>, blob: string -> Blob24)
    returns (outcome: Outcome)
    requires store.Valid()
    modifies store
    ensures store.Valid()
    ensures store.audit == old(store.audit) && store.resets == old(store.resets)
    ensures store.nextAuditId == old(store.nextAuditId)
    ensures store.nextUserId == old(store.nextUserId) + (if outcome.Created? then 1 else 0)
    ensures var email := Lower(PyStrip(emailArg));
            '@' !in email ==> outcome == InvalidEmail && store.State() == old(store.State())
    ensures var email := Lower(PyStrip(emailArg));
            '@' in email && |password| < MinPasswordLength ==>
              outcome == PasswordTooShort && store.State() == old(store.State())
    ensures var email := Lower(PyStrip(emailArg));
            var row := UserByEmail(old(store.users), email);
            '@' in email && |password| >= MinPasswordLength && row.Some?
            && VerifyPassword(kdf, password, row.value.passwordHash) ==>
              outcome == AlreadySet && store.users == old(store.users)
              && store.sessions == CsrfRepaired(old(store.sessions), blob)
    ensures var email := Lower(PyStrip(emailArg));
            var row := UserByEmail(old(store.users), email);
            var repaired := CsrfRepaired(old(store.sessions), blob);
            '@' in email && |password| >= MinPasswordLength && row.Some?
            && !VerifyPassword(kdf, password, row.value.passwordHash) ==>
              outcome == PasswordUpdated(row.value.id)
              && store.users == WithNewHash(old(store.users), row.value.id, Encode(kdf, password, salt))
              && store.sessions == map k | k in repaired && repaired[k].userId != row.value.id :: repaired[k]
    ensures var email := Lower(PyStrip(emailArg));
            '@' in email && |password| >= MinPasswordLength && UserByEmail(old(store.users), email).None? ==>
              outcome == Created(old(store.nextUserId))
              && store.users == old(store.users) + [AdminUser(old(store.nextUserId), email, Encode(kdf, password, salt))]
              && store.sessions == CsrfRepaired(old(store.sessions), blob)
    // Whatever was there before, a run that gets past the checks leaves an account
    // under that email which the password logs in to.
    ensures var email := Lower(PyStrip(emailArg));
            '@' in email && |password| >= MinPasswordLength ==>
              UserByEmail(store.users, email).Some?
              && VerifyPassword(kdf, password, UserByEmail(store.users, email).value.passwordHash)
  {
    var email := Lower(PyStrip(emailArg));
    if '@' !in email {
      return InvalidEmail;
    }
    if |password| < MinPasswordLength {
      return PasswordTooShort;
    }
    store.RepairCsrf(blob);
    var row := UserByEmail(store.users, email);
    var encoded := Encode(kdf, password, salt);
    VerifyEncoded(kdf, password, salt, DefaultIterations);
    if row.Some? {
      if VerifyPassword(kdf, password, row.value.passwordHash) {
        return AlreadySet;
      }
      EmailIndexOfNewHash(store.users, row.value.id, encoded, email);
      store.ReplacePassword(row.value.id, encoded);
      return PasswordUpdated(row.value.id);
    }
    LowerIdempotent(PyStrip(emailArg));
    var id := store.InsertUser(email, encoded);
    AppendedUserFound(old(store.users), AdminUser(id, email, encoded), email);
    return Created(id);
  }

  /** Running the script twice with the same arguments changes nothing the second
      time: the account is already set, and the CSRF repair finds nothing blank. */
  method ProvisionTwice(store: Store, emailArg: string, password: string, kdf: Kdf,
                        salt: seq<byte>, salt2: seq<byte>, blob: string -> Blob24, blob2: string -> Blob24)
    returns (first: Outcome, second: Outcome)
    requires store.Valid()
    modifies store
    ensures store.Valid()
    ensures (first.PasswordUpdated? || first.Created? || first == AlreadySet) ==> second == AlreadySet
    ensures first == AlreadySet ==>
              store.users == old(store.users) && store.resets == old(store.resets)
              && store.sessions == CsrfRepaired(old(store.sessions), blob)
  {
    first := Provision(store, emailArg, password, kdf, salt, blob);
    second := Provision(store, emailArg, password, kdf, salt2, blob2);
    if first == AlreadySet {
      CsrfRepairEffect(old(store.sessions), blob, blob2);
    }
  }
}
