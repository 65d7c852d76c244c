# whatsnominated — a Dafny model of the admin authentication layer, the year importers and the ballot page helpers

whatsnominated is a small Oscars ballot site. A Python HTTP server (`backend/server.py`) serves a
JavaScript ballot page (`web/user.js`) and an admin area protected by a password login. Command-line
scripts load a year's nominees from JSON into SQLite. This project models in Dafny:

- **the login and reset rate limiter** (`rate_limiter.dfy`). It has three dictionaries on the request
  handler. They map `email:`/`ip:` keys to lists of failed-login timestamps, to a lockout end time,
  and, for `reset-email:`/`reset-ip:` keys, to lists of reset-request times. Class `RateLimit.RateLimiter`
  keeps these as `map` fields. Its methods change them in place.
- **the password credential format** `pbkdf2_sha256$<iterations>$<salt hex>$<digest hex>`
  (`credential_codec.dfy`). The PBKDF2-HMAC-SHA256 function of section 5.2 of RFC 8018 and SHA-256 are
  function-typed parameters. Only encoding, parsing and verification are modelled.
- **the request parsers** of the server (`request_parsing.dfy`): the Cookie header of section 4.2 of
  RFC 6265 read loosely, the client address, the JSON body size checks, and the audit-listing query
  parameters.
- **the admin tables and handlers** (`auth_store.dfy`, `audit_log.dfy`, `admin_auth.dfy`). Users,
  sessions keyed by token, reset rows keyed by token hash, and the audit log are fields of class
  `AdminStore.Store`. The handlers for session lookup, the CSRF gate, login, logout, reset request and
  reset submit are methods on a limiter and a store. The admin provisioning script is in
  `provisioning.dfy`.
- **the year-payload loader and validator** (`year_data.dfy`): the loops of `validate_year_payload`
  as methods with invariants, and functions that specify them.
- **the year importer and the seeder** (`catalog.dfy`, `import_year.dfy`, `seed_db.dfy`). The SQLite
  year tables form a value `Catalog.Tables`. A transaction is a function returning `Ok(new tables)`
  (commit) or `Err(error)` (rollback). Its loops are methods proved equal to that function. The
  tables' keys are the invariant `Catalog.Valid`: the primary keys, the `(year, name)` category key
  and the unique index on non-empty film external ids. A film write that would break that index
  is an error, so the transaction rolls back. The two
  scripts resolve canonical film ids differently. The model states the difference.
- **the ballot page helpers** (`user_view.dfy`): the watch link filter, the category selector's
  ordering and fallback, the film sort, the progress counts, and the optimistic pick toggle.
  Class `UserView.PickState` holds the picks.

Time is an integer number of seconds passed in as `now`. Randomness (tokens, salts, CSRF values) and
the outcome of an e-mail send or a remote save are parameters.

## Model

| member | source | states |
|---|---|---|
| CredentialCodec.Encode | backend/server.py:117-120 | the encoding splits on `$` into exactly the tag, the decimal iteration count, the salt hex and the digest hex |
| CredentialCodec.Parse | backend/server.py:123-136 | a credential is read only from exactly four `$` fields with the `pbkdf2_sha256` tag; the digest field is kept as text |
| CredentialCodec.VerifyPassword | backend/server.py:123-136 | acceptance implies four fields, the right tag, a parsable count and salt, a count the KDF accepts, and a digest equal to the KDF's hex |
| CredentialCodec.ParseEncoded | backend/server.py:117-136 | parsing an encoding gives back its iteration count, salt and digest |
| CredentialCodec.VerifyEncoded | backend/create_admin.py:10-29 | a password verifies against its own encoding whatever the salt |
| CredentialCodec.VerifyOtherPassword | backend/create_admin.py:16-29 | another password verifies against an encoding exactly when its KDF digest is equal; digest equality is the only test |
| CredentialCodec.AlteredDigestRejected | backend/create_admin.py:16-29 | changing any one character of the digest field makes verification fail |
| CredentialCodec.TokenHashIdentifiesDigest | backend/server.py:191-192 | two tokens have the same stored hash exactly when their SHA-256 digests agree |
| CredentialCodec.HexInjective | backend/server.py:120 | hex encoding is injective |
| RateLimit.Recent | backend/server.py:207 | the windowed bucket is never longer than the bucket |
| RateLimit.RecentMembers | backend/server.py:207 | a timestamp is kept exactly when it is in the bucket and at most `window` old |
| RateLimit.RecentConcat | backend/server.py:207 | the filter works element by element, so it keeps the original order |
| RateLimit.PruneBuckets | backend/server.py:205-209 | no key is added, every kept bucket is the windowed original, a key is dropped exactly when its windowed bucket is empty |
| RateLimit.LoginKeysDistinct | backend/server.py:220 | the `email:` key and the `ip:` key of one request differ |
| RateLimit.CheckLocksLocked | backend/server.py:217-227 | locked exactly when one of the keys has a lockout ending strictly after now |
| RateLimit.CheckLocksClearsExpired | backend/server.py:221-226 | the check only deletes, only keys it inspected, only non-zero expired lockouts, and when unlocked every inspected expired lockout is gone |
| RateLimit.FailureUpdatesBothKeys | backend/server.py:239-244 | a failure appends now to each key's bucket, locks exactly the keys reaching 10 until now + 900, and touches no other key |
| RateLimit.RecordFailureOnEmailKey | backend/server.py:233-244 | seen from the identity key: its bucket is windowed and gets now appended; it is locked when that bucket reaches 10 |
| RateLimit.FailRunKeepsFailures | backend/server.py:36-38 | failures no further apart than the window all stay in the identity key's bucket |
| RateLimit.TenFailuresLockOut | backend/server.py:36-38 | ten failures within the window lock the login until 900 s after the last |
| RateLimit.CheckResetEffect | backend/server.py:252-258 | limited exactly when some key already held 5; a key below 5 gets now appended; other keys unchanged |
| RateLimit.CheckResetBounded | backend/server.py:39-40 | no reset bucket grows past 5 |
| RateLimit.PrunedBounded | backend/server.py:205-209 | pruning keeps reset buckets within 5 |
| RateLimit.RateLimiter.constructor | backend/server.py:55-57 | the three dictionaries start empty |
| RateLimit.RateLimiter.IsLoginLocked | backend/server.py:217-227 | locked iff the email or ip lockout ends after now; the lockouts are as the check leaves them; the attempt lists are unchanged |
| RateLimit.RateLimiter.RecordLoginAttempt | backend/server.py:229-244 | returns `success`; on success both keys are removed from the pruned attempts and from the lockouts; on failure the state is `RecordFailure` |
| RateLimit.RateLimiter.IsResetRateLimited | backend/server.py:246-258 | the reset buckets are the check's result over the pruned buckets; limited iff either key already held 5 |
| RequestParsing.ParseCookies | backend/server.py:104-114 | the dictionary is the one built from the `;`-split parts; an empty header gives an empty dictionary |
| RequestParsing.CookieNames | backend/server.py:109-113 | a name is present exactly when some part holding `=` carries it |
| RequestParsing.LastCookieWins | backend/server.py:113 | a repeated name takes the value of its last part |
| RequestParsing.SessionToken | backend/server.py:139-141 | a token is read only when the session cookie is present and non-empty |
| RequestParsing.ClientIp | backend/server.py:211-215 | the stripped first `X-Forwarded-For` element, which holds no comma; else the socket address or `unknown` |
| RequestParsing.FirstForwardedHop | backend/server.py:211-215 | a proxy chain identifies the request by its first hop |
| RequestParsing.CheckBodyLength | backend/server.py:66-79 | a body is read only with 0 < length ≤ 1 MiB; the header is invalid exactly when `int()` fails |
| RequestParsing.BodyLengthOfDecimal | backend/server.py:72-79 | a decimal length is empty for 0, read up to 1 MiB, too large above; a missing header is empty |
| RequestParsing.NegativeBodyLength | backend/server.py:72-74 | a negative length is an invalid request size |
| RequestParsing.AuditLimit | backend/server.py:856-860 | the limit is in [1, 500]; 100 when `int` fails; otherwise the value clamped to [1, 500] |
| RequestParsing.AuditLimitOfDecimal | backend/server.py:856-860 | a missing or empty limit is 100; a decimal one is clamped |
| RequestParsing.SuccessFilter | backend/server.py:855-869 | the success filter applies exactly for `0`/`1` after strip and lower-casing, and is true exactly for `1` |
| RequestParsing.ActionFilter | backend/server.py:854-866 | the action filter is the stripped value, and absent when that is empty |
| AuditLog.Retained | backend/server.py:293-303 | pruning never lengthens the log |
| AuditLog.RetainedMembers | backend/server.py:297-298 | a row survives exactly when it is at most 90 days old |
| AuditLog.RetainedOrdered | backend/server.py:293-303 | pruning keeps the ids increasing |
| AuditLog.AppendOrdered | backend/server.py:329-344 | inserting a row with the next id keeps the log ordered |
| AuditLog.NewestMatchingMembers | backend/server.py:862-881 | the listing holds exactly the log rows that match both filters |
| AuditLog.NewestMatchingDescending | backend/server.py:879 | in an ordered log the listing runs from newer to older rows |
| AuditLog.QueryListing | backend/server.py:872-882 | the listing is exactly the first `limit` matching rows, newest first |
| AdminStore.UserById | backend/server.py:147 | a user found by id is listed with that id; none is found only when no row has the id |
| AdminStore.UserByIdOfRow | backend/server.py:147 | with unique ids a listed user's id finds that user |
| AdminStore.UserByEmailById | backend/create_admin.py:47 | the user found by email is the one found by its id |
| AdminStore.UrlSafeNotBlank | backend/server.py:157 | a `token_urlsafe` value is non-blank and unchanged by strip |
| AdminStore.CsrfHealIsStable | backend/server.py:138-165 | a blank CSRF token is replaced once; the next read returns the same non-empty token and writes nothing |
| AdminStore.PruneKeepsLiveArtifacts | backend/server.py:276-291 | pruning never changes who is authenticated or which reset rows can be redeemed, now or later |
| AdminStore.PruneLeavesOnlyLive | backend/server.py:276-291 | after pruning every session is live and every reset row is unused and live |
| AdminStore.NewSessionLifetime | backend/server.py:260-274 | a new session authenticates its user with its CSRF token exactly for 14 days; other tokens are unaffected |
| AdminStore.RedeemedOnce | backend/server.py:755-773 | a redeemed token is never redeemable again |
| AdminStore.RedeemedEffect | backend/server.py:755-773 | the user's hash and no other is replaced; no session of the user survives; other sessions are unchanged |
| AdminStore.RacedSubmitsBothRedeem | backend/server.py:736-780 | two submits of one token that both read the row before either writes both go through, and both new sessions authenticate the user |
| AdminStore.GuardedRedeemOnce | backend/server.py:764-773 | the conditional write succeeds exactly when the token is redeemable, and after it succeeds no later write with that token does |
| AdminStore.CsrfRepairEffect | backend/db.py:218-225 | after the repair no session's CSRF token is blank to SQLite's `trim`; non-blank tokens, owners and expiry are kept; a second repair changes nothing |
| AdminStore.TabCsrfOutlivesRepair | backend/db.py:218-225 | a tab-only CSRF token survives the repair, since SQLite's `trim` removes spaces only, and is blank to the Python lookup |
| AdminStore.Store.constructor | backend/db.py:20-120 | the tables and the audit log start empty |
| AdminStore.Store.CurrentAdmin | backend/server.py:138-165 | no token gives no admin and no change; otherwise the result and new state are the lookup with the CSRF heal |
| AdminStore.Store.PruneArtifacts | backend/server.py:276-291 | the tables become the pruned tables |
| AdminStore.Store.CreateSession | backend/server.py:260-274 | prune, then insert the session when its token is free |
| AdminStore.Store.ClearSession | backend/server.py:305-312 | only the cookie's session row is deleted |
| AdminStore.Store.InsertReset | backend/server.py:681-691 | a reset row valid for one hour is stored when its hash is new |
| AdminStore.Store.Redeem | backend/server.py:736-773 | the claimed user is the one the token is redeemable for; the three writes happen exactly then, otherwise nothing changes |
| AdminStore.Store.RepairCsrf | backend/db.py:218-225 | the sessions become the repaired sessions; nothing else changes |
| AdminStore.Store.Audit | backend/server.py:320-348 | the log is the retained rows plus the new row; ids advance by one; the tables are unchanged |
| AdminStore.Store.InsertUser | backend/create_admin.py:62-66 | one user row with the next id is appended |
| AdminStore.Store.ReplacePassword | backend/create_admin.py:54-58 | the user's hash is replaced and all its sessions deleted |
| AdminAuth.LookupTwice | backend/server.py:138-165 | a second lookup finds the same admin and changes nothing |
| AdminAuth.LookupAdmin | backend/server.py:138-165 | the admin and the new state are those of the cookie's session |
| AdminAuth.RequireAdminApi | backend/server.py:167-188 | granted iff a session authenticates and, when required, the stripped header equals the non-empty CSRF token; 401 or 403 otherwise, with the audit row |
| AdminAuth.Login | backend/server.py:555-613 | a locked login is refused with 429 before the credentials are checked, and only the expired lockouts of its two keys are dropped; bad credentials record a failure; success clears both keys and opens a session; each path's audit row and next audit id are given |
| AdminAuth.Logout | backend/server.py:615-629 | an admin without the CSRF token is refused with 403 and an `admin_api_forbidden` audit row; otherwise the cookie's session is deleted, with an `admin_logout` row when an admin was logged in |
| AdminAuth.RequestReset | backend/server.py:651-710 | an empty email is refused; a limited request is refused with 429; otherwise the same reply whether or not the account exists, and a row only when it does; a colliding hash aborts with no row and no audit entry; the audit id advances by one on every reply |
| AdminAuth.SubmitReset | backend/server.py:712-796 | an empty token, then a short password, are refused before any lookup; only a redeemable hash is accepted; acceptance redeems and opens one session; an abort writes no audit entry; the audit id advances by one on every reply |
| AdminAuth.SubmitResetTwice | backend/server.py:712-796 | a second submit of an accepted token fails |
| Provisioning.EmailIndexOfNewHash | backend/create_admin.py:54-57 | a new hash does not change which row an email finds |
| Provisioning.AppendedUserFound | backend/create_admin.py:62-66 | the inserted row is found by its email |
| Provisioning.Provision | backend/create_admin.py:32-69 | an email without `@` or a short password changes nothing; past those checks `init_db` repairs blank CSRF tokens; then a verifying hash is kept, otherwise the hash is replaced and the user's sessions deleted, or the user is inserted with the next id |
| Provisioning.ProvisionTwice | backend/create_admin.py:45-52 | a second run with the same arguments finds the account set, and leaves the users and reset rows as before and the sessions as the first repair left them |
| YearData.LookupFound | backend/year_data_utils.py:20 | a key is found exactly when some entry carries it |
| YearData.BundleWithoutYear | backend/year_data_utils.py:11-18 | a bundle read without a year loads only with exactly one year, parsed from its key, and fails otherwise |
| YearData.BundleWithYear | backend/year_data_utils.py:19-22 | a bundle read for a year loads that year's payload and fails when it is absent |
| YearData.PlainDocument | backend/year_data_utils.py:23-30 | a plain document is the payload, with the requested year or its own `year` |
| YearData.SourceIds | backend/year_data_utils.py:53-63 | one stripped id per film |
| YearData.CheckRequiredKeys | backend/year_data_utils.py:37-40 | the loop gives the missing-key errors |
| YearData.CheckCategoryNames | backend/year_data_utils.py:47-51 | the category errors |
| YearData.CheckFilms | backend/year_data_utils.py:53-74 | the film errors, warnings and source ids |
| YearData.CheckReferences | backend/year_data_utils.py:76-88 | the nomination and default-seen errors |
| YearData.Validate | backend/year_data_utils.py:33-100 | the report is `ValidationReport` |
| YearData.MissingKeysReported | backend/year_data_utils.py:37-40 | each absent required key gives exactly one error, a present one none |
| YearData.CategoryErrorsReported | backend/year_data_utils.py:47-51 | the empty-name error is reported iff some name is empty, and the duplicate-name error iff names repeat |
| YearData.FilmErrorsReported | backend/year_data_utils.py:55-74 | the empty-id error is reported iff some id is empty; an empty-title error for `s` is reported iff some film with an empty title has id `s` (or `<missing id>` when its id is empty); the duplicate-id and duplicate-external-id errors are reported iff ids or non-empty external ids repeat |
| YearData.EmptyTitleReported | backend/year_data_utils.py:56-62 | the empty-title error for `s` is reported iff a film with an empty title is listed under `s` |
| YearData.UnknownCategoryReported | backend/year_data_utils.py:78-82 | an unknown-category error iff some nomination names a category not among the names |
| YearData.UnknownFilmReported | backend/year_data_utils.py:78-84 | an unknown-film error iff some nomination names an id not among the film ids |
| YearData.UnknownDefaultSeenReported | backend/year_data_utils.py:86-88 | a default-seen error iff the raw entry is not a film id |
| YearData.WarningsAndCounts | backend/year_data_utils.py:64-99 | warnings are exactly the non-empty external ids not of `tt<digits>` form; counts are the four list lengths |
| YearData.PartKinds | backend/year_data_utils.py:33-88 | each part of the error list holds only its own kind of error |
| Catalog.CategoryIndex | backend/db.py:20-120 | the first category row of the year with the name, or the row count |
| Catalog.CategoryIndexUnique | backend/db.py:20-120 | with unique (year, name), a row's key finds that row |
| Catalog.UpsertCategoryEffect | backend/import_year.py:69-82 | the upsert keeps the tables valid, adds exactly its key, keeps ids, changes only categories |
| Catalog.FilmIndex | backend/import_year.py:99-108 | the row the `ON CONFLICT(id)` film upsert hits: the first film with the id, or the row count |
| Catalog.ExternalIdIndex | backend/import_year.py:24-28 | the first film with the external id, or the row count |
| Catalog.TitleIndex | backend/import_year.py:32-35 | the first film with the title, or the row count |
| Catalog.UpsertFilmEffect | backend/seed_db.py:62-71 | fails exactly when the unique external-id index already holds, on another row, the non-empty external id it would write; otherwise one row with the id and the new title, the primary key and the index stay unique, a non-empty stored external id is kept, other rows stay, none removed |
| Catalog.UpsertCategories | backend/import_year.py:68-87 | the loop is `CategoriesUpserted` |
| Catalog.CategoriesUpsertedOk | backend/import_year.py:68-87 | the category loop fails exactly when a category has no name |
| Catalog.CategoriesUpsertedKeys | backend/import_year.py:68-87 | only categories change, no key is lost and exactly the payload's names are added for the year |
| Catalog.CategoriesUpsertedIds | backend/import_year.py:83-87 | every name maps to its row's id, existing rows keep their ids, other lookups are unchanged |
| Catalog.ReplaceNominations | backend/import_year.py:131-141 | the loop is `NominationsReplaced` |
| Catalog.NominationsReplacedOk | backend/import_year.py:131-141 | the replacement succeeds exactly when every nomination's category and film resolve |
| Catalog.NominationsReplacedExactly | backend/import_year.py:131-141 | the year holds exactly the payload's nominations, in order, mapped to category ids and canonical films; other years unchanged |
| ImportYear.Resolve | backend/import_year.py:22-49 | resolution keeps the number of films, their ids and their titles |
| ImportYear.ResolveByExternalId | backend/import_year.py:23-30 | a stored external id resolves to the first film carrying it |
| ImportYear.ResolveByTitle | backend/import_year.py:32-45 | else a same-title film supplies the id; its external id is overwritten only when null, empty or its own id |
| ImportYear.ResolveUnmatched | backend/import_year.py:47-48 | a non-empty external id with no match becomes the id |
| ImportYear.ResolveWithoutExternalId | backend/import_year.py:49 | without an external id the source id is kept |
| ImportYear.ResolveStable | backend/import_year.py:22-129 | resolving the same film again after it was written gives the same id (when the write was not refused) |
| ImportYear.ImportFilms | backend/import_year.py:89-129 | the loop is `FilmsImported` |
| ImportYear.FilmsImportedOk | backend/import_year.py:89-129 | a film without an id or a title makes the loop fail; when every film has both, it fails only on the external-id index |
| ImportYear.ExternalIdClash | backend/db.py:205-209 | three films whose only external id is unique in the payload still make the import fail on the external-id index |
| ImportYear.FilmsImportedTables | backend/import_year.py:89-129 | only films and film years change; every imported canonical id has a film and a film-years row |
| ImportYear.FilmsImportedSources | backend/import_year.py:97 | the source map covers exactly the payload's source ids |
| ImportYear.ReplaceDefaultSeen | backend/import_year.py:143-148 | the loop is `SeenReplaced` |
| ImportYear.SeenReplacedOk | backend/import_year.py:143-148 | the replacement succeeds exactly when every entry maps and the mapped ids are distinct |
| ImportYear.SeenReplacedEffect | backend/import_year.py:143-148 | the year's default seen is exactly the mapped entries; other years unchanged |
| ImportYear.KeptCategoriesMembers | backend/import_year.py:162-175 | a category row survives the prune exactly when it is of another year or its name was imported |
| ImportYear.KeptCategoriesKeys | backend/import_year.py:162-175 | the kept keys are the old keys minus the year's others |
| ImportYear.YearRowsSurvive | backend/import_year.py:162-175 | nominations whose category survives are kept |
| ImportYear.ImportPayload | backend/import_year.py:52-175 | the transaction is `Imported` |
| ImportYear.PhasesTables | backend/import_year.py:52-148 | after all phases the tables are valid, the label is upserted and the category keys are the old ones plus the year's names |
| ImportYear.PhasesRows | backend/import_year.py:131-148 | after all phases the nominations and default seen of the year are the payload's, mapped |
| ImportYear.ImportedNominations | backend/import_year.py:131-141 | after import the year's nominations are exactly the payload's, mapped through the source map |
| ImportYear.ImportedDefaultSeen | backend/import_year.py:143-148 | after import the year's default seen is exactly the payload's, mapped |
| ImportYear.ImportedWithoutPrune | backend/import_year.py:68-129 | without prune, category keys and film-years rows are only added |
| ImportYear.PrunedCategoryKeys | backend/import_year.py:162-175 | after pruning, the year's keys are exactly the imported names; other years' keys are unchanged |
| ImportYear.ImportedWithPruneCategories | backend/import_year.py:162-175 | with prune, the year's categories are exactly the payload's names |
| ImportYear.ImportedWithPruneFilms | backend/import_year.py:150-161 | with prune, the year's film-years rows are exactly the imported films; all go when none were imported |
| ImportYear.RunImport | backend/import_year.py:178-235 | a load error is returned; validation errors record `validation_failed` and import nothing; otherwise the run records failure and rollback, or success |
| ImportYear.RunImportOutcome | backend/import_year.py:189-232 | the four outcomes of a run and the tables each leaves |
| ImportYear.ValidatedButRejected | backend/import_year.py:68-141 | a payload with a padded category name passes validation and is rejected by the import |
| SeedDb.SeedWithoutExternalId | backend/seed_db.py:41-43 | without an external id the source id is the canonical id |
| SeedDb.SeedByExternalId | backend/seed_db.py:45-51 | a film carrying the external id supplies the id |
| SeedDb.SeedByTitle | backend/seed_db.py:52-58 | else a same-title film supplies it |
| SeedDb.SeedUnmatched | backend/seed_db.py:59-60 | with no match the external id is the id |
| SeedDb.SeedVersusImport | backend/seed_db.py:41-60 | the seed's id is the importer's, replaced by the external id when that equals the source id |
| SeedDb.SeedDiffersFromImport | backend/seed_db.py:59-60 | a film matched to its own id keeps it in the importer and takes the external id in the seed |
| SeedDb.SeedFilms | backend/seed_db.py:39-92 | the loop is `FilmsSeeded` |
| SeedDb.FilmsSeededOk | backend/seed_db.py:39-92 | a film without an id or a title makes the loop fail; when every film has both, it fails only on the external-id index |
| SeedDb.SeedExternalIdClash | backend/seed_db.py:62-71 | a film without an external id, seeded under an id that another row holds as its external id, is refused by the index |
| SeedDb.SeedFilmStepTables | backend/seed_db.py:62-92 | the row for the canonical id keeps a non-empty external id, else takes the external id or the canonical id; other rows unchanged |
| SeedDb.FilmsSeededTables | backend/seed_db.py:39-92 | only films and film years change; ids are never removed |
| SeedDb.FilmsSeededSources | backend/seed_db.py:72 | the source map covers exactly the payload's source ids |
| SeedDb.SeedKeepsOwnExternalId | backend/seed_db.py:68 | the importer overwrites an external id equal to the film's id; the seed keeps it |
| SeedDb.SeedDefaultSeen | backend/seed_db.py:106-110 | the loop is `SeenSeeded` |
| SeedDb.SeenIds | backend/seed_db.py:110 | each entry maps through the source map, or stays itself |
| SeedDb.SeenSeededOk | backend/seed_db.py:106-110 | the seed succeeds exactly when the stored ids are distinct films |
| SeedDb.SeenSeededEffect | backend/seed_db.py:106-110 | the year's default seen is exactly the stored ids; other years unchanged |
| SeedDb.SeenRawIdKept | backend/seed_db.py:110 | an unmapped entry stops the importer and is stored under its raw id by the seed |
| SeedDb.SeedOneYear | backend/seed_db.py:9-111 | the loop is `SeedYear` |
| SeedDb.SeedYearTables | backend/seed_db.py:9-92 | a seeded year parses its key, upserts its label and categories, and keeps the tables valid |
| SeedDb.SeedYearRows | backend/seed_db.py:94-110 | a seeded year holds exactly the payload's nominations and the mapped default seen |
| SeedDb.SeedEntries | backend/seed_db.py:121-122 | the loop is `Seeded`: years in file order, the first error stops the seed, and a bad year key is reported before a value that is not an object |
| SeedDb.SeededValid | backend/seed_db.py:114-126 | a committed seed keeps the invariants and loses no year |
| SeedDb.SeededYears | backend/seed_db.py:121-122 | every year key of the file is a year after the seed |
| UserView.ResolveWatchUrl | web/user.js:182-192 | the result is '' or the trimmed URL, and '' exactly when the trimmed URL is empty or a JustWatch search link |
| UserView.ResolveWatchUrlStable | web/user.js:182-192 | a link shown is shown unchanged again |
| UserView.Dedup | web/user.js:259 | the map keys hold each name once, and exactly the names |
| UserView.BuildCategoryOptions | web/user.js:257-279 | the options are `CategoryOptions` |
| UserView.CategoryOptionsShape | web/user.js:257-279 | every present category is offered exactly once, nothing else, with "All films" last |
| UserView.SelectedCategory | web/user.js:281-287 | the selection is "All films" or a present category; the current one is kept when present or "All films"; otherwise the default category when present, else the first name when non-empty, else "All films" |
| UserView.SelectedIsOffered | web/user.js:281-288 | the selection is always an offered option |
| UserView.CountSeen | web/user.js:302-309 | the total is the number of distinct nominated films; the seen count is the number of seen ids among them |
| UserView.SeenAtMostTotal | web/user.js:302-309 | the seen count never exceeds the total |
| UserView.CountCorrect | web/user.js:315-327 | the loop is `Correct` |
| UserView.CorrectBounds | web/user.js:315-327 | the correct count is at most the number of winners, and equal exactly when every winning category holds the winner |
| UserView.NominationCounts | web/user.js:349-352 | the map's keys are the nominated films and each value is that film's number of nominations |
| UserView.InsertPermutes | web/user.js:355-366 | insertion adds exactly the one film |
| UserView.InsertSorted | web/user.js:355-366 | insertion into a sorted list keeps it sorted |
| UserView.SortFilms | web/user.js:355-366 | the sort is a permutation and sorted by the comparator |
| UserView.SortedFilms | web/user.js:348-369 | a permutation of the films; under `nominations` by descending count then title, else by title |
| UserView.ToggledEffect | web/user.js:576-583 | a toggle changes only its category; it removes the pick when it was the film, else sets it; toggling twice restores exactly when the category held the film or nothing |
| UserView.RevertAsWritten | web/user.js:589-593 | the revert as written restores the picks exactly when the category held the film or nothing |
| UserView.RevertLosesEarlierPick | web/user.js:589-593 | a failed save of a new pick over an earlier one leaves no pick |
| UserView.RestoreUndoesToggle | web/user.js:576-593 | restoring the earlier pick always undoes the toggle |
| UserView.RefusedPickReloaded | web/user.js:230 | a pick whose save failed and that the server does not hold comes back from the local copy on the next load |
| UserView.PickState.constructor | web/user.js:108-126 | the picks and the local copy start as given |
| UserView.PickState.ClickAsWritten | web/user.js:569-603 | locked: no change; saved: the toggle; failed: the toggle then the revert as written; the local copy holds the toggle whether or not the save succeeded |
| UserView.PickState.Click | web/user.js:569-603 | locked or failed: no change to the picks; saved: the toggle; the local copy equals the picks after any unlocked click |

## Left out

- HTTP routing, response writing, headers and cookie attribute strings are not modelled; the handlers return a `Reply` value.
- PBKDF2, SHA-256, `secrets.token_*` and salts are parameters; `hmac.compare_digest` is plain equality.
- The limiter's dictionaries are shared across threads without a lock; the model is sequential.
- AdminAuth.SubmitReset, AdminStore.RedeemedOnce, AdminAuth.SubmitResetTwice: every handler is modelled one request at a time. The source reads the redeemable row (backend/server.py:737-744) and then marks it used with an UPDATE that has no `used_at IS NULL` condition (backend/server.py:764-770), so two submits of one token running at once can both pass the read; both then change the password and both open a session. That interleaving is shown by `AdminStore.RacedSubmitsBothRedeem` and listed under "## Findings"; the handler here uses the conditional write of `AdminStore.Store.Redeem`, and its contract says nothing about requests running at once.
- SMTP delivery is a boolean `emailSent` parameter.
- SQLite `datetime('now')` and `time.time()` are one integer clock `now`; sub-second times are not modelled.
- `_audit_admin` swallows its own failures; the model always inserts the row.
- The audit retention is fixed at its default of 90 days; the environment override is not modelled.
- `Lower` folds ASCII letters only; Python and JavaScript fold all of Unicode.
- `localeCompare` is modelled as code-unit order on titles (`UserView.TitleLe`), a total order.
- UserView.SortFilms, UserView.SortedFilms: ties are placed stably but stability is not stated; `SortedFilms` is about `SortFilms`' result, so it has the same gap.
- JSON bodies are already decoded: `_read_json_body`'s decoding error and non-string JSON values are not modelled.
- `_get_admin_auth_session`, the dashboard and the other API routes are not modelled.
- A reset token or session token that collides with an existing key makes the server raise; the model shows it as the `Aborted` reply or a `false` result.
- The cascade from categories to user picks and winners is not modelled; only nominations are cascaded.
- Error and warning messages are `Issue` and `Warning` constructors, not strings.
- A `null` film id or title and a missing nomination key are modelled as `MissingValue` errors that roll the transaction back. The source differs in one case: a film with `"id": null` and a non-empty `externalId` is accepted by both scripts. Its canonical id comes from the external id or a matched row, and `source_to_canonical[None]` is set (backend/import_year.py:92-97, backend/seed_db.py:41-60). Validation lets it through too, since `str(None)` is `"None"` (backend/year_data_utils.py:56). The model rolls such a film back. A null id without an external id and a null title do fail in the source, at the NOT NULL columns `film_years.film_id` and `films.title` (backend/db.py:36, 42).
- A category's `name` is an `Option`, so an absent name and a `null` name are one case: validation reports it as an empty name and `ImportYear.RunImport` records `validation_failed`. In the source, `c.get('name', '').strip()` raises AttributeError on a `null` (or non-string) name, so the script stops before any run row is written; that crash is not modelled.
- `Text.ParsePyInt` and `Text.IsDigit` accept ASCII digits only. Python's `int()` also accepts the other Unicode decimal digits. So a full-width year key such as "２０２４" gives `BadYearKey` in `SeedDb.SeedOneYear` but seeds year 2024 in the source. Likewise, such an audit `limit` falls back to the default in `RequestParsing.AuditLimit`, and the same holds for `Content-Length` and the hash's iteration count.
- UserView.PickState.Click and UserView.PickState.ClickAsWritten treat the `await updatePick` call as atomic: a second click while a save is pending, and the order in which overlapping saves settle, are not modelled. Local storage is one map for the current year and user key; its JSON encoding and read failures are not modelled.
- `init_db` is modelled only by its CSRF repair of admin sessions (`AdminStore.Store.RepairCsrf`, run by `Provisioning.Provision`); the `NULL` CSRF value is not modelled, since tokens are strings. The schema and the films repair are not modelled: the tables an import or a seed starts from are taken to satisfy `Catalog.Valid`, which covers the primary keys, the category key and the external-id index. The `details` text of the import run record is not modelled either.
- Duplicate keys in the JSON `years` object are not modelled; the parsed object is a list of entries.
- The seen-button branch of the ballot page's click handler is not modelled.
- The percentage rounding in `renderProgress` uses floats and is not modelled; only the counts are.

## Findings

| source | as written | input that shows it | evidently intended | confidence | as-written member | corrected member |
|---|---|---|---|---|---|---|
| web/user.js:589-593 | on a failed save the revert deletes the category's pick unless the clicked film was the pick; the local copy written before the request (web/user.js:525-526) keeps the refused pick, and the next load merges it back (web/user.js:230) | picks `{Sound: a}`, click film `b` in Sound, save fails: the picks become `{}` and the local copy `{Sound: b}` | the earlier pick is put back, in memory and in the local copy | not executed | UserView.RevertLosesEarlierPick | UserView.PickState.Click |
| backend/server.py:737-770 | the reset row is read, then marked used by an UPDATE without a `used_at IS NULL` condition | two submits of one valid token whose reads both run before either write: both change the password and both get a session | a token is redeemed once, the claim being one conditional write | not executed | AdminStore.RacedSubmitsBothRedeem | AdminStore.Store.Redeem |
