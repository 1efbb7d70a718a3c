# Verified model of jikim

jikim keeps secrets: a versioned vault whose versions are sealed under per-user keys, a
transit-encryption service, a four-eyes approval queue, path policies, and around them a
few in-memory tables and text transforms. This project models those parts in Dafny and
proves what the program relies on about them.

## What is modelled

* **The vault** (`Vault`, `Keyring`, `Aead`). The tables `users`, `user_keys`, `secrets`,
  `secret_versions`, `approval_requests`, `applications` and the policies of each user are
  one value, `Vault.Tables`. Each database transaction is a function from tables to tables or to an
  error; serializable transactions take effect one at a time, so every interleaving of
  clients is a sequence of steps, and a transaction PostgreSQL aborts is the step
  `Aborted`. `Database.Store` is the same store as the program runs it: fields that are
  updated statement by statement and rolled back by hand. Each of its methods is proved to
  move the tables exactly as the step does and to give its caller exactly the step's
  outcome. `VaultInvariant` is the invariant of all steps, `VaultTheorems` what it means
  for whole runs, and `VaultOperations` what each operation answers and stores, column by
  column. A ledger beside the tables remembers the plaintext each version was
  written with; it is the history that "no secret is lost" speaks about.
* **Transit keys** (`Transit`) in the same style, with the three-transaction protocol that
  loads or creates a key while others commit, and the ciphertext format on top of base64,
  decimal and separator parsing (`Codec`, `Decimals`, `Text`). `IdealWire` shows that the
  assumption about encryption can be met.
* **Bounded tables under a clock** (`LoginLimiter` with `LoginHistory`, `AiLimiter`,
  `Violations` with `Utf8`). The classes change their maps in place in any iteration order.
  What one call may do to the table is a predicate or a function, and the theorems are
  about every run of such steps compared with an ideal history.
* **Path policy and the secret tree**: policy documents as JSON with the two readings the
  program makes of a stored one, by encoding/json and by jsonb (`PolicyDocument`); the three
  Go evaluators, PutPolicy's checks and the SQL predicate of the list and dashboard queries
  (`Access`); which spellings of a document's keys and which stored paths are safe
  (`PolicySpelling`, `PolicyPaths`); LIKE with
  its escaping and the folder listing (`SecretTree`), and both for the secrets a run of the
  vault stores (`Inventory`).
* **Transforms**: nonce rewriting (`NonceRewriter`), PBKDF2 and stored password hashes
  (`Password`), the version and page readers (`Decimals`), the chat client's line reader
  (`StreamReader`).

Authenticated encryption is symbolic: a sealed value opens under the same key, nonce and
additional data and under nothing else. Keys, nonces, identifiers, the clock, the aborts of
the database and the steps of other clients are parameters. The schema supplies these facts
(`migrations/001_init.sql`, `migrations/003_kv_v2_deletion_time.sql`): the key version of a
new user is 1; new keys are active with encrypt, decrypt and rotate on; paths, `(user_id,
version)` and `(secret_id, version)` are unique; versions go with their secret and users are
never deleted (DeleteUser deactivates, which is `EditUserStep`); approvals start pending.

## Where the code differs from what one would expect

* An approved put is checked against the request's `resource` but written at the path inside
  its payload, without the trimming and checks of an ordinary put. It reaches the resource
  exactly when the two are equal (`ApprovedPutReachesResource`), which for requests filed by
  the HTTP handler means that the submitted path has no outer slash
  (`FiledPutReachesResource`); `ApprovedPutCanMiss` is a run in which it misses.
* The keys of a policy document mean different things to Go and to SQL. encoding/json takes
  any key that equals a field name up to case, jsonb only the exact one, and PutPolicy stores
  the document as it was sent. So `{"Paths":[{"path":"*","capabilities":["list"]}]}` is
  accepted, all three Go evaluators allow "list" everywhere, and the list and dashboard
  queries show nothing (`SpellingDecides`); a second spelling that jsonb orders after "paths"
  does the opposite (`SecondSpellingHides`). The readings agree exactly when the listing
  rules stand behind exactly spelt keys (`ReadAlikeExactly`), and a set of keys is safe to
  write documents with exactly when it spells no field otherwise (`KeysAreSafeExactly`). A
  document with exact keys that PutPolicy accepts is stored as a `Regular` one
  (`AcceptedIsStoredDecodable`), which is the hypothesis of `ListQueriesAgree`.
* pathMatches trims the stored path, the queries compare it raw. So a secret stored as "/a",
  as an approved put can store it (`ApprovedPutCanMiss`), is listable in Go under the pattern
  "a" and hidden by the queries (`SlashedSecretDisagrees`). For documents accepted with exact
  keys Go and SQL agree on a stored path exactly when it is not empty and has no outer slash
  (`PathsAgreeExactly`). On the empty path they can differ too, as for a document that
  names its "paths" twice: Go merges what jsonb drops (`EmptyPathDisagrees`).
* A policy document Go cannot decode is skipped by the Go evaluators, but its elements still
  count in SQL (`UndecodablePolicyDisagrees`). PutPolicy refuses such documents, and storing
  makes none of an accepted one.
* The dashboard predicate agrees with "list" for accounts of role `user` only, the only ones
  it is run for.
* CapabilitiesForPaths repeats a path's list once for every time the path is named
  (`Repeat`); membership is not affected.
* The reader of `transitCiphertextVersion` accepts signs and leading zeros, the one of
  TransitDecrypt does not; `StrictRefusesOtherSpellings` is the exact difference.
* `fmtSscanf` reads the empty text as 0; parsePage never passes it.
* An approved put also needs what its payload refers to: the write fails if the payload's
  application was deleted in the meantime (`ApprovedPutSucceedsExactly`).
* A unique violation on the version row keeps its conflict error even when a CAS value was
  given, while one on the secret row becomes a CAS failure.
* Verify ignores what stands before the first `$` of a stored hash.

## Model

Beside the members listed here each module has lemmas that say of one step, on the columns
of its tables, which error it gives and which columns it leaves alone
(`VaultOperations.DecisionRefusals`, `Keyring.EditUserExactly`,
`Transit.PermissionsExactly`, `LoginHistory.CheckExactly`).

| member | source | states |
|---|---|---|
| VaultTheorems.NoSecretIsLost | internal/store/secrets.go:320-369 | in every reachable state each version that is not destroyed still has its wrapping key row, owned by its author at the recorded key version with decryption on, and unwraps to the bytes it was written with; the read returns them exactly unless the version is destroyed, soft-deleted or its secret quarantined |
| VaultTheorems.WrittenBytesSurvive | internal/store/secrets.go:255-294 | the bytes a committed write handed in at one moment of a run are read back under that version number at any later moment at which it is neither destroyed nor hidden, unless the secret was dropped |
| VaultTheorems.WriteIsRecorded | internal/store/secrets.go:230-253 | a committed write of any kind fills a number never used before, makes it current, lifts a quarantine and reads back as its bytes |
| VaultOperations.ReadIsExact | internal/store/secrets.go:320-369 | in every reachable state, for every version number: a secret that is absent or in quarantine is not found, 0 reads the current version, a number outside 0..current is not found, and any other gives its recorded bytes exactly unless it is destroyed or deleted |
| VaultOperations.KvWriteCarriesMetadata | internal/store/secrets.go:160-198 | a committed KV v2 write gives the new version the metadata of the one before, and a new secret the empty object "{}"; the secret keeps its identity and creator |
| VaultOperations.PutWriteStoresMetadata | internal/store/secrets.go:230-294 | a committed put stores the metadata of its request, authored by the actor |
| VaultOperations.ApprovedPutStoresMetadata | internal/store/approvals.go:160-176 | an approved put stores the metadata of its payload, authored by the requester |
| VaultOperations.PutSucceedsExactly | internal/store/secrets.go:75-96 | a put succeeds if and only if the trimmed path is valid, the data has a field, the texts can be stored, application and owner exist, the actor's newest key may encrypt and a new identifier is free; a bad path or empty data is an invalid request |
| VaultOperations.StoredUnderInnerText | internal/store/secrets.go:75-79 | a path with white space and slashes around it is stored under its inner text |
| VaultOperations.WriteNeedsKey | internal/store/secrets.go:255-281 | an actor that does not exist or whose newest key may not encrypt writes nothing and gets "not found" |
| Access.ValidPathExactly | internal/store/secrets.go:20-48 | a valid path has 1 to 512 letters, digits, dots, underscores, slashes and dashes, begins with a letter or digit, does not end in a slash and holds neither ".." nor "//" |
| VaultTheorems.RunRemembers | internal/store/secrets.go:630-666 | between two moments of a run a version keeps number, author, key and sealed bytes; nothing but its deletion time changes until it is destroyed |
| VaultTheorems.KeyRingOverRuns | internal/store/users.go:405-500 | over all runs each user owns key versions 1..personal_key_version without gap or duplicate, exactly the newest is active, and every key may decrypt |
| VaultTheorems.CasCommitsOnTop | internal/store/secrets.go:127-212 | a committed write with cas=c found version c (or no secret, for c=0) and created exactly version c+1 |
| VaultTheorems.CasMismatchRefused | internal/store/secrets.go:201-212 | a CAS value other than the current version is refused and nothing changes |
| VaultTheorems.PutOpenBaoSucceedsExactly | internal/store/secrets.go:127-199 | a KV v2 write succeeds if and only if its CAS value names the current version and the actor's newest key may encrypt, apart from a collision of random identifiers |
| VaultTheorems.CasLosesNoUpdate | internal/store/secrets.go:127-199 | under every interleaving, of two writers with the same CAS value on one incarnation of a secret at most one commits |
| VaultOperations.LostRaceAnswers | internal/store/secrets.go:214-223 | a CAS write that met a unique violation or a serialization failure answers that the check failed; every other error is kept |
| VaultOperations.TakenIdentifierFailsCheck | internal/store/secrets.go:175-198 | so does one that would create a secret under a taken identifier, while without a CAS value it is a conflict |
| VaultTheorems.VersionsAreContiguous | internal/store/secrets.go:255-294 | in every reachable state the versions of a secret are exactly 1..current_version |
| VaultTheorems.NumbersNotReused | internal/store/secrets.go:255-294 | of two committed writes to one secret the later has the larger number, across quarantine and re-put |
| VaultTheorems.WriteAdvances | internal/store/secrets.go:255-294 | a committed write to an existing secret keeps its identity and advances its version by one |
| VaultTheorems.DestroyedIsAbsorbing | internal/store/secrets.go:630-666 | a destroyed version stays destroyed over any run, with empty ciphertext and nonce and no deletion time |
| VaultTheorems.MutationsDependOnNamedSet | internal/store/secrets.go:679-696 | two requests that name the same positive versions do the same, whatever their order, repetitions and non-positive entries |
| VaultTheorems.UndeleteRestores | internal/store/secrets.go:610-612 | undelete makes every named version that is not destroyed readable with its original bytes and touches no other |
| VaultTheorems.UndeleteInvertsSoftDelete | internal/store/secrets.go:606-612 | soft-deleting and undeleting the same versions is the same as undeleting them |
| VaultTheorems.SoftDeleteHides | internal/store/secrets.go:606-666 | soft delete hides exactly the named versions, keeps their bytes and the time they were first deleted; every other version reads as before |
| VaultTheorems.DestroyErases | internal/store/secrets.go:580-582 | destroy leaves nothing to open of exactly the named versions |
| VaultTheorems.DropErases | internal/store/secrets.go:614-628 | dropping a secret removes it with all its versions, and every other secret reads as before |
| VaultTheorems.LatestIsCurrent | internal/store/secrets.go:584-604 | a soft delete without numbers is the soft delete of the current version |
| VaultOperations.QuarantineExactly | internal/store/secrets.go:569-578 | a delete hides exactly the secret it names, keeping identity, number and all versions; one that is absent or hidden already is not found |
| VaultTheorems.RowsAreNotInterchangeable | internal/store/secrets.go:273-278 | a ciphertext copied to another version never opens there, because the additional data names its secret and number |
| VaultTheorems.ApprovalsExecuteOnce | internal/store/approvals.go:107-193 | in any run a request is resolved, hence executed, at most once |
| VaultTheorems.DecidedStaysDecided | internal/store/approvals.go:107-193 | a decided request never changes again |
| VaultTheorems.FourEyes | internal/store/approvals.go:107-193 | in every reachable state a decided request was decided by somebody other than its requester |
| VaultTheorems.ApprovalEffect | internal/store/approvals.go:107-193 | an approved put adds exactly one version, authored by the requester; an approved delete quarantines exactly the resource; both only while the requester is active and has the capability; a rejection changes no secret |
| VaultTheorems.ApprovedPutSucceedsExactly | internal/store/approvals.go:133-180 | approving a put succeeds if and only if the request is pending, the approver is another account, the requester is active, holds "update" on the resource if that is stored and not in quarantine and "create" otherwise, and may encrypt, the payload's texts can be stored and its application and owner exist, and no identifier collides |
| VaultOperations.ApprovalNeedsCapability | internal/store/approvals.go:133-159 | a committed approval means that the active requester holds "update" on a resource that is stored and not in quarantine, "create" on any other, and "delete" for a delete |
| VaultOperations.ApprovedDeleteSucceedsExactly | internal/store/approvals.go:133-186 | approving a delete succeeds if and only if the request is pending, the approver is another account, the active requester holds "delete", and the resource is stored and not in quarantine |
| VaultOperations.ApprovalRefusals | internal/store/approvals.go:133-159 | which error an approval meets on account of its requester, its action or its capability |
| VaultOperations.RejectionExactly | internal/store/approvals.go:107-193 | a rejection needs a pending request and another account and changes only the request |
| VaultOperations.RequestFiles | internal/store/approvals.go:62-80 | a request is filed pending, without an approver, with a payload that opens to the write asked for |
| VaultTheorems.ApprovedPutReachesResource | internal/store/approvals.go:143-176 | the approved resource receives the version if and only if the payload's path equals it |
| VaultTheorems.FiledPutReachesResource | internal/httpapi/secret_handlers.go:241-241 | a put filed by the handler, once approved, reaches its resource if and only if the submitted path has no outer slash |
| VaultTheorems.ApprovedPutCanMiss | internal/store/approvals.go:160-172 | a run from an empty database in which an approved put is stored as "/a" while the approved resource "a" does not exist |
| VaultInvariant.StepKeepsInv | internal/store/secrets.go:230-293 | every transaction keeps: key rings complete, versions exactly 1..current of a secret, every live version openable to its recorded bytes, approvals four-eyed |
| VaultInvariant.RunKeepsInv | internal/store/secrets.go:230-293 | the same over every run |
| VaultInvariant.ResolveResolves | internal/store/approvals.go:107-193 | what a committed decision requires and changes |
| VaultInvariant.PutTxAdds | internal/store/secrets.go:230-253 | putSecretTx adds one version on top, sealed under the actor's newest key, and changes no other row |
| VaultInvariant.PutOpenBaoAdds | internal/store/secrets.go:127-199 | a KV v2 write adds one version on top and changes no other row |
| Keyring.EnsureIdempotent | internal/store/users.go:405-429 | ensuring a key a second time changes nothing |
| Keyring.EnsureCompletes | internal/store/users.go:405-429 | inserting the missing newest key restores the ring invariant |
| Keyring.AddUserKeepsRing | internal/store/users.go:162-196 | a new account starts with a complete ring |
| Keyring.RotationKeepsRing | internal/store/users.go:457-500 | rotation keeps the ring invariant and every old key row |
| Keyring.RotationMakesNewest | internal/store/users.go:457-500 | a rotation succeeds if and only if the key exists and the actor manages all keys or owns this active key with its rotate flag, apart from a collision of random identifiers; without that right it is forbidden; the new key opens, is the newest and only active one, and other users' keys stay |
| Keyring.PermissionsKeepRing | internal/store/users.go:502-535 | editing permissions keeps the ring invariant and cannot take decryption away |
| Keyring.PermissionEditExactly | internal/store/users.go:502-518 | an edit with acceptable flags succeeds if and only if the key is active and its owner or a manager asks, and stores the flags and nothing else |
| Keyring.FlagsExactly | internal/store/users.go:520-535 | flags are acceptable if and only if they are booleans named encrypt, decrypt and rotate with decrypt on; they are stored as sent, missing ones as off |
| Keyring.AddUserStarts | internal/store/users.go:162-196 | a new account is active and gets one active key of version 1 with all flags, which opens to the key drawn |
| Keyring.ExactlyOneActiveKey | internal/store/users.go:457-500 | a user's newest key is the only active one |
| Database.Store.EnsureKey | internal/store/users.go:405-429 | the in-place insert refines EnsureUserKey |
| Database.Store.RotateKey | internal/store/users.go:457-500 | bump, retire, insert and roll back refine the rotation step |
| Database.Store.CleanFlags | internal/store/users.go:520-535 | the loop over the request map, in any order, accepts exactly maps of known boolean flags with decrypt on |
| Database.Store.UpdatePermissions | internal/store/users.go:502-518 | refines the permission step |
| Database.Store.GetSecret | internal/store/secrets.go:320-369 | refines the read the theorems speak about |
| Database.Store.UserDataKey | internal/store/secrets.go:371-381 | finds the one key of a user and version that may encrypt and opens it |
| Database.Store.InsertVersionTx | internal/store/secrets.go:255-294 | refines the version insert |
| Database.Store.PutSecret | internal/store/secrets.go:75-96 | refines the put step, with its rollback and its error |
| Database.Store.PutOpenBaoSecretOnce | internal/store/secrets.go:127-199 | refines the CAS write: a refused or aborted attempt leaves all tables unchanged and gives the specified error |
| Database.Store.Retry | internal/store/secrets.go:111-124 | the loop goes on exactly after uncased attempts that lost a race, at most five times, with the answer of its last attempt, while other clients keep committing |
| Database.Store.PutOpenBaoSecret | internal/store/secrets.go:102-125 | the whole call: refused without a try when path or data are invalid, at most one try with a CAS value, otherwise the retry loop |
| Database.LostAttemptsLeaveNoTrace | internal/store/secrets.go:111-124 | after any number of lost attempts the tables are those the other clients alone would have made |
| Database.CommitsAtMostOnce | internal/store/secrets.go:111-124 | the call's whole effect is its last attempt's transaction, which committed exactly when the caller is told so |
| Database.Store.DeleteSecret | internal/store/secrets.go:569-578 | refines the quarantine step |
| Database.Store.NormalizeVersions | internal/store/secrets.go:679-696 | yields each positive named version once and nothing else |
| Database.Store.MutateOpenBaoVersions | internal/store/secrets.go:630-666 | refines soft delete, undelete and destroy |
| Database.Store.SoftDeleteLatestVersion | internal/store/secrets.go:584-604 | refines the soft delete of the current version |
| Database.Store.DeleteMetadata | internal/store/secrets.go:614-628 | drops the secret with exactly its own versions |
| Database.Store.DeleteApplication | internal/store/resources.go:75-84 | refines the deletion of an application, which later writes may refer to |
| Database.Store.CreateApproval | internal/store/approvals.go:62-80 | refines the request step |
| Database.Store.Resolve | internal/store/approvals.go:107-193 | refines the decision step; a failed execution leaves every table, and the request pending, as it was |
| Database.Store.Perform | internal/store/secrets.go:75-96 | whatever step a client takes, the store moves as the transition system does |
| Database.Store.PerformAll | internal/store/secrets.go:75-96 | the same over every sequence of steps |
| Database.RunFromEmpty | internal/store/store.go:36-55 | a store that starts empty and performs its clients' steps is in the state the theorems about runs speak of, with their invariant |
| Aead.AadInjective | internal/store/secrets.go:273-278 | no two contexts print the same additional data |
| Aead.KeyAndSecretAad | internal/store/secrets.go:273-278 | the additional data of a version and of a personal key are their name, identifier and decimal number |
| Aead.TransitAad | internal/store/transit.go:34-39 | and those of a transit key and of its ciphertexts end in "v" and the number |
| Aead.OpensOnlyInItsContext | internal/cryptox/cipher.go:76-93 | what was sealed for one context opens for no other |
| Transit.RunKeeps | internal/store/transit.go:277-330 | over every run each name has exactly the versions 1..version, all openable, and no stored key version ever changes |
| Transit.RunFromStart | internal/store/transit.go:277-330 | every state of every run from an empty database satisfies that invariant |
| Transit.TransitRoundTrip | internal/store/transit.go:62-92 | a ciphertext decrypts to its bytes after any later rotations, permission updates and creations |
| Transit.TransitRefusesOtherContext | internal/store/transit.go:62-92 | the same payload under another key name or version is refused in every state |
| Transit.DecryptAssembled | internal/store/transit.go:62-92 | a well-formed ciphertext is opened with the row of exactly the version its token names |
| Transit.CiphertextIs | internal/store/transit.go:18-43 | a ciphertext reads vault:v<version>:<payload> in decimal and raw base64 |
| Transit.DecryptAcceptsOnly | internal/store/transit.go:62-92 | what decrypts has three fields, the scheme, an exact version, a payload longer than a nonce, a stored key version and a box that opens under it |
| Transit.DecryptRefusals | internal/store/transit.go:62-92 | any refusal is "invalid" except that of a well-formed token whose key version is not stored |
| Transit.RacersShareTheKey | internal/store/transit.go:113-165 | a stored key version reads the same in all later states, so racing creators use one key |
| Transit.RotationTakesEffect | internal/store/transit.go:277-313 | rotation succeeds if and only if the key and its creator exist; then the new version is what encryption loads and every older one still reads as before |
| Transit.CreationExactly | internal/store/transit.go:233-275 | a key is created if and only if its trimmed name is a valid path without a slash and free and its creator exists; it starts at version 1, with the permissions given, and is what encryption loads |
| Transit.FirstUseCreates | internal/store/transit.go:129-160 | the insert of a first use leaves an existing key alone and otherwise makes version 1 with all permissions |
| Transit.TransitStore.LoadKey | internal/store/transit.go:113-128 | refines the joined read of a key version |
| Transit.TransitStore.TransitKeyFor | internal/store/transit.go:113-165 | read, insert on conflict do nothing, reload: whatever others commit in between, what is returned is a stored version, never the loser's own key |
| Transit.TransitStore.TransitEncrypt | internal/store/transit.go:18-43 | succeeds whenever name and base64 are valid and the key exists or may be created; the ciphertext is made with the stored current key and decrypts to the given bytes now and in every later state |
| Transit.TransitStore.Rotate | internal/store/transit.go:277-313 | refines rotation |
| IdealWire.IdealWireExists | internal/cryptox/cipher.go:76-93 | the idealisation of encryption the transit theorems assume can be met |
| Codec.Base64RoundTrip | internal/store/transit.go:18-92 | decoding inverts encoding, padded and raw |
| Codec.LineBreaksAreSkipped | internal/store/transit.go:18-92 | a line break changes nothing, wherever it stands in an encoded text |
| Codec.DecodesOnlyAlphabet | internal/store/transit.go:18-92 | what decodes is written in the alphabet, with padding if padded; line breaks are skipped |
| Decimals.StrictVersionExact | internal/store/transit.go:45-60 | a token is accepted if and only if it is "v" and the canonical decimal of a version in 1..MaxInt, and then as that version |
| Decimals.ReadersAgreeOnEmitted | internal/httpapi/openbao.go:871-881 | both readers return the version of every ciphertext the encryptor emits |
| Decimals.StrictRefusesOtherSpellings | internal/httpapi/openbao.go:871-881 | where the two readers differ: exactly a sign or leading zeros |
| Decimals.FmtSscanf | internal/httpapi/response.go:55-70 | stores the exact value if and only if the text is all digits and fits in int, never overflows, and otherwise leaves the target alone |
| Decimals.PageNumber | internal/httpapi/response.go:44-53 | the default stands unless the parameter is readable |
| Password.Pbkdf2 | internal/password/password.go:70-91 | computes the derived key of section 5.2 of RFC 8018 |
| Password.DeriveBlock | internal/password/password.go:75-88 | the buffer loop computes the XOR of U_1 to U_c of one block |
| Password.XorInto | internal/password/password.go:82-86 | the inner loop XORs one block into the buffer |
| Password.IntOctetsBigEndian | internal/password/password.go:75-79 | the four index bytes are the big-endian block number |
| Password.ShorterKeyIsPrefix | internal/password/password.go:70-91 | a shorter output is a prefix of a longer one |
| Password.ParseInvertsEncode | internal/password/password.go:50-68 | parsing a printed hash returns its fields if and only if they are within the accepted bounds |
| Password.Verify | internal/password/password.go:41-48 | accepts if and only if the hash parses and the derived keys are equal |
| Password.VerifyAcceptsSameKey | internal/password/password.go:34-48 | the hash made of one password accepts another exactly when their derived keys are equal |
| Password.StoredHashIs | internal/password/password.go:34-39 | the stored text of a hash, with 310,000 iterations and a key of 32 bytes |
| Password.AcceptsExactly | internal/password/password.go:41-68 | a hash is accepted if and only if it has five fields, the scheme, 100,000 to 2,000,000 iterations, a salt of 16 and a key of 32 bytes at least, and that key is the derived one; what stands before the first "$" does not matter |
| Password.BlockByteIs | internal/password/password.go:79-88 | each byte of a block is the exclusive or of that byte of U_1 to U_c |
| Password.KeyByteIs | internal/password/password.go:70-91 | each byte of the derived key is that of its block of 32 |
| LoginLimiter.LoginRateLimiter.Blocked | internal/httpapi/login_rate_limit.go:42-58 | drops an expired entry and answers whether the key is locked, with the time left |
| LoginLimiter.LoginRateLimiter.Failed | internal/httpapi/login_rate_limit.go:60-79 | counts the failure in its window and evicts when over capacity |
| LoginLimiter.LoginRateLimiter.Evict | internal/httpapi/login_rate_limit.go:81-113 | in any map and sort order: back within capacity, the failed key stays, a live lockout goes only if no entry below the limit is kept, and then one of the earliest |
| LoginHistory.NeverExceedsCapacity | internal/httpapi/login_rate_limit.go:60-113 | over every run the table stays within capacity |
| LoginHistory.DefaultCapacity | internal/httpapi/login_rate_limit.go:12-40 | with the program's values the table holds at most 10,000 keys |
| LoginHistory.LockoutSurvives | internal/httpapi/login_rate_limit.go:42-113 | a locked key answers blocked until its expiry through any flood, while fewer than capacity lockouts are live |
| LoginHistory.LockoutEvictedOnlyWhenFull | internal/httpapi/login_rate_limit.go:81-113 | a live lockout is evicted only when capacity lockouts are live |
| LoginHistory.OnlyEarliestLockoutsGo | internal/httpapi/login_rate_limit.go:97-113 | an evicted lockout expires no later than any kept one, and never is the key that just failed |
| LoginHistory.BlockedIsSound | internal/httpapi/login_rate_limit.go:42-79 | a blocked key failed at least limit times within the last window with no success between |
| LoginHistory.FailuresLock | internal/httpapi/login_rate_limit.go:60-79 | counted from a failure that opens a window, a key is locked until that window ends if and only if it failed at least limit times, while the table is not full |
| LoginHistory.FiveFailuresLock | internal/httpapi/login_rate_limit.go:12-79 | with the program's values: five failures within five minutes of the first lock until that window ends, and fewer do not |
| LoginHistory.FailureExactly | internal/httpapi/login_rate_limit.go:60-79 | a failure counts one more in a live window or opens one, and every other entry left is as it was |
| LoginHistory.RetryAfterReachesExpiry | internal/httpapi/login_rate_limit.go:125-143 | the advertised seconds are the fewest whole ones that reach the expiry, and at least one |
| LoginHistory.WaitingUnblocks | internal/httpapi/login_rate_limit.go:125-143 | after waiting them without another failure the key is not blocked, whatever other keys do |
| AiLimiter.AiRequestLimiter.AcquireSlot | internal/httpapi/ai_rate_limit.go:27-53 | prunes and then decides and counts as specified |
| AiLimiter.PruningIsUnobservable | internal/httpapi/ai_rate_limit.go:27-66 | every acquire of every run is answered as by a limiter that never prunes |
| AiLimiter.ForgetsExactly | internal/httpapi/ai_rate_limit.go:45-51 | a granted request forgets, in a table of more than 4,096 users, exactly those with nothing running whose window began more than two minutes ago |
| AiLimiter.ActiveCountsGrants | internal/httpapi/ai_rate_limit.go:27-66 | active equals the outstanding grants and never exceeds maxConcurrent |
| AiLimiter.SlidingMinuteIsBounded | internal/httpapi/ai_rate_limit.go:27-53 | no half-open minute, wherever it starts, holds more than 2*maxPerMinute-1 grants to a user |
| AiLimiter.DefaultLimits | internal/httpapi/ai_rate_limit.go:22-25 | with the program's values, at most 59 grants in any minute and two at a time |
| AiLimiter.RefusalsAreEarned | internal/httpapi/ai_rate_limit.go:27-53 | a slot is refused for concurrency if and only if maxConcurrent are outstanding, and for rate only after maxPerMinute grants in the last minute |
| Violations.Recorder.Record | internal/tracking/violations.go:46-88 | normalises the directive, cuts the page and counts the report, evicting one entry only for a new key in a full table |
| Violations.Recorder.EvictOldest | internal/tracking/violations.go:90-98 | in any map order removes one entry that was last seen no later than any other |
| Violations.Recorder.List | internal/tracking/violations.go:103-135 | every entry once, by last report descending and then by origin; entries that tie differ in their directive |
| Violations.KeyInjective | internal/tracking/violations.go:72-72 | two reports share an entry exactly when they agree in directive and origin |
| Violations.CountsAreConserved | internal/tracking/violations.go:46-142 | over every run the table is bounded and live counts plus evicted or forgotten counts are the accepted reports |
| Violations.EvictionIsLeastRecent | internal/tracking/violations.go:46-98 | a report evicts at most one entry, a least recently seen one, and never its own |
| Violations.DirectiveIsFirstWord | internal/tracking/violations.go:46-55 | a directive is filed under its first word in lower case, whatever white space stands around it |
| Violations.ReportIsNoted | internal/tracking/violations.go:70-88 | a report counts one more, notes its time and page, keeps the time of the first, and touches no other entry left |
| Utf8.CutPage | internal/tracking/violations.go:56-69 | the page kept is the longest valid UTF-8 prefix of at most 512 bytes of a valid page |
| Utf8.ValidEndAccepted | internal/tracking/violations.go:62-68 | the backward decoder accepts the end of every valid text |
| Utf8.BrokenEndRejected | internal/tracking/violations.go:62-68 | and rejects every proper cut inside a character of one |
| Utf8.LongestPrefixUnique | internal/tracking/violations.go:56-69 | the longest valid prefix is unique |
| Utf8.RunesAreEncodings | internal/tracking/violations.go:56-69 | the characters of the model are exactly the UTF-8 encodings of the Unicode scalar values |
| NonceRewriter.WithNonce | internal/tracking/tracking.go:242-265 | the loop ends and computes the rewriting |
| NonceRewriter.InsertionsAreExact | internal/tracking/tracking.go:242-265 | the output is the snippet with the attribute inserted behind exactly those script names whose tag has none, and without the insertions it is the snippet |
| NonceRewriter.EveryScriptCarriesNonce | internal/tracking/tracking.go:242-265 | every script name in the output is followed by a nonce before the next ">" |
| NonceRewriter.RewritingIsIdempotent | internal/tracking/tracking.go:242-265 | rewriting twice, even with another nonce, equals rewriting once |
| NonceRewriter.EveryScriptTagHasNonce | internal/tracking/tracking.go:242-265 | in the output every "<script", in any case, is followed by "nonce=" before the next ">" |
| NonceRewriter.InsertsExactlyWhereMissing | internal/tracking/tracking.go:242-265 | the attribute is inserted exactly behind those "<script", in any case, that no "nonce=" follows before the next ">" |
| NonceRewriter.InsertedNonceReads | internal/tracking/tracking.go:261-261 | what is inserted is nonce="v" where v holds no quote or angle bracket and reads, unescaped, as the given nonce, and is that nonce when it has nothing to escape |
| NonceRewriter.UnescapeInvertsEscape | internal/tracking/tracking.go:261-261 | an HTML unescape written on its own inverts the escape |
| SecretTree.EscapedMatchesItself | internal/store/store.go:199-208 | an escaped text in front of a LIKE pattern matches exactly itself |
| SecretTree.ChildrenPatternSelects | internal/store/secrets.go:734-739 | the children pattern selects exactly the paths below the prefix |
| SecretTree.SearchPatternSelects | internal/store/secrets.go:417-440 | the search pattern matches exactly the texts containing the search |
| SecretTree.ListSecretChildren | internal/store/secrets.go:698-732 | the listing is strictly increasing and holds exactly the child names below the prefix |
| SecretTree.Walk | internal/store/secrets.go:698-739 | walking the listing from the root ends and yields every valid stored path exactly once, whatever other paths are stored |
| Inventory.StoredPathsAreValid | internal/store/secrets.go:43-48 | over every run in which no approved payload has an invalid path, every stored path is valid |
| Inventory.TreeIsComplete | internal/store/secrets.go:43-48 | in such a run every listed path is valid and trimmed |
| Inventory.WalkSecrets | internal/store/secrets.go:698-739 | walking the listing of any tables finds every valid secret outside quarantine exactly once |
| Inventory.WalkRun | internal/store/secrets.go:698-739 | in such a run walking the listing finds every secret outside quarantine exactly once |
| Inventory.QueriesAreComplete | internal/store/secrets.go:441-455 | in such a run, with policies that PutPolicy accepted with exact keys, the list query shows a user exactly the listed secrets that canAccess allows the user to list |
| SecretTree.ChildStandsFor | internal/store/secrets.go:712-729 | a listed name stands for exactly the path, or the subfolder, it names |
| SecretTree.ChildNamesExactly | internal/store/secrets.go:698-732 | a folder lists exactly the paths directly in it by their last component and the subfolders that lead to a path by name and slash |
| Text.LessIsLexicographic | internal/store/secrets.go:725-731 | the order of the listing is the lexicographic one of the characters |
| Access.CanAccess | internal/store/resources.go:218-252 | the search with early return decides as the policies allow |
| Access.RolesDecide | internal/store/resources.go:218-252 | administrators and managers may do all, auditors list, and members what a rule that matches the path names |
| Access.WildcardMatches | internal/store/resources.go:254-264 | a pattern that ends in a star matches exactly the paths that begin with what stands before it |
| Access.SimulateAccess | internal/store/policy_simulation.go:30-85 | the accumulating loops give the specified matches and verdict |
| Access.SimulationVerdict | internal/store/policy_simulation.go:30-85 | an invalid path or capability is refused; nothing is allowed to an inactive user, the role decides for all but members, a member is allowed what canAccess allows, and the matches are exactly the reports on its matching rules |
| Access.CapabilitiesForPaths | internal/store/capabilities.go:12-66 | the nested loops give the specified table |
| Access.SelectInOrder | internal/store/capabilities.go:10-66 | a path's capabilities appear in the fixed order |
| Access.RepeatCounts | internal/store/capabilities.go:47-66 | in the answer for a path that is named several times each capability occurs that many times |
| Access.DecidersAgree | internal/store/policy_simulation.go:30-85 | for every active user, valid path and valid capability the three evaluators agree, in any order of the policies |
| Access.SqlMatchesAsGo | internal/store/secrets.go:441-455 | the SQL path predicate equals pathMatches on trimmed paths |
| Access.ListQueriesAgree | internal/store/audit.go:93-110 | on stored paths that are not empty and have no outer slash, and with stored documents that spell their keys exactly, the list and dashboard queries show exactly those on which "list" is allowed |
| PolicyPaths.PatternsAgreeExactly | internal/store/resources.go:254-264 | the SQL path expression equals pathMatches on every pattern if and only if the stored path has no outer slash |
| PolicyPaths.PathsAgreeExactly | internal/store/secrets.go:441-455 | Go and SQL agree on a stored path for every document accepted with exact keys if and only if the path is not empty and has no outer slash |
| PolicyPaths.SlashedSecretDisagrees | internal/store/resources.go:254-264 | on a secret stored as "/a" the accepted pattern "a" lists in Go and not in SQL |
| PolicyPaths.EmptyPathDisagrees | internal/store/resources.go:113-145 | a document accepted with exact keys but stored without its rule's path lists the empty path in Go and not in SQL |
| Access.CheckPolicy | internal/store/resources.go:113-132 | the loops accept exactly named policies whose document decodes to rules with a path and known capabilities |
| Access.AcceptableExactly | internal/store/resources.go:113-132 | a policy is acceptable if and only if its name is not blank and its document decodes to rules with a path that is not blank and none but the eight capabilities |
| Access.AcceptedIsStoredDecodable | internal/store/resources.go:113-145 | what PutPolicy accepts is stored so that Go decodes it, and with exact keys if it was written with them |
| PolicyDocument.DecodesExactly | internal/store/resources.go:118-121 | Go decodes a document if and only if its recognised fields have the right types |
| PolicyDocument.UnmarshalReads | internal/store/resources.go:239-243 | of a document that spells no field twice Go reads each rule off its own item |
| PolicyDocument.ReadAlikeExactly | internal/store/secrets.go:442-455 | Go and SQL read the same listing patterns off such a document if and only if its listing rules stand behind exactly spelt keys |
| PolicyDocument.StoringIsIdempotent | internal/store/resources.go:140-145 | storing what jsonb holds changes nothing |
| PolicyDocument.StoredFormExists | internal/store/resources.go:140-145 | every document has a stored form |
| PolicySpelling.SpellingDecides | internal/store/resources.go:113-145 | however the three keys of a rule for everything are spelt, PutPolicy accepts it and Go lists all; the queries do so if and only if the spelling is exact |
| PolicySpelling.SecondSpellingHides | internal/store/secrets.go:442-455 | any second spelling stored behind "paths" can empty what Go reads, in an accepted document whose secrets SQL still lists |
| PolicySpelling.LongSIsLater | internal/store/resources.go:113-145 | "paths" spelt with a long s is such a second spelling |
| PolicySpelling.KeysAreSafeExactly | internal/store/resources.go:113-145 | Go and SQL agree on every accepted document over a set of keys if and only if the set spells no field otherwise than exactly |
| PolicySpelling.SingleRuleAgreesExactly | internal/store/secrets.go:442-455 | for a document with one listing rule and no field spelt twice, Go and SQL agree on every path if and only if that rule is exactly spelt |
| PolicySpelling.UndecodablePolicyDisagrees | internal/store/resources.go:235-243 | a document PutPolicy refuses, on which Go and SQL would differ |
| StreamReader.ReadChunks | web/src/lib/api.ts:67-94 | the buffered loop handles exactly the complete lines of the joined text, in order |
| StreamReader.LinesResume | web/src/lib/api.ts:73-75 | carrying the remainder over a chunk boundary loses and repeats no line |
| StreamReader.SessionHearsLines | web/src/lib/api.ts:67-94 | after any chunks the reader has handled exactly the complete lines so far and holds the rest |
| StreamReader.ChunkingIsUnobservable | web/src/lib/api.ts:67-94 | two ways of cutting one text leave the reader with the same pending line and the same chunks heard |
| StreamReader.LinesSpellText | web/src/lib/api.ts:74-75 | the lines handled and the pending rest spell the text: none lost, repeated, split or reordered |
| StreamReader.DataLineHandsOn | web/src/lib/api.ts:76-93 | a "data:" line hands on the content of its JSON payload if it has one, the payload itself if it is no JSON or null, and nothing for the end mark, whatever white space stands around it |

## Left out

- HTTP routing, cookies, headers, sessions, OIDC, MCP, webhooks and the React pages: input and output only.
- The description, tag, environment and risk columns and account details: nothing modelled reads them. Of the application and owner columns only the references are kept, which a write must find.
- The value of the application and owner columns, and clearing them when their row goes: only the list query's joins read them.
- The refusals that protect the last active administrator and the own account: the model lets any edit of an account through, so its theorems cover more runs than the program has.
- The audit log, dashboard counts, joins and pagination of the list queries: single statements.
- Settings, list-entry marking, snippet origins, host lists, placement of snippets, envelope encoding, batch counting of transit items, transit permission checks at the HTTP layer and the master-key sentinel: easy members.
- JSON outside policy documents: secret data, metadata and payloads are opaque; a payload is what was encoded. Of texts PostgreSQL cannot store (with a NUL) a write says only that it has them.
- PolicyDocument.UnmarshalReads: the merging that encoding/json does when a field is spelt twice is modelled, but what it comes to is stated only where no field is.
- Access.ListQueriesAgree: stated for paths that are not empty and have no outer slash. Only an approved payload can store another, and there Go and SQL differ (see above).
- Real cryptography, timing and randomness: encryption is symbolic, the HMAC is any function to 32 bytes, and sealed values appear as bytes through any injective `Wire` of at least tag length.
- The permission maps of transit requests: they arrive as the four flags they are reduced to.
- Lock order and isolation inside PostgreSQL: transactions are atomic steps.
- Goroutines on the in-memory tables: each method holds the mutex from start to end, so calls are atomic steps.
- Tracking text beyond ASCII letters: lowering is ASCII only; the origin of a URL and the trimming of the page are inputs.
- Integer widths: version numbers, counters and times are unbounded, except where a reader checks MaxInt.
- LoginHistory.NeverExceedsCapacity: stated for a limit, window and capacity of at least 1; `DefaultCapacity` is the case of the program's values.
- Transit.TransitStore.TransitEncrypt: the round trip is stated for key versions up to MaxInt, the largest the reader accepts.
- Transit.TransitRoundTrip: see the line above.
