# Fuin: a Dafny model of the vault, its audit log and its codecs

Fuin is a local secrets manager. It keeps versioned, envelope-encrypted secrets
in one SQLite file, next to a signed audit log with a Merkle tree over it. This
project models the logic between the libraries and proves what that logic is
for:

* `Vault` is the vault as a program: tables, session keys and a saved snapshot,
  updated in place inside transactions. Every storage, clock and sealing step
  takes its success from an arbitrary function, so atomicity is proved.
* `VaultSpec` says what each operation does when nothing fails,
  `VaultRefinement`, `VaultOperations` and `VaultSuccess` relate that to a
  simple vault (a shelf of versions per name), and `VaultRuns` carries it
  through whole runs. `KekRotation`, `AutoRotation`, `StandingClock` and
  `Unlocking` do the same for the operations that touch many rows or the session
  keys.
* `OperationLog` says what each operation writes to the audit log, and
  `StoredRows` what a stored row carries besides its plaintext.
* `SecretsTable` is the `secrets` table with its queries and constraints, and
  `Interleaving` lets processes interleave their unlocked reads with each
  other's transactions on it.
* `AuditEntry`, `AuditChain` and `Merkle` are the entry encoding, the
  hash-chained and ratchet-signed log, and the tree with its proofs.
* `CryptoEngine` and `KeyManager` are envelope encryption, key commitment and
  re-wrapping.
* `Capsule`, `EditDistance`, `Base32` and `Scope` are the backup capsule, the
  command suggestion, the Base32 decoder and the token scope matcher.

## How to read it

Cryptography is a record of arbitrary functions (`Primitives.Prims`). The only
law assumed is AEAD correctness, with ciphertexts one tag longer than their
plaintexts. Nothing assumes a hash to be injective, which no 32-byte hash is.
A statement that rests on collision freedom instead returns two different
inputs with one digest, whenever its conclusion fails.

The `secrets` table is a sequence in insertion order and `History(rows, name)`
is the sub-sequence of one name's rows. `RowsInRange`, `VersionsPresent` and
`VersionsAscend` say in plain terms what the structural invariant means row by
row. Queries are functions of the table; row order does not influence any
result, because ids are unique. Timestamps are numbers up to the last second of
the year 9999, the limit of the fixed-width text the code compares.

An operation's `Outcome` function gives the tables after success and None for
failure. The matching class method is written step by step, with its own
transaction, and is proved to end in exactly that state or in the state it
started from. The repeated size and append statements of
`audit_build_entry_bytes` are loops over the list of fields here, and the three
copies of the "seal, archive, insert, log" sequence are one method. Action,
result and algorithm strings are enumerations with their texts attached, and an
extra case for any other string.

Every lemma switches Dafny's automatic induction off, so a proof uses the
recursive calls its body writes out and no others.

Two facts about the code came out of the proofs. The first is that
auto-rotation is not sure to end, though it does as soon as the clock has passed
for good the time captured at the start (`AutoRotation.CaughtUpClockEnds`). A
turn takes its secret off the expired ones exactly when the secret is due by the
turn's own clock and its new expiry, if it has one, lies after the captured time
(`AutoRotation.TurnRotates`). A clock that never reads earlier than the captured
time always does so; one that was set back may not. `StandingClock` says what
happens under a clock that stands still, its two readings in a turn being `now`
and `later`:

* The loop succeeds exactly when the clock renews every expired secret and no
  step fails (`StandingClock.SucceedsExactlyWhen`).
* A secret that is due and whose new expiry, an interval after `later`, is past
  neither `now` nor the captured time runs away: it or another due secret gains
  a version in every turn until a step fails, at the latest when the versions
  run out (`StandingClock.RunawayEnds`). This takes a second reading an interval
  before the first.
* Any other secret gains one version at most (`StandingClock.GainsAtMostOne`).
  If one of them is not renewed and none runs away, the loop goes on for ever
  unless a step fails (`StandingClock.EndsExactlyWhen`).

With the captured time 100, the clock then standing at 90, and an only secret
that expired at 50: an interval of 5 rotates it once, to an expiry of 95, and
the loop never succeeds (`StandingClock.SetBackNeverSucceeds`); an interval of
20 gives an expiry of 110 and the loop ends (`StandingClock.SetBackStillEnds`);
an interval of 5 with second readings of 60 adds versions until one fails
(`StandingClock.SetBackRunsAway`).

The second is that re-signing binds each entry id as a 32-bit int. It signs every row when all ids
fit (`AuditChain.ResignSignsAll`) and never signs a row whose id does not
(`AuditChain.ResignMissesLargeIds`), even when it reports success: with ids 1 and
4294967297 both updates hit the first row (`AuditChain.ResignedButUnsigned`).
So with ids 1..n it works exactly on logs
of at most 2147483647 entries (`AuditChain.ResignInOrder`), and with it KEK
rotation (`KekRotation.RotateKekSucceedsWhen`).

## Model

| member | source | states |
|---|---|---|
| VaultRuns.VaultRefinesShelves | src/vault.c:1443-3191 | after any run of put, get, get_version, delete, rollback, auto-rotate and rotate-kek, with any steps failing, each name's versions and activity are what a simple append-only shelf computes from the run's changes |
| VaultRuns.StepRefines | src/vault.c:1957-3030 | one command, successful or failed, keeps the invariant and moves the shelves by exactly the changes it stands for; the name key never changes |
| VaultRuns.VersionsAreForever | src/vault.c:2145-2162 | a version once stored is returned unchanged by every later successful get_version, across KEK rotations |
| VaultRuns.LogReconstructsTable | src/vault.c:2048-2115 | replaying the audit log of any run gives each name's exact highest version and active state, and each logged step fits the ones before it |
| VaultOperations.GetReturnsActive | src/vault.c:2131-2143 | get succeeds exactly when a version is active, the buffer holds it and the read can be logged, and returns the active plaintext |
| VaultOperations.GetVersionReturnsVth | src/vault.c:2145-2162 | get_version(v) succeeds exactly for stored versions, active or not, and returns the v-th plaintext |
| VaultOperations.PutAdds | src/vault.c:1957-2129 | put adds one version with the given plaintext to one name and leaves every other name alone |
| VaultOperations.PutLeavesOthers | src/vault.c:1957-2129 | put touches no other user name's shelf, unless the two names collide under the name key |
| VaultOperations.NamesApart | src/vault.c:146-175 | two user names share a stored name only when they collide under the name key |
| VaultOperations.RollbackCopies | src/vault.c:2618-2790 | rollback(v) appends a copy of version v and makes it active, even after a delete |
| VaultOperations.RotateCopies | src/vault.c:1617-1770 | rotating an expired secret copies its active version, algorithm and interval; one not yet due is left alone with success |
| VaultOperations.DeleteRemoves | src/vault.c:2164-2234 | delete needs an active version, keeps every version and leaves none active |
| VaultSuccess.PutSucceedsWhen | src/vault.c:1957-2129 | put succeeds if and only if the name is clean, the lifetime representable, no step fails and the version, log, id and size limits hold, the size limit being that the ciphertext fits an int |
| VaultSuccess.RollbackSucceedsWhen | src/vault.c:2618-2790 | rollback succeeds if and only if the version exists, no step fails and the same limits hold |
| VaultSuccess.DeleteSucceedsWhen | src/vault.c:2164-2234 | delete succeeds if and only if the name is active, no step fails and the log has ids left |
| VaultSuccess.WriteSucceedsWhen | src/vault.c:2020-2106 | in a sequential run the table constraints and the log never turn away a write within the limits, the int-sized blobs included |
| VaultRefinement.WriteKeeps | src/vault.c:2067-2106 | archive, insert and log together append exactly the drafted plaintext and keep rows readable, structured and in step with the log |
| VaultRefinement.LoggedKeeps | src/vault.c:110-125 | an entry that describes the table change keeps the log verified and telling the exact state of every name |
| VaultRefinement.AppendedRow | src/vault.c:110-125 | a logged operation adds one entry: its action, target and version, the default actor, SUCCESS and the time read |
| OperationLog.PutLogs | src/vault.c:2105-2107 | put logs UPDATE when a version was active and CREATE exactly when none was, with the new version |
| OperationLog.RollbackLogs | src/vault.c:2755-2770 | rollback logs ROLLBACK with the new version |
| OperationLog.RotateLogs | src/vault.c:1742-1753 | rotating a due secret logs ROTATE_DEK with the new version; one not due logs nothing |
| OperationLog.DeleteLogs | src/vault.c:2211-2214 | delete logs DELETE with the version that was active |
| OperationLog.GetLogs | src/vault.c:1474-1479 | get logs READ with the active version |
| OperationLog.GetVersionLogs | src/vault.c:1474-1479 | get_version logs READ with the version asked for |
| OperationLog.RotateKekLogs | src/vault.c:2971-3002 | rotate-kek adds one ROTATE_KEK entry about "vault" and alters nothing else in the log but signatures |
| OperationLog.RotationNeedsVerifiedLog | src/vault.c:2971-2980 | a rotation succeeds only on a log that verified under the old audit key |
| StoredRows.WriteDraws | src/vault.c:2020-2106 | a written row is sealed under the drawn DEK, with drawn nonces and the drawn id, and has the times read and the expiry counted from the second reading |
| StoredRows.PutDraws | src/vault.c:1957-2129 | put's row also shows, under its drawn name nonce, exactly the user's name |
| StoredRows.DisplayNamesOpen | src/vault.c:180-262 | after any run every row's display name opens, with its stored name as associated data, to a name looked up under that stored name |
| StoredRows.GcmNoncesApart | src/crypto_engine.c:270-298 | after any run two versions of one name sealed with AES-GCM have different payload nonces |
| VaultSpec.CleanNamesAreSafe | src/vault.c:1932-1955 | control bytes are refused in names; printable ASCII and bytes from 0x80 are allowed, up to 256 |
| VaultSpec.DueFromExpiry | src/vault.c:1549-1557 | a secret is due from its very expiry on |
| Vault.Vault.Put | src/vault.c:1957-2129 | the in-place put ends in the put outcome or, after any failure including commit, in the state it started from |
| Vault.Vault.Rollback | src/vault.c:2618-2790 | likewise for rollback |
| Vault.Vault.Delete | src/vault.c:2164-2234 | likewise for delete, with NOT_FOUND when nothing is active |
| Vault.Vault.Get | src/vault.c:1443-1485 | the plaintext is in the buffer exactly when the read is logged; otherwise nothing is returned or changed, and plaintext already decrypted is zeroed |
| Vault.Vault.GetVersion | src/vault.c:1443-1485 | likewise for a numbered version |
| Vault.Vault.RotateExpired | src/vault.c:1617-1770 | likewise for the rotation of one expired secret |
| Vault.Vault.AutoRotateExpired | src/vault.c:3154-3191 | the captured clock reading and then the loop, one query and one rotation a turn, end as the turn-by-turn loop does, with its count or with a failure; demanded is only that this loop ends |
| Vault.Vault.RotateKek | src/vault.c:2939-3030 | tables and session keys both change or both stay, whichever step fails, commit included |
| Vault.Vault.RewrapAll | src/key_manager.c:587-770 | the row loop re-wraps every row in place or reports failure |
| Vault.Vault.EndTransaction | src/vault.c:2109-2116 | commit keeps the changes only when every step and the commit succeeded; otherwise the saved tables are back |
| Vault.Vault.Initialise | src/vault.c:1784-1913 | a file without credentials is either fully initialised and unlocked or untouched and locked, whatever else it holds; any other file is unlocked with its credentials |
| Vault.Vault.Unlock | src/vault.c:1784-1908 | unlocking recovers the session keys or leaves the vault locked, with the code of the step or check that failed, noting a wrong password included |
| Unlocking.UnlocksExactlyWhen | src/vault.c:1784-1908 | unlocking succeeds if and only if the file and the password allow it and no step fails, and then yields the keys they determine |
| KekRotation.RotateKekKeeps | src/vault.c:2939-3030 | after a KEK rotation every version reads the same under the new keys, the name key is carried over, the log verifies under the new audit key with its hashes unchanged and exactly one added ROTATE_KEK entry |
| KekRotation.RotateKekSucceedsWhen | src/vault.c:2939-3030 | a rotation succeeds if and only if no step fails and the log is within the 32-bit bound |
| KekRotation.TableRotates | src/key_manager.c:587-770 | every readable table can be re-wrapped, and reads alike afterwards, each row with the DEK it had, sealed under the new KEK with the nonce drawn for that row |
| KekRotation.NoncesApart | src/key_manager.c:420 | two re-wrapped rows of one algorithm share a DEK nonce only if their draws share it |
| KekRotation.RotatedTables | src/vault.c:2971-3010 | a rotation stores the new salt and verifier and the name key sealed under the new KEK with its drawn nonce |
| KekRotation.LogRotates | src/audit.c:1191-1420 | re-signing then appending keeps every hashed field and yields a log verified under the new key |
| Unlocking.InitialisedUnlocks | src/vault.c:1838-1893 | the first password unlocks the vault it initialised, which then is a fresh vault |
| Unlocking.RotatedUnlocks | src/vault.c:525-592 | after a rotation the new password recovers exactly the new session keys with the old name key; any password that unlocks leads to the same master key or to one that collides with it |
| Unlocking.WrongPasswordRefused | src/vault.c:1840-1853 | a password with another master key, barring a collision, is refused before any subkey is derived, with AUTH once the failure is noted |
| Unlocking.InitialisedRefuses | src/vault.c:1840-1893 | so it is for every other password on an initialised vault |
| Unlocking.RotatedRefuses | src/vault.c:1840-1853 | and on a rotated one |
| Unlocking.SubkeysApart | src/vault.c:1838-1893 | the session's three keys come from subkeys 1, 2 and 4 |
| AutoRotation.AutoRotateEffect | src/vault.c:3154-3191 | when every turn's clock renews the expired secrets, success leaves none expired at the captured time, the count is their number at the start, each gained one copy and all other names are untouched; one turn more than there are expired names suffices |
| AutoRotation.TurnRotates | src/vault.c:1617-1770 | a successful turn copies the active version if it is due by the turn's clock and changes nothing if not, and takes its name off the expired ones if and only if that clock renews it |
| AutoRotation.AutoRotateAnyClock | src/vault.c:3154-3191 | under any clock the loop only adds copies of active versions to names expired at the start; on success each gained one or more, none is expired any more and the count is at least their number |
| AutoRotation.ForwardClockServes | src/vault.c:3171-3184 | a clock that never reads earlier than the captured time renews every expired secret |
| AutoRotation.ServedLoopEnds | src/vault.c:3171-3184 | the loop ends under any clock that renews every expired secret |
| AutoRotation.StuckNeverDone | src/vault.c:1651-1692 | a secret no turn can renew keeps the loop from ever ending well, however many turns it gets |
| AutoRotation.CaughtUpClockEnds | src/vault.c:3171-3184 | whatever it read before, once the clock has passed the captured time for good the loop ends |
| StandingClock.SucceedsExactlyWhen | src/vault.c:3171-3184 | under a standing clock the loop succeeds if and only if the clock renews every expired secret and no step fails in one turn for each and one more |
| StandingClock.EndsExactlyWhen | src/vault.c:3171-3184 | when looking for work does not fail, it ends if and only if every expired secret is renewed, some secret runs away, or a rotation fails in one turn for each |
| StandingClock.RunawayEnds | src/vault.c:1651-1692 | a secret that every rotation leaves due and expired is rotated until a step fails, so the loop ends in a failure |
| StandingClock.GainsAtMostOne | src/vault.c:1651-1692 | any other secret gains at most one version in any number of turns, and none unless it was expired and due |
| StandingClock.PicksDue | src/vault.c:1559-1566 | the ordered query picks a secret due by the clock as long as there is one |
| StandingClock.SetBackNeverSucceeds | src/vault.c:3171-3184 | captured at 100, clock at 90, expiry 50, interval 5: one version more at most, no success, and no end unless a step fails |
| StandingClock.SetBackStillEnds | src/vault.c:3171-3184 | the same with an interval of 20 ends within two turns |
| StandingClock.SetBackRunsAway | src/vault.c:3171-3184 | an interval of 5 with second readings of 60 ends in a failure |
| AutoRotation.ClockBehindNeverEnds | src/vault.c:1657-1660 | while the clock reads before the picked expiry a turn changes nothing, and no number of turns ends the loop |
| AutoRotation.ExpiredMeans | src/vault.c:44-46 | the active-row query finds a name expired exactly when its last version is unarchived and due |
| AutoRotation.PicksFirst | src/vault.c:1559-1566 | the query picks an expired row that no other comes before, by expiry and then by name |
| Interleaving.InterleavedTablesAreStructural | src/vault.c:2020-2106 | under every interleaving of unlocked reads and transactions, versions per name are exactly 1..n with matching counters and at most the n-th is unarchived |
| Interleaving.OnlyFreshWritersCommit | src/vault.c:2020-2106 | a put, rollback or rotation that changes the table carried the true next version; a put finds an active row exactly when it had found one, a rotation finds one; the new history is the archived old one and the row; staler jobs change nothing |
| Interleaving.UndisturbedJobCommits | src/vault.c:2020-2106 | a put, rollback or rotation no other process disturbs commits its row as the name's last |
| Interleaving.LookSeesTable | src/vault.c:866-960 | the first query tells the truth of its moment, and only a put goes on with nothing found |
| Interleaving.BoundsSeeTable | src/vault.c:1005-1057 | the second query remembers the next version unless none is left |
| Interleaving.DeleteKeepsVersions | src/vault.c:2201-2217 | a delete, however stale, changes the table exactly when some row of the name is active then; only that row changes, in its archived flag and time, and no other name is touched |
| Interleaving.HistoriesNeverShrink | src/vault.c:1113-1243 | no event under any interleaving shortens a name's history |
| SecretsTable.SupersedeKeeps | src/vault.c:2067-2099 | a row at most one version ahead is accepted only as the next version after a fully archived history |
| SecretsTable.SupersedeAccepts | sql/schema.sql:26-59 | the next version with a new id is always accepted |
| SecretsTable.Queries | src/vault.c:879-1057 | active row, bounds and versions are all read correctly off a well-structured table |
| SecretsTable.RowsInRange | src/vault.c:44-46 | counters equal versions, and an unarchived row is the highest version of its name |
| SecretsTable.VersionsPresent | src/vault.c:1005-1057 | every version up to the highest exists |
| SecretsTable.VersionsAscend | sql/schema.sql:26 | no version of a name occurs twice |
| SecretsTable.RekeyKeeps | src/key_manager.c:597-599 | replacing only the sealed secrets keeps the structure |
| AuditEntry.EntryRoundTrip | src/audit.c:220-355 | the bytes of every encodable entry are read back to that entry with defaults applied and to its hash field |
| AuditEntry.EncodeInjective | src/audit.c:220-355 | equal bytes mean equal entries, and a hashed encoding never equals a signed one |
| AuditEntry.BuildEntryBytes | src/audit.c:220-355 | the two passes succeed exactly on encodable entries, fill the computed total and write nothing outside it |
| AuditEntry.TextsRoundTrip | src/audit.c:126-160 | the accepted action and result strings are pairwise different |
| AuditChain.ReachableLogVerifies | src/audit.c:1041-1590 | every log reachable by appends under the current key and re-signings verifies under the current key, with ids 1..n |
| AuditChain.LogStepKeeps | src/audit.c:1041-1420 | no step alters a recorded hash, so Merkle leaves survive |
| AuditChain.AppendKeepsVerified | src/audit.c:1041-1189 | the count-indexed ratchet signs what the step-by-step verifier expects |
| AuditChain.ResignedVerifies | src/audit.c:1191-1420 | re-signing a linked log gives a log verified under the new key with the same hashes |
| AuditChain.LastHashPinsLog | src/audit.c:1511-1568 | two accepted logs with one last hash have one length and agree in every hashed field, or inputs that collide or hash to zero are returned |
| AuditChain.LastHashPinsOrderedLog | src/audit.c:1511-1568 | with ids 1..n a collision is the only way out |
| AuditChain.DeriveRatchet | src/audit.c:192-218 | entry i's key is the audit key hashed i times |
| AuditChain.RatchetAdds | src/audit.c:170-218 | each step is one hash, and hashing on from entry i's key gives entry i + j's |
| AuditChain.SignaturePinsEntry | src/audit.c:1540-1575 | one signature under one ratchet key stands for one entry, or two messages collide under the MAC |
| AuditChain.AuditLog.LogEvent | src/audit.c:1041-1189 | appends exactly one linked and signed row, or changes nothing |
| AuditChain.AuditLog.Verify | src/audit.c:1422-1590 | accepts exactly the verified logs, otherwise reports the first bad row's status |
| AuditChain.AuditLog.ResignChain | src/audit.c:1191-1420 | on any table, re-signing succeeds exactly when the log is linked and every update changes one row, and leaves the rows those updates leave |
| AuditChain.ResignSignsAll | src/audit.c:1191-1420 | a linked log whose ids fit an int has every row signed anew, gaps in the ids or not |
| AuditChain.ResignMissesLargeIds | src/audit.c:1373-1400 | a row whose id does not fit an int keeps its old signature whenever re-signing succeeds |
| AuditChain.ResignedButUnsigned | src/audit.c:1373-1400 | a linked log with ids 1 and 0x1_0000_0001 is re-signed with success, both updates hitting row 1, and no longer verifies |
| AuditChain.ResignInOrder | src/audit.c:1373-1400 | with ids 1..n re-signing succeeds if and only if the log is linked and has at most INT_MAX rows |
| Merkle.ProofComplete | src/audit.c:910-1039 | for every log and index the built proof is accepted, and fits the 64-hash buffer for every count the loader admits |
| Merkle.ProofClimbsToRoot | src/audit.c:910-970 | the verifier consumes exactly the emitted siblings, one per level |
| Merkle.HeightIsCeilLog2 | src/audit.c:895-905 | the number of levels is the ceiling of the base-2 logarithm of the leaf count |
| Merkle.VerifierSound | src/audit.c:972-1039 | with the true count only the entry hash at that index and the builder's own proof are accepted, or a collision is returned |
| Merkle.RootAndCountPinLog | src/audit.c:872-908 | root and count determine every entry hash |
| Merkle.SignedMessagePinsLog | src/vault.c:2583-2616 | the signed root-and-count message stands for one list of entry hashes |
| Merkle.RepeatedLastLeafSharesRoot | src/audit.c:743-790 | the count is needed: an odd list and the list with its last leaf repeated share a root |
| Merkle.RootIsTopDown | src/audit.c:743-905 | level-by-level reduction equals the top-down tree that pairs a missing right half with the left |
| Merkle.LeafIsNoNode | src/audit.c:518-575 | leaves and nodes are hashed with 0x00 and 0x01 in front, so a leaf taken for a node is a collision |
| Merkle.ReduceLevel | src/audit.c:743-790 | the loop fills a fresh level with the parents |
| Merkle.ComputeRoot | src/audit.c:872-908 | the loop computes the root and count, all zero for the empty log |
| Merkle.BuildProof | src/audit.c:910-970 | for one entry id: its place, the count and the proof, or NOT_FOUND for an unknown id, or a zeroed buffer when the proof does not fit |
| Merkle.VerifyProof | src/audit.c:972-1039 | the loop accepts exactly the accepted proofs |
| CryptoEngine.DecryptOfEncrypt | src/crypto_engine.c:525-799 | encrypt then decrypt is the identity for every usable algorithm and any buffer that holds the plaintext |
| CryptoEngine.EncryptUsesDraws | src/crypto_engine.c:525-654 | the drawn DEK is what the KEK seals and what seals the payload; nonces are the drawn ones, and an AES-GCM payload nonce is the identity prefix and the counter |
| CryptoEngine.GcmNonceCounts | src/crypto_engine.c:270-298 | equal AES-GCM nonces force equal counters |
| CryptoEngine.DecryptedIsCommitted | src/crypto_engine.c:656-799 | what decrypts carries the commitment to its KEK and DEK, and every field has its algorithm's length |
| CryptoEngine.RecordBindsPlace | src/crypto_engine.c:656-799 | a record decrypting at two identities or versions makes the AEAD open one wrapped key under two associated data |
| CryptoEngine.DomainsApart | src/crypto_engine.c:322-354 | the two halves of a commitment never hash one message |
| CryptoEngine.OldSpellingReads | src/crypto_engine.c:89-123 | a record under the old spelling reads as an XChaCha20 record |
| CryptoEngine.DefaultWorksAnywhere | src/crypto_engine.c:55-165 | the default is AEGIS-256 where built and XChaCha20 otherwise, whatever the processor |
| CryptoEngine.OneKekOnePlaintext | src/crypto_engine.c:656-799 | a record decrypts under at most one KEK and to at most one plaintext, or the KEKs collide |
| CryptoEngine.PayloadPinsPlaintext | src/crypto_engine.c:733-799 | payload and DEK commitment pin the plaintext whatever KEK and wrapping they travel with, or the DEKs collide |
| CryptoEngine.AadBindsRow | src/crypto_engine.c:184-255 | a row's AAD names one id, one stored name and one version, or the identity inputs collide |
| CryptoEngine.EncryptWithAlgorithm | src/crypto_engine.c:525-654 | filling the record step by step yields the specified record or error |
| CryptoEngine.DecryptInto | src/crypto_engine.c:656-799 | the buffer receives the whole plaintext and nothing else, or none of it |
| CryptoEngine.NameTextInjective | src/crypto_engine.c:89-123 | the recognised algorithm strings are pairwise different |
| KeyManager.RewrapKeepsPlaintext | src/key_manager.c:667-740 | what decrypts under the old KEK can be re-wrapped and then decrypts under the new one to the same plaintext, payload and DEK commitment unchanged |
| KeyManager.RewrapDraws | src/key_manager.c:367-439 | a re-wrapped DEK is the one that was wrapped, sealed with a prefix of the drawn bytes as nonce |
| KeyManager.ManagedAgrees | src/key_manager.c:56-90 | both modules read stored algorithm names alike; the old spelling is read by the engine alone |
| KeyManager.WrapDek | src/key_manager.c:367-439 | fills the front of the two buffers with the nonce and wrapped DEK; a failed seal zeroes both, an earlier failure leaves both alone |
| KeyManager.UnwrapDek | src/key_manager.c:441-513 | recovers the DEK into the front of a buffer of any sufficient size, or zeroes the buffer |
| KeyManager.RewrapRow | src/key_manager.c:515-585 | the rotation loop's fixed buffers are always large enough |
| Capsule.ParseOfSerialize | src/backup.c:1174-1374 | parsing what export assembles returns the same encapsulation, nonce, root and ciphertext |
| Capsule.SerializeOfParse | src/backup.c:1303-1374 | re-serialising any accepted capsule reproduces it byte for byte |
| Capsule.Import | src/backup.c:1303-1374 | on arbitrary bytes every slice lies inside and the result, error kinds included, is the specified one |
| Capsule.Assemble | src/backup.c:1136-1227 | export's assembly yields the serialised capsule, sealed over exactly the bytes before the ciphertext |
| Capsule.BuildFixedHeader | src/backup.c:936-971 | the cursor writes exactly the 44 header bytes |
| Capsule.HeaderFields | src/backup.c:936-971 | where each length lies in the header, and what it reads back as |
| Capsule.CapsuleSlices | src/backup.c:871-1227 | where header, algorithm, encapsulation, nonce, root and ciphertext lie in a capsule |
| EditDistance.DistanceIsShortestScript | src/main.c:889-925 | for strings of up to 62 bytes the reported distance is the cost of some edit script and of none cheaper; longer ones are reported as 64 |
| EditDistance.EditDistance | src/main.c:889-925 | the two-row loop computes that distance for strings of up to 62 bytes, and 64 otherwise |
| EditDistance.ClosestCommand | src/main.c:928-947 | the first table entry of minimum distance when that is at most two, and nothing otherwise |
| Base32.DecodeOfEncode | src/utils.c:309-369 | decoding inverts section 6 of RFC 4648 in either case and with white space anywhere |
| Base32.DecodesExactlyWellFormed | src/utils.c:309-369 | a text decodes if and only if it holds white space, '=' and alphabet symbols only and no symbol follows a '=' |
| Base32.AlphabetIsRfc | src/utils.c:335-345 | symbol values are positions in the alphabet of section 6 of RFC 4648 |
| Base32.TwoSymbols | src/utils.c:350-361 | bits go most significant first: two symbols v and w give the byte 8v + w/4 |
| Base32.Decode | src/utils.c:309-369 | the loop with the wrapping accumulator outputs the symbols' bits regrouped into bytes, fewer than eight bits pending after each symbol; a text with a prefix that decodes to more than fits leaves the buffer zeroed |
| Scope.JoinedGrants | src/access.c:510-534 | a comma-joined grant list allows exactly what either part does |
| Scope.ScopeAllows | src/access.c:510-534 | the cursor loop allows a request exactly when one comma-separated part grants it |
| Scope.OneScopeMeans | src/access.c:465-508 | one grant is the star, or an action and pattern split at the first colon that cover the request |
| Scope.ResourceMatchesIsCovers | src/access.c:427-463 | p* covers r exactly when p is a prefix of r up to a segment boundary, reading no further than r's terminator |
| Common.LeAt | src/utils.c:21-28 | byte i of a little-endian number is the number divided by 256 to the i, modulo 256 |
| Common.DecimalShows | src/crypto_engine.c:218-255 | the version in the associated data is written in decimal, most significant digit first |

## Left out

- SQLite itself: a transaction is a saved copy of the tables; ROLLBACK is taken to restore it. WAL files, permissions and schema checks are not modelled.
- Argon2id, SHA-256, BLAKE2b, HMAC, the AEADs, ML-KEM, X25519 and ML-DSA are arbitrary functions; memory allocation, locking, zeroing of locals and constant-time comparison are not modelled.
- Damaged `secrets` rows: name nonce, encrypted name and text columns are read back as they were written; lengths of sealed fields are checked as in the code.
- Vault.Vault.AutoRotateExpired: has no run that does not end, because a method has to; AutoRotation says when the loop does not.
- Exact error codes: beyond success, failure and the codes named in the contracts, the methods return the code of the failing step without a contract about it.
- Interleaving is structural: values and the audit chain are covered for sequential runs.
- The failed-login table, but for whether its insert fails, token revocation, listing, expiry warnings, the security report, TOTP and password generation.
- Token JSON, PEM key files, capsule file reading and its size limit, and the command line apart from the suggestion; the command table is a parameter.
- Calendar conversion: timestamps are numbers, and log entries carry an arbitrary 20-byte stamp.
