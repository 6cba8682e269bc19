# Verified model of the WhatsApp session store

This project models the persistence layer of the bot: the SQL tables that hold one
account's state, and the caches, allocators and batch writers that the Go code puts in front
of them. It proves that the caches cannot be told from the tables, that batches and
migrations mean what they should in every order, and that identifiers are handed out safely.

Run `dafny verify dfyconfig.toml` to check everything.

## How it is built

Each component has value-level modules, where tables are maps, SQL statements are functions
on them and the theorems are lemmas, and a class whose methods do the work in place as the
Go code does.  Their contracts say in columns, keys, devices and failing steps what a call does,
and tie every new state to those functions.

| modules | component |
|---|---|
| `LidTable`, `LidCache`, `LidPuts`, `LidBatch`, `LidRollback`, `LidRows`, `LidMap`, `LidRuns`, `LidClash`, `LidSteps`, `LidLinear`, `LidCommits`, `LidBulkRace` | the PN/LID mapping: table, two caches and the filled flag, puts and their evictions, batches, rollbacks, the contracts row by row, the class, whole runs, batches that contradict themselves, threads |
| `SortedIds`, `PreKeys`, `PreKeyRuns`, `PreKeySteps` | one-time pre-keys: allocation, upload protocol, interleaving |
| `SqlText`, `Rekey`, `RekeyStore` | `replace()` and `LIKE`, re-keying a phone number to its LID, the three-table migration |
| `SessionCache`, `SessionStore` | the write-back session cache of a context |
| `Contacts`, `ContactRows`, `ContactStore`, `ContactSteps` | the contact cache: values, the contracts column by column, the class, threads |
| `MassInsert`, `PrivacyTokens`, `AliasLookup` | placeholder layouts of multi-row inserts, the privacy-token merge, lookups under both identities of a user |
| `Version` | version text |
| `Sql` | optional values, results, and where a database call can fail |

## Conventions and assumptions

- The SQL dialect is SQLite, which the bot uses (`main.go`): `LIKE` ignores the case of ASCII
  letters, upserts of a multi-row statement happen row by row, and `replace()` with an
  empty pattern changes nothing.
- Tables show the rows of one account, except that the re-keyed tables keep the owner in
  the key so that other accounts' rows can be seen to stay. Primary keys are map keys;
  UNIQUE, CHECK and upsert clauses are modelled where they decide something.
- The database chooses. Where a result depends on row order or map iteration order, the order
  is a parameter and the theorems hold for every order; where a call can fail, the failing
  step is a parameter, and a rolled-back transaction restores the tables it touched.
- No other process writes these tables, and no outer transaction around a cached call rolls
  back later.
- Pre-key IDs are below 2^24 by the schema, so the 32-bit arithmetic on them cannot wrap and
  natural numbers stand for it.
- JIDs have a user, a device and a server. Byte strings, generated keys and session records
  are values; the session serializer is a parameter that parses what it has serialized.
- The Go helpers whose source is not part of the repository are taken as follows:
  slice deduplication keeps the first occurrence (`LidBatch.BatchOrderIrrelevant` shows that
  consistent LID batches do not depend on it), `ToNonAD` drops the device, and Signal
  addresses read `user:device`.

## Findings

These are properties that the code has only under a condition. The code is kept as it is, and
the exact condition is proved.

- The LID caches take `""` for "nothing cached". A put therefore skips an eviction, and leaves a
  wrong entry behind, if and only if it removes a row that is cached under the empty user
  (`LidPuts.PutKeepsCachesIff`); it takes two puts to get there (`LidPuts.EmptyUserGoesStale`).
  Only the empty user is hurt: entries of all others stay right whatever is put
  (`LidPuts.PutKeepsRight`, `LidRuns.AnyRunAnswers`). A cached absence also passes for a cached
  mapping to the empty LID (`LidPuts.PutRefinesIff`).
- A rolled-back put keeps its cache entries, which are then right only if the row was there
  before (`LidPuts.RolledBackPut`). For any batch of named users the caches are right after a
  rollback if and only if the finished puts had made no row that was not there before and, where
  the caches are complete, had lost none (`LidRollback.RolledBackBatch`). Only users whose rows
  they had changed can be answered wrongly from then on (`LidLinear.LookupLinearizable`), and
  when it was the commit that failed, trying again never reaches the database
  (`LidRollback.RetryOneIff`, `LidRollback.RetryIsLost`).
- A batch has a meaning of its own, and does not depend on what was cached, if and only if it does
  not contradict itself (`LidClash.BatchMeaningIff`, `LidClash.CacheIndependentIff`).
- A bulk lookup answers, as a whole, what the table said at one instant if and only if the cache
  that its first locked section sees knows none of the phone numbers or decides all of them
  (`LidBulkRace.BulkWholeIff`). From every other cache state a put between its two sections makes
  it report one LID for two phone numbers, which no table can say
  (`LidBulkRace.BulkMayMixTables`). Each answer alone was true at some instant of the call
  (`LidLinear.BulkLinearizable`).
- Removing the pre-key with the largest ID lets that ID be issued again
  (`PreKeyRuns.RemovalMayReissue`). The result of a call ascends if and only if, when SELECT MAX
  runs, a live ID is as large as the last one selected (`PreKeySteps.ListAscendsIff`), and names
  no ID twice if and only if no selected ID lies in the range generated above the largest ID
  live then (`PreKeySteps.ListDistinctIff`, `PreKeySteps.RemovalCanRepeatAnId`).
- Migrating to the same user deletes the rows, a number with a letter or a wildcard takes along
  rows of others, and a number that occurs again in the device part of its address is re-keyed
  wrongly. Which addresses are re-keyed as intended is exact, for every phone number and LID
  (`Rekey.RekeyExactIff`, `Rekey.MovableIffNotRepeated`, `Rekey.DeviceEqualToNumberIsLost`).
- `DeleteIdentity` runs the LIKE statement although a statement with an equality exists, so an
  address with an underscore or a letter can delete others (`Rekey.DeleteIdentityExactIff`).
- `ContainsSession` does not see sessions that are waiting in the cache
  (`SessionCache.ContainsRightIff`).
- An empty redacted phone leaves a stale cached absence (`Contacts.PhoneBatchCoherentIff`), in which
  nothing but the Found flag is wrong (`Contacts.PhoneBatchAgrees`).
- `GetMessageSecret` has no order: it is sure to answer the secret stored under an identity if and
  only if no row for the message under the other identities says something else
  (`AliasLookup.AnswerDeterminedIff`).
- The order in which privacy tokens arrive matters if and only if two of the newest ones differ
  (`PrivacyTokens.ArrivalOrderIff`).
- `PutPrivacyTokens` without tokens is a syntax error (`PrivacyTokens.TokenStore.PutPrivacyTokens`).

## Model

| member | source | states |
|---|---|---|
| `LidTable.LookupsInverse` | store/sqlstore/upgrades/00-latest-schema.sql:153-156 | under PRIMARY KEY lid and UNIQUE pn the two single-row queries are inverse partial functions |
| `LidTable.StatementsPut` | store/sqlstore/lidmap.go:48-53 | the delete followed by the upsert never violates UNIQUE and leaves the reference meaning of a put |
| `LidTable.PutRows` | store/sqlstore/lidmap.go:48-53 | a put leaves exactly the new pair and the rows that share neither column with it |
| `LidTable.PutKeepsConstraints` | store/sqlstore/upgrades/00-latest-schema.sql:153-156 | a put keeps pn unique, and keeps users non-empty exactly when both new users are |
| `LidCache.LookupExact` | store/sqlstore/lidmap.go:91-116 | a lookup that does not fail, hit or miss, filled or not, answers what the table says |
| `LidCache.LookupKeepsCoherence` | store/sqlstore/lidmap.go:102-115 | caching a lookup result, positive with its mirror entry or negative, keeps the cache invariant |
| `LidCache.LookupKeepsRight` | store/sqlstore/lidmap.go:102-115 | caching a lookup result keeps the caches right about exactly whom they were right about, whatever users the table has |
| `LidCache.ScanKeepsCoherence` | store/sqlstore/lidmap.go:80-89 | caching any rows of the table in any order keeps the invariant and caches both directions of each |
| `LidCache.ScanExact` | store/sqlstore/lidmap.go:80-89 | a scan caches the delivered rows in both directions and leaves every other entry as it was |
| `LidCache.FillKeepsCoherence` | store/sqlstore/lidmap.go:71-78 | a fill, complete or broken off, keeps the invariant, including that the filled flag means every row is cached |
| `LidCache.BulkExact` | store/sqlstore/lidmap.go:138-195 | for every mix of hits, negative entries, misses and duplicates the bulk lookup has exactly the PN JIDs with a row as keys, each with its LID user; hits keep the device, misses drop it |
| `LidCache.BulkAgreesWithSingle` | store/sqlstore/lidmap.go:91-195 | bulk and single lookup give every PN the same user; the JID of the single lookup is that of the bulk result if and only if the entry was cached or there is no device to lose, and the empty JID where bulk has none |
| `LidPuts.PutEntries` | store/sqlstore/lidmap.go:256-265 | after the evictions the remaining entries of a user agree with the new table if and only if the user is named or the put removes no row cached under the empty user |
| `LidPuts.PutPairs` | store/sqlstore/lidmap.go:256-265 | after the evictions positive entries of the two maps still come in pairs, whatever pair was put |
| `LidPuts.PutFills` | store/sqlstore/lidmap.go:256-265 | evictions do not break the promise of the filled flag |
| `LidPuts.PutKeepsRight` | store/sqlstore/lidmap.go:256-265 | every put keeps the caches right about whom they were right about, except where it takes a row cached under the empty user |
| `LidPuts.PutKeepsCachesIff` | store/sqlstore/lidmap.go:256-265 | right caches stay right if and only if the put is skipped as cached or the empty user has no cached row that it removes |
| `LidPuts.PutCachesPair` | store/sqlstore/lidmap.go:256-265 | from coherent caches a put caches the pair both ways and loses exactly the other entries that name one of its users |
| `LidPuts.EmptyUserGoesStale` | store/sqlstore/lidmap.go:256-265 | two puts from an empty store after which a lookup of the empty LID answers a phone number that has another LID |
| `LidPuts.PutRefines` | store/sqlstore/lidmap.go:197-210 | a put of named users has its reference meaning on the table, short-circuit included |
| `LidPuts.PutRefinesIff` | store/sqlstore/lidmap.go:203-206 | for any users this holds if and only if the put is not skipped, its LID is named, or the row was there |
| `LidPuts.RolledBackPut` | store/sqlstore/lidmap.go:256-265 | the cache entries of a rolled-back put are right if and only if the row existed before |
| `LidPuts.PairingIsNeeded` | store/sqlstore/lidmap.go:256-265 | without the pairing clause the eviction step leaves a stale entry |
| `LidBatch.CommittedBatch` | store/sqlstore/lidmap.go:212-242 | a committed consistent batch leaves exactly the valid pairs and the old rows clashing with none of them, and coherent caches |
| `LidBatch.BatchOrderIrrelevant` | store/sqlstore/lidmap.go:212-242 | order, repetitions, invalid entries and cache contents do not influence the resulting table |
| `LidBatch.BatchEqualsSinglePuts` | store/sqlstore/lidmap.go:197-242 | a batch gives the same table as PutLIDMapping on each valid entry |
| `LidBatch.LaterPairsWin` | store/sqlstore/lidmap.go:212-242 | puts in a row, contradicting ones included, leave the pairs that no later one shares a user with, and the old rows that share none |
| `LidClash.BatchMeaningIff` | store/sqlstore/lidmap.go:212-242 | a batch of named users means a put of each valid entry in turn, from every coherent store, if and only if it does not contradict itself |
| `LidClash.CacheIndependentIff` | store/sqlstore/lidmap.go:215-229 | its resulting table is independent of the cache contents under exactly the same condition |
| `LidRollback.RolledBackBatch` | store/sqlstore/lidmap.go:233-241 | after the rollback of any batch of named users the table is the old one, and the caches are coherent if and only if the finished puts had made no new row and, where the caches are complete, had lost none |
| `LidRollback.RolledBackConsistent` | store/sqlstore/lidmap.go:233-241 | for a batch that does not contradict itself this is: all finished pairs were rows before |
| `LidRollback.RetryForgetsFinished` | store/sqlstore/lidmap.go:215-241 | the same batch, tried again, works on exactly the pairs that were not finished |
| `LidRollback.RetryIsLost` | store/sqlstore/lidmap.go:215-241 | if the commit failed, trying the batch again changes nothing whatever the database does |
| `LidRollback.RetryOneIff` | store/sqlstore/lidmap.go:203-209 | trying a single put again does nothing if and only if it was cached, succeeded, or failed at its commit |
| `LidMap.CachedLIDMap.constructor` | store/sqlstore/lidmap.go:38-45 | a new map starts with empty caches and a cleared flag, coherent with any well-formed table |
| `LidMap.CachedLIDMap.FillCache` | store/sqlstore/lidmap.go:71-78 | the delivered rows are cached both ways and no other entry changes, the flag tells whether the scan ended, coherence |
| `LidMap.CachedLIDMap.GetLIDMapping` | store/sqlstore/lidmap.go:91-116 | exactly when it errs; from coherent caches the JID of the row with the device of the request, or the empty JID without a row |
| `LidMap.CachedLIDMap.GetLIDForPN` | store/sqlstore/lidmap.go:118-126 | rejects exactly other servers; otherwise the LID of the row with the device kept, or the empty JID; a miss caches the answer both ways and nothing else changes |
| `LidMap.CachedLIDMap.GetPNForLID` | store/sqlstore/lidmap.go:128-136 | rejects exactly other servers; otherwise the PN of the row with the device kept, or the empty JID; a miss caches the answer both ways and nothing else changes |
| `LidMap.CachedLIDMap.SplitHits` | store/sqlstore/lidmap.go:145-159 | the first pass answers exactly the hits and groups exactly the misses by user |
| `LidMap.CachedLIDMap.AnswerRows` | store/sqlstore/lidmap.go:186-193 | the second pass caches each row and answers every waiting JID |
| `LidMap.CachedLIDMap.GetManyLIDsForPNs` | store/sqlstore/lidmap.go:138-195 | which JIDs have an answer and which: cached entries with the device, delivered rows without; all of them true, none with a row missing when the query ends; the rows are cached and no other entry changes; exactly when it errs |
| `LidMap.CachedLIDMap.UnlockedPutLIDMapping` | store/sqlstore/lidmap.go:244-267 | both statements, both cache writes and both evictions, or no cache change when a statement fails |
| `LidMap.CachedLIDMap.PutInTransaction` | store/sqlstore/lidmap.go:233-241 | all puts, or the old table with the cache entries of the finished ones, depending on the failing step |
| `LidMap.CachedLIDMap.PutLIDMapping` | store/sqlstore/lidmap.go:197-210 | errs exactly for other servers or a failing step; a success leaves exactly the pair and the rows and entries that share no user with it, coherently; a failing commit leaves the old table with those entries |
| `LidMap.CachedLIDMap.Select` | store/sqlstore/lidmap.go:215-229 | exactly the entries with the right servers that are not cached, without repetitions, in the order of their first occurrences |
| `LidMap.CachedLIDMap.PutManyLIDMappings` | store/sqlstore/lidmap.go:212-242 | succeeds exactly if no step of its n puts fails; the pair of every entry with the right servers is a row then, of contradicting ones the later; consistent batches leave exactly those and the rows that share no user with them, with coherent caches |
| `LidRuns.StepRefines` | store/sqlstore/lidmap.go:71-267 | every operation refines the cache-free reference store and keeps the invariant |
| `LidRuns.RunRefines` | store/sqlstore/lidmap.go:71-267 | over any run of fills, lookups, bulk lookups and committed puts the replies and the final table are those of the cache-free reference |
| `LidRuns.ReadsOwnPuts` | store/sqlstore/lidmap.go:71-267 | after any run a put mapping with the right servers, alone or in a batch, is looked up in both directions |
| `LidRuns.AnyRunAnswers` | store/sqlstore/lidmap.go:71-267 | over any run at all, clashing batches and empty users included, every lookup of a named user that does not fail answers what the table says at that moment |
| `LidSteps.WriterKeepsState` | store/sqlstore/lidmap.go:102-115 | every step under the write lock keeps what the holder promises, open transactions included |
| `LidSteps.NextKeepsInv` | store/sqlstore/lidmap.go:91-116 | every step of every thread keeps the lock and cache invariant, failing transactions included, with the users that they touched |
| `LidLinear.CoherentWheneverUnlocked` | store/sqlstore/lidmap.go:91-210 | in every behaviour, whenever no writer holds the lock, the caches are right about every user that no failed transaction has touched, and coherent if there was none such and only named users are put |
| `LidLinear.LookupLinearizable` | store/sqlstore/lidmap.go:91-116 | each lookup of a user that no failed transaction has touched answers what the committed table said at some instant between its call and its return, whatever runs in the gap between its locks |
| `LidLinear.BulkLinearizable` | store/sqlstore/lidmap.go:138-195 | the same for each single phone number of a bulk lookup |
| `LidLinear.BulkWholeLinearizable` | store/sqlstore/lidmap.go:138-195 | if the cache answers all phone numbers of a bulk lookup or none, the whole result is that of the committed table at one instant of the call |
| `LidCommits.PutLinearizable` | store/sqlstore/lidmap.go:197-242 | a put that returns has changed the durable table in one step of its call, as a whole, by what its request leaves from caches that are right about all untouched users |
| `LidCommits.OnlyPutsCommit` | store/sqlstore/lidmap.go:197-242 | the durable table changes in no other way: a thread whose step changes it is about to return from the put that asked for the change |
| `LidCommits.PutMerges` | store/sqlstore/lidmap.go:212-242 | if the request does not contradict itself and concerns untouched phone numbers, that step leaves exactly its pairs and the rows that share no user with them |
| `LidBulkRace.BulkMayMixTables` | store/sqlstore/lidmap.go:138-195 | from every coherent cache state that knows some of the phone numbers and not all, a behaviour whose bulk result no table gives |
| `LidBulkRace.BulkWholeIff` | store/sqlstore/lidmap.go:138-195 | over all behaviours, the whole result of a bulk lookup is that of the committed table at one instant of the call if and only if the cache that it first sees knows none of the phone numbers or decides all |
| `PreKeys.PreKeyStore.GenPreKey` | store/sqlstore/store.go:317-321 | stores the key exactly when the database accepts it, and returns it in any case |
| `PreKeys.PreKeyStore.GenOnePreKey` | store/sqlstore/store.go:332-340 | the row next to the largest live ID, marked as uploaded, exactly while IDs are left and no statement fails; all other rows and what is left to hand out stay; a key comes back unless the query for the ID failed |
| `PreKeys.PreKeyStore.TopUp` | store/sqlstore/store.go:353-365 | consecutive unuploaded rows next to the largest live ID, with the generated keys in order, up to the ID limit or the failing insert, keeping those that went in |
| `PreKeys.PreKeyStore.GetOrGenPreKeys` | store/sqlstore/store.go:342-369 | for success and for a failure of any statement, which rows it adds and which keys it returns |
| `PreKeys.PreKeyStore.RemovePreKey` | store/sqlstore/store.go:392-395 | that ID is gone, every other row is as before, and the next ID falls if and only if it was the largest |
| `PreKeys.PreKeyStore.MarkPreKeysAsUploaded` | store/sqlstore/store.go:397-400 | the same IDs with the same keys, uploaded exactly if they were or are at most the given ID, so what is left to hand out is what lies above it; the next ID stays |
| `PreKeyRuns.ListingFacts` | store/sqlstore/store.go:310-310 | the listing is ascending and contains exactly the unuploaded rows |
| `PreKeyRuns.GetOrGenExact` | store/sqlstore/store.go:342-369 | success returns exactly count keys with strictly increasing IDs, stored, unuploaded and lowest; old rows stay and new rows are all returned |
| `PreKeyRuns.TopUpSucceedsIff` | store/sqlstore/upgrades/00-latest-schema.sql:39-47 | a call succeeds if and only if the largest live ID plus the missing keys is at most 2^24-1 and no statement that it reaches fails |
| `PreKeyRuns.ExhaustionIsFinal` | store/sqlstore/store.go:359-365 | after a failed top-up the last ID is live and no later call generates anything |
| `PreKeyRuns.LaterCallExtends` | store/sqlstore/store.go:332-369 | a later call for at least as many keys returns the earlier result as a prefix, whatever generators ran between, failing ones included |
| `PreKeyRuns.MarkUploadsReturned` | store/sqlstore/store.go:397-400 | marking up to the last returned ID uploads exactly the returned keys |
| `PreKeyRuns.UploadedNeverReturned` | store/sqlstore/store.go:342-400 | after that, without removals, every later call returns only larger IDs |
| `PreKeyRuns.RemovalMayReissue` | store/sqlstore/store.go:323-330 | with removals this holds if and only if nothing must be generated or a live ID at or above the last one remains |
| `PreKeyRuns.RemovedTopIdComesBack` | store/sqlstore/store.go:323-330 | generate, mark, remove, generate: the same ID again |
| `PreKeyRuns.OneKeyNeverListed` | store/sqlstore/store.go:332-369 | a key that GenOnePreKey has returned is in no later result of GetOrGenPreKeys until its row is removed, whatever calls run in between |
| `PreKeySteps.NextKeepsInv` | store/sqlstore/store.go:317-400 | every statement of every thread keeps what generators rely on |
| `PreKeySteps.InsertsAboveAllLive` | store/sqlstore/store.go:317-400 | in every interleaving each inserted ID is above all IDs live at that insert |
| `PreKeySteps.InsertsNeverCollide` | store/sqlstore/store.go:317-321 | an insert is refused for running out of IDs only, never for a key collision |
| `PreKeySteps.RowsComeAndChange` | store/sqlstore/store.go:317-400 | a row that appears is unuploaded and the end of the list of the call that inserts it, or uploaded and a single key; a row that stays keeps its key and its mark |
| `PreKeySteps.OneKeyNeverSelected` | store/sqlstore/store.go:332-369 | a single key is in no list selected while its row is live, in every interleaving |
| `PreKeySteps.ListAscendsIff` | store/sqlstore/store.go:346-365 | the list of a call ascends if and only if, at the instant of its SELECT MAX, a live ID is as large as the last one selected |
| `PreKeySteps.ListDistinctIff` | store/sqlstore/store.go:346-365 | it names no ID twice if and only if no selected ID lies in the range of generated ones, which starts above the largest ID live at that instant |
| `PreKeySteps.RemovalCanRepeatAnId` | store/sqlstore/store.go:346-365 | a behaviour in which a removal makes one call return an ID twice |
| `SqlText.ReplaceIdentityIff` | store/sqlstore/store.go:125-125 | replace() changes a string exactly when there is something different to put in |
| `SqlText.ReplacesPrefixOnlyIff` | store/sqlstore/store.go:125-127 | replace() exchanges only the user of an address if and only if the user does not occur in the rest |
| `SqlText.LikeSelectsUserIff` | store/sqlstore/store.go:127-127 | the pattern user:% selects exactly that user's addresses if and only if the user has no wildcard and no letter |
| `SqlText.LikeIsEqualityIff` | store/sqlstore/store.go:77-77 | a LIKE pattern stands for itself alone if and only if it has no wildcard and no letter |
| `Rekey.RekeyMoves` | store/sqlstore/store.go:123-145 | from movable addresses, insert and delete move every row of the phone number to the LID with its value, overriding, and touch nothing else |
| `Rekey.RekeyedMovesRows` | store/sqlstore/store.go:123-145 | address by address: user:rest moves to the LID with the same rest and value, no address of the number is left, and nothing else comes, goes or changes |
| `Rekey.RekeyExactIff` | store/sqlstore/store.go:123-145 | for any phone number and LID, every table with these addresses is re-keyed as intended, in every row order, if and only if LIKE selects no address of another user, no moved address is selected again, and the number does not occur again in its own addresses |
| `Rekey.MovableIffNotRepeated` | store/sqlstore/store.go:123-145 | for a number without letters, wildcards and colons, and a LID other than it, only the last of these conditions is left |
| `Rekey.RekeyCleanIff` | store/sqlstore/store.go:123-145 | when the number does not occur again, a single table is re-keyed as intended if and only if the LID's addresses are not the phone number's, or there is nothing to move |
| `Rekey.RekeyRowCount` | store/sqlstore/store.go:123-145 | the number of rows falls by exactly the number of devices present under both users |
| `Rekey.DeviceEqualToNumberIsLost` | store/sqlstore/store.go:125-125 | a number equal to its device is re-keyed to the wrong address |
| `Rekey.RekeyReplaces` | store/sqlstore/store.go:123-145 | for any users: no address that LIKE selects is left, what replace() makes of a selected one has the value of such a row, and every other row stays |
| `Rekey.DeleteIdentityExactIff` | store/sqlstore/store.go:92-95 | DeleteIdentity deletes the one row it names, in every table, if and only if the address is free of wildcards and letters |
| `RekeyStore.SQLStore.MigrateTables` | store/sqlstore/store.go:255-295 | three tables re-keyed, or all three as they were |
| `RekeyStore.SQLStore.MigratePNToLID` | store/sqlstore/store.go:248-305 | the marker is set whatever happens; a first migration that no step fails leaves in all three tables what LIKE and replace() say, and from movable addresses every user:rest moves to the LID with its value; otherwise nothing changes |
| `RekeyStore.RunClosed` | store/sqlstore/store.go:248-305 | any sequence of independent migrations leaves the table that a closed form over their set describes |
| `RekeyStore.MigrationsCommute` | store/sqlstore/store.go:248-305 | independent first-time migrations give the same three tables in every order |
| `RekeyStore.RepeatChangesNothing` | store/sqlstore/store.go:123-145 | migrating again before new rows are selected changes nothing, for any phone number and LID |
| `SessionCache.LoadRefines` | store/signal.go:85-103 | loads with and without the cache agree, parse failures included |
| `SessionCache.StoreRefines` | store/signal.go:109-120 | a cached store corresponds to writing through |
| `SessionCache.ContainsRightIff` | store/signal.go:122-129 | the existence check is right if and only if the address is not waiting to be written for the first time |
| `SessionCache.RunRefines` | store/sessioncache.go:47-125 | over any run of loads, stores and flushes, successful or not, the cached store stands for the write-through one |
| `SessionCache.ReadsOwnStore` | store/sessioncache.go:58-125 | a stored record is loaded back at once, and after a flush from the table |
| `SessionCache.ContextIsTransparent` | store/sessioncache.go:72-125 | from prefetch to flush every load answers as without a cache and the flush leaves the write-through table |
| `SessionStore.Device.GetManySessions` | store/sqlstore/store.go:174-205 | every requested address with its session, or nil where there is no row or a NULL |
| `SessionStore.Device.WithCachedSessions` | store/sessioncache.go:72-104 | reports exactly the requested addresses whose session is absent or parses, and for which there was one; a new cache has their records, fresh ones included; the old context on failure |
| `SessionStore.Device.LoadSession` | store/signal.go:85-103 | cached record first, then a fresh record for no row or NULL, the parsed record, or the error |
| `SessionStore.Device.StoreSession` | store/signal.go:109-120 | the whole new state with and without a cache |
| `SessionStore.Device.PutManySessions` | store/sqlstore/store.go:207-222 | all sessions in any order, or none |
| `SessionStore.Device.PutCachedSessions` | store/sessioncache.go:106-125 | writes exactly the dirty sessions and clears the cache, or changes nothing if one of its steps fails |
| `Contacts.NameBatchExact` | store/sqlstore/store.go:681-710 | each contact of a batch gets the names of its first entry; other columns and rows stay |
| `Contacts.NamesAppend` | store/sqlstore/store.go:693-699 | chunking a batch does not change its meaning |
| `Contacts.DedupPhonesCovers` | store/sqlstore/store.go:717-719 | deduplication loses no contact |
| `Contacts.PhoneBatchCoherentIff` | store/sqlstore/store.go:736-743 | the eviction keeps the cache coherent if and only if no empty phone creates the row of a contact cached as absent |
| `Contacts.PhoneBatchAgrees` | store/sqlstore/store.go:736-743 | after any phone batch the cache is right about everything but the Found flag |
| `Contacts.PhoneIsAnswered` | store/sqlstore/store.go:712-778 | after a phone batch a lookup answers the phone of the first entry of the contact, whatever was cached |
| `ContactStore.SQLStore.LoadContact` | store/sqlstore/store.go:747-768 | the cached contact, or what the row says, which it caches |
| `ContactStore.SQLStore.GetContact` | store/sqlstore/store.go:770-778 | each of the five columns of the row with NULL as empty, cached or not, or the absent contact; the Found flag may be left stale by a phone batch |
| `ContactStore.SQLStore.PutPushName` | store/sqlstore/store.go:617-636 | changed and previous match the table even after a stale absence; of the row only that column changes, no other row does; coherence; exactly when it fails |
| `ContactStore.SQLStore.PutBusinessName` | store/sqlstore/store.go:638-657 | changed and previous match the table even after a stale absence; of the row only that column changes, no other row does; coherence; exactly when it fails |
| `ContactStore.SQLStore.PutContactName` | store/sqlstore/store.go:659-677 | the row has the names afterwards and is written only if they differ; no other column and no other row changes; coherence; exactly when it fails |
| `ContactStore.SQLStore.PutAllContactNames` | store/sqlstore/store.go:681-710 | each contact gets the names of its first entry, everything else stays, and the cache is emptied; or nothing, exactly if one of its statements of 300 rows fails |
| `ContactStore.SQLStore.PutManyRedactedPhones` | store/sqlstore/store.go:712-745 | each contact gets the phone of its first entry, everything else stays, and exactly the entries with another phone are evicted; or nothing; coherence exactly without a stale absence |
| `ContactStore.SQLStore.GetAllContacts` | store/sqlstore/store.go:805-815 | every delivered row's view, all of them cached and nothing else, also when the query fails midway, coherence |
| `ContactSteps.NextKeepsInv` | store/sqlstore/store.go:617-778 | every step of every thread keeps each cached entry right but for columns that a bulk write has changed whose eviction is still to come |
| `ContactSteps.RightUnlessPending` | store/sqlstore/store.go:681-745 | in every behaviour, whenever the lock is free, a cached contact is right but for its Found flag unless a bulk write of it is between its commit and its eviction |
| `ContactSteps.SuccessShows` | store/sqlstore/store.go:617-677 | a call that is about to return success has made its change: the table shows it, but for names that a bulk write has changed since |
| `ContactSteps.TableChanges` | store/sqlstore/store.go:617-745 | the table changes by a committed bulk write as a whole and by the asked-for columns of one contact, and in no other way |
| `MassInsert.BuildMutations` | store/sqlstore/store.go:518-536 | values and placeholders at their positions; resolving them gives the five columns of one row a mutation, in order |
| `MassInsert.InsertMacsExact` | store/sqlstore/upgrades/00-latest-schema.sql:89-98 | a batch is accepted if and only if it fits the constraints, foreign key included, and then adds exactly its rows |
| `MassInsert.MacStore.PutAppStateMutationMACs` | store/sqlstore/store.go:538-553 | succeeds exactly if the mutations fit the constraints and no statement of 400 rows fails, with exactly one row a mutation, at most 803 values a statement; all or nothing |
| `PrivacyTokens.BuildTokens` | store/sqlstore/store.go:958-973 | the four-wide placeholder layout resolves to the five columns of one row a token, in order |
| `PrivacyTokens.TokenStore.PutPrivacyTokens` | store/sqlstore/store.go:958-976 | for every user, the row that summarises what was there and the puts; others keep theirs; fails exactly without tokens or with the statement |
| `PrivacyTokens.RowSummarises` | store/sqlstore/store.go:922-930 | after any puts the row has the largest timestamp, the token of the last put attaining it, and the last sender timestamp among accepted puts |
| `PrivacyTokens.RowIsFirstPut` | store/sqlstore/store.go:922-930 | a row already stored acts as a put made first |
| `PrivacyTokens.MergedRow` | store/sqlstore/store.go:922-930 | who has a row after the puts, whose row stays, and that each row summarises the old row followed by the puts |
| `PrivacyTokens.ArrivalOrderIrrelevant` | store/sqlstore/store.go:922-930 | if the newest puts carry one token, the row's token and timestamp do not depend on the arrival order, whether a row was there before or not |
| `PrivacyTokens.ArrivalOrderIff` | store/sqlstore/store.go:922-930 | no rearrangement of the puts changes token or timestamp if and only if the newest ones carry one token |
| `AliasLookup.AliasExact` | store/sqlstore/store.go:876-881 | the scalar subquery finds the counterpart of exactly the users that have a mapping |
| `AliasLookup.AliasOfRow` | store/sqlstore/store.go:872-889 | the two scalar subqueries map the JIDs of a mapping row to each other |
| `AliasLookup.AliasIsCounterpart` | store/sqlstore/store.go:876-881 | for every JID text with at most one @ the scalar subquery answers exactly the other JID of its mapping row, suffixes in other letters included |
| `AliasLookup.MatchesIff` | store/sqlstore/store.go:876-889 | so a column matches exactly if it is the JID or its counterpart |
| `AliasLookup.FoundSymmetric` | store/sqlstore/store.go:872-889 | replacing chat, sender or both by their counterparts matches the same secrets |
| `AliasLookup.StoredIsFindable` | store/sqlstore/store.go:908-919 | a secret stored under one identity is found under the other |
| `AliasLookup.AnswerDeterminedIff` | store/sqlstore/store.go:872-889 | a lookup under any identities is sure to answer the stored secret, or that and its sender, if and only if no row for the message under the other identities says something else |
| `AliasLookup.InsertSecretsKeepFirst` | store/sqlstore/store.go:867-871 | the keys are those stored before or inserted; the earlier secret of a key stays, then the first inserted one |
| `AliasLookup.NewestSymmetric` | store/sqlstore/store.go:931-942 | the newest privacy-token timestamp is the same from either identity |
| `AliasLookup.SecretStore.PutMessageSecrets` | store/sqlstore/store.go:893-906 | all inserts, or none |
| `AliasLookup.SecretStore.GetMessageSecret` | store/sqlstore/store.go:913-919 | some row whose chat and sender are the given ones or their counterparts, and none exactly if there is no such row |
| `AliasLookup.SecretStore.GetPrivacyToken` | store/sqlstore/store.go:978-995 | a newest row of the user or its counterpart, and none exactly if there is no such row |
| `Version.String` | store/clientpayload.go:57-63 | the three numbers in decimal, joined by dots |
| `Version.ItoaDigits` | store/clientpayload.go:57-63 | each position of a printed number is its decimal digit, with no leading zero |
| `Version.DigitsIff` | store/clientpayload.go:29-43 | the strings that read as a number are its printed form behind any number of zeros |
| `Version.AtoiIff` | store/clientpayload.go:29-43 | a part parses exactly if it is such a string within 64 bits, with an optional sign |
| `Version.ParseOfText` | store/clientpayload.go:29-63 | parsing the text of any version gives it back |
| `Version.TextInjective` | store/clientpayload.go:57-63 | different versions have different texts |
| `Version.ParseAcceptsIff` | store/clientpayload.go:29-43 | exactly three dot-separated 64-bit integers parse, to their values modulo 2^32 |
| `Version.LessThanIsNumericOrder` | store/clientpayload.go:45-49 | LessThan is the order of the 96-bit numbers that the words spell |
| `Version.LessThanStrictTotal` | store/clientpayload.go:45-49 | LessThan is a strict total order |

## Left out

- LidLinear.LookupLinearizable: nothing is promised about users that a failed transaction has touched, because the code keeps the cache entries of its finished puts.
- LidLinear.BulkLinearizable: likewise, and the result is a map by user; LidMap has the devices.
- LidMap.CachedLIDMap.GetManyLIDsForPNs: its two lock sections run without interleaving; LidSteps has them as steps of their own.
- ContactStore.SQLStore.PutAllContactNames: its transaction and its eviction run without interleaving; ContactSteps has them as steps of their own.
- ContactStore.SQLStore.PutManyRedactedPhones: likewise.
- ContactStore.SQLStore.GetContact: the race of reading the contact after unlocking is not modelled.
- ContactStore.SQLStore.LoadContact: a cached contact is a value in the map and not a pointer, which the code shares inside the locked sections only.
- JIDs: agent and integrator fields, and the text form of JIDs as column values other than in alias lookups.
- PostgreSQL: its array parameters, its LIKE escape character and its refusal to upsert one row twice in a statement.
- The Go slice that PutManyLIDMappings filters in place belongs to the caller; the change to it is not modelled.
- Sessions as mutable records shared between loads of one context, nested cached contexts, and concurrent use of one cache.
- The WebSocket hub, HTTP server, event handling and command line.
- Cryptography, key generation, protobuf, hashing and the client payload.
- Device rows, chat settings, salts, event and retry buffers, expiry of privacy tokens, plain reads and writes: each is one statement.
- The upgrade scripts, and our_jid foreign keys with their cascades.
