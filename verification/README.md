# AirChat server and settings: a verified model

A Dafny model of the stateful core of AirChat: the multi-device sync server, the missed-call journal of the
signalling server, the crash-safe settings file of the client, and the algorithms beside them. `dafny verify
dfyconfig.toml` checks all of it.

The code modelled here changes state step by step, so most modules hold two things: a specification as functions
on values (an account, a journal, a set of files), and a class whose methods make the same writes in the same order,
proved equal to it. What the program promises is then proved about the functions, over every run. SQL tables are
maps or sequences, a transaction is one step that either happens or leaves everything as it was, and clocks, limits
and faults are parameters.

| Modules | What they cover |
|---|---|
| `SyncModel`, `SyncRuns`, `SyncDatabase` | the replicated log of one account: push, pull, compaction, and the shared row counter |
| `SyncCursors` | which cursor is stored for a device, and which rows are deleted for it |
| `SyncAnswers`, `SyncPush` | what the answers to push and pull mean |
| `SyncDelivery`, `SyncProfiles` | what a device receives, whole or one profile at a time |
| `SyncTransparency`, `SyncAgreement` | what compaction changes, for one request and over whole runs |
| `Devices` | enrolment policy and revocation |
| `Usernames`, `Nonces`, `Media`, `Posts` | the other state machines of the sync database |
| `AccountLocks` | the per-account queue that media requests run under |
| `Journal`, `JournalEffects`, `MissedCalls` | the missed-call journal: counters, caps, and what each operation does to the entries |
| `JournalOrder`, `JournalEviction`, `StaleTargets` | its order, what the budget evicts, and what a sweep leaves |
| `OrderedMaps` | a JavaScript Map: entries in order of insertion |
| `ConfigMerge`, `ConfigFiles` | the settings override and its replacement by renames |
| `Base58` | base58btc and did:key |
| `IpText`, `Ip6Text`, `GeoIp` | address texts and the country lookup |
| `Limiter`, `Tokens` | the send limiter and the two token registries |
| `Wrappers`, `Sets` | optional values, clock readings, sizes of sets |

## What the proofs found

Some statements one would expect are false of the code. Each comes with an input that shows it, with the exact
condition under which it does hold, or with both.

- A pull counts as received once it is served. When the response is lost, rows can be gone for good
  (`SyncTransparency.LostResponse`); with delivered responses nothing is lost (`SyncDelivery.NoLossNoRepeat`).
- A pull shows that the server compacts exactly when compaction removed a row it asks for
  (`SyncTransparency.SamePageExactly`).
- `base58Encode` differs from section 3 of draft-msporny-base58 exactly on inputs without a nonzero byte, where it
  writes one `1` too many (`Base58.StandardExactly`, `Base58.RoundTripExactly`). It is injective all the same.
- The sweep of the journal stops at the first target with a live entry, and leaves expired targets behind it exactly
  when one stands there (`JournalOrder.SweepCompleteExactly`). The comment at signaling-server/index.js:278-283 says
  insertion order makes stopping there safe. A forgotten call can put one there (`StaleTargets.ForgottenNewest`), and
  nothing else can (`StaleTargets.SweepsAreComplete`).
- The nonce window has no slack: it holds exactly when a request is checked and recorded with one clock reading
  (`Nonces.ServerConstants`). The server takes two (server/cloud-vault/index.js:480 and
  server/cloud-vault/sync-db.js:612), so a payload shown at the two ends of its window can pass twice when they differ.
- A settings save loses everything after one pair of faults: its last deletion reports an error although it happened,
  and the rollback clears the place of the current file without having anything to put there
  (`ConfigFiles.SaveAtomicExactly`, `ConfigFiles.DoubleFaultLoses`).
- A settings save that reports an error can have taken effect although its rollback worked
  (`ConfigFiles.ThrownExactly`).
- A settings save does not look at the length of what it writes, while a read refuses more than 256 KiB. A save that
  reported success can be read exactly when it stayed within that (`ConfigFiles.SavedReadable`,
  `ConfigFiles.TooLongToRead`); otherwise no later save replaces it (`ConfigFiles.UnreadableStays`).
- Whether a push is accepted depends on the order within its batch (`SyncPush.OrderDecidesAcceptance`); what an
  accepted one leaves does not (`SyncPush.OrderDoesNotMatter`).
- A media collection cut between removing the file and marking the row leaves a row that still takes references
  (`Media.StepSafeExactly`, `Media.CutThenReferenced`). The file then stays missing and the row
  stays live until that reference is released or the blob uploaded again (`Media.LostUntilReleased`).
- A limiter window that restarts keeps its old place in the map. So the comment at signaling-server/push.js:208-209,
  that insertion order is age, holds for the map the eviction loop works on exactly when every window that stands
  behind that place and outlives the sweep was opened at the same moment (`Limiter.AgeOrderExactly`,
  `Limiter.RestartedEvictedFirst`).
- The comment at server/cloud-vault/sync-db.js:890-891 calls a post id taken for ever. It is refused to another author
  exactly while it is live (`Posts.IdTakenExactly`), and after a deletion that same request takes it exactly when its
  author has room (`Posts.IdPasses`).
- `ipv6ToTop64` reads, zones aside, the notations of section 2.2 of RFC 4291 and exactly one more family: texts with a
  dotted quad right before their `::` (`Ip6Text.Ipv6Exactly`, `Ip6Text.StandardExactly`, `Ip6Text.QuadBeforeGap`).
- Of all the texts of an IPv4-mapped address, the IPv4 table answers exactly for `::ffff:` and the dotted quad, without
  a zone (`GeoIp.MappedExactly`, `GeoIp.MappedSpelling`).

## Model

Methods without a loop that only mirror the function they are proved equal to have no row.

| member | source | states |
|---|---|---|
| SyncRuns.ReachableStates | server/cloud-vault/sync-db.js:1161-1285 | In every reachable state the retained log is a suffix of everything ever accepted, in sequence order; revisions of one entity strictly increase; the heads index is the last row of each entity over the full history, compacted rows included; retained mutation ids are distinct |
| SyncRuns.HeadBoundsRow | server/cloud-vault/sync-db.js:1243-1281 | A head's revision bounds every row of its entity, and the head is that of the entity's last row |
| SyncRuns.HeadHasRow | server/cloud-vault/sync-db.js:1270-1281 | Every head comes from a row that was accepted |
| SyncCursors.CompactExactly | server/cloud-vault/sync-db.js:1145-1170 | From any account in sequence order, compaction keeps all of the log but its first n rows and changes nothing else: n counts the rows at or below the unscoped cursor of every active device, up to maxRows, and is 0 when no device is active |
| SyncCursors.StepCompacts | server/cloud-vault/sync-db.js:1210-1338 | A push that is taken, a pull by a known device and a compaction each leave all of the log but its first n rows, and behind them the rows the step adds, with n as above for the cursors the step leaves |
| SyncCursors.CursorIsGreatest | server/cloud-vault/sync-db.js:1326-1337 | After any run the cursor stored for a device and profile is the greatest next cursor that any answer to that device and profile carried, and there is none without an answer |
| SyncCursors.DeletesExactly | server/cloud-vault/sync-db.js:1156-1170 | In any run of any devices, a step that compacts deletes a row if and only if some device is active, the row is among the first maxRows of the log, and every active device was sent, by this step or before, an unscoped next cursor at or past it |
| SyncRuns.PushGain | server/cloud-vault/sync-db.js:1210-1285 | A successful push appends to the compacted log exactly the rows it adds to the history, leaves every head at or above the batch, and lowers no head |
| SyncAnswers.VerdictsMean | server/cloud-vault/sync-db.js:1221-1286 | A mutation of a taken push is stale if and only if the log the push leaves does not hold it, and inserted if and only if it is among the rows the push adds and the batch did not hold it before; those rows are the inserted mutations in order, under the device, numbered on from the counter |
| SyncAnswers.AcceptedMeansHeld | server/cloud-vault/sync-db.js:1238-1295 | The accepted ids of a push are, in order, those of the mutations the log then holds, and the rejected ids those of the others |
| SyncAnswers.RefusedExactly | server/cloud-vault/sync-db.js:1203-1257 | A push is refused for its quota argument if that is below one, and otherwise if and only if, after the mutations before it, some mutation of the batch has an id that stands for another content, or is new and finds no room under the quota; each reason for its own case |
| SyncAnswers.ServesExactly | server/cloud-vault/sync-db.js:1300-1353 | The answer to a pull from any cursor, of one profile or all: in order, the retained rows past the cursor up to the next cursor reported, `limit` of them when more remain; hasMore says whether they do; and an empty answer gives the cursor back, brought down to the last sequence there is |
| SyncDelivery.NoLossNoRepeat | server/cloud-vault/sync-db.js:1300-1359 | A device that stays active, pulls with the cursor it was last given and receives every answer holds, after any run, exactly the rows retained at its enrolment and those accepted since, in order and once each, up to its cursor; the rest is retained, and its next pull brings the next min(limit, missing) rows and says whether more remain |
| SyncDelivery.ServesNext | server/cloud-vault/sync-db.js:1315-1346 | The page, next cursor and hasMore of an honest pull, in terms of the full history |
| SyncProfiles.ProfileLosesNothing | server/cloud-vault/sync-db.js:1145-1159 | A device that stays active, pulls one profile honestly and never all of them holds compaction back altogether; after any run it holds that profile's rows, of those retained at its enrolment or accepted since, in order and once each up to its cursor, and its next pull brings the next min(limit, missing) of them and says whether more remain |
| SyncTransparency.CompactionTransparent | server/cloud-vault/sync-db.js:1156-1285 | Over every run in which a never-compacting server takes each push, the compacting server accepts the same rows in the same order, keeps the same heads, and its log is a suffix of the other's |
| SyncTransparency.PushAgrees | server/cloud-vault/sync-db.js:1221-1250 | One push on both servers: same new rows and heads, and verdicts that differ only where a replay of a compacted row is rejected instead of accepted |
| SyncTransparency.SamePage | server/cloud-vault/sync-db.js:1315-1330 | A pull, scoped or not and of any limit, that asks for no removed row is answered alike by both servers |
| SyncTransparency.SamePageExactly | server/cloud-vault/sync-db.js:1315-1330 | A pull of at least one row, of one profile or of all, is answered alike if and only if compaction removed no row it asks for |
| SyncTransparency.HonestCannotTell | server/cloud-vault/sync-db.js:1300-1353 | In any pair of states the two servers can be in, a device in step with the log that saw it from its start, or has received a row, is answered alike, for every profile |
| SyncTransparency.LostResponse | server/cloud-vault/sync-db.js:1331-1338 | A run in which a response is lost and the repeated pull brings nothing although a row was accepted |
| SyncTransparency.FitsWhenFaithful | server/cloud-vault/sync-db.js:1221-1256 | One push whose ids stand for no other content in the log, and for whose bytes there is room, is taken by the never-compacting server |
| SyncAgreement.FaithfulRunFits | server/cloud-vault/sync-db.js:1221-1256 | When no id stands for two contents anywhere in a run and every quota has room for all its batches together, the never-compacting server takes every push of the run |
| SyncAgreement.FaithfulRunAgrees | server/cloud-vault/sync-db.js:1156-1285 | So over every such run, conditions on the requests alone, both servers accept the same rows in the same order and keep the same heads |
| SyncAgreement.HonestRunSamePages | server/cloud-vault/sync-db.js:1300-1359 | A device that enrols anywhere in such a run and is honest from then on is answered alike by both servers once it has received a row; when nothing was compacted before its enrolment, it has got the same rows and cursors from both throughout |
| SyncPush.ReplayChangesNothing | server/cloud-vault/sync-db.js:1221-1250 | A batch pushed successfully once, pushed again by any device at any later point of any run, inserts no row and changes no head, and can be refused only for a reused id or an invalid quota |
| SyncPush.PushTakesMaxima | server/cloud-vault/sync-db.js:1243-1281 | A successful push leaves at each entity the greatest of the old head and the batch's revisions |
| SyncPush.OrderDoesNotMatter | server/cloud-vault/sync-db.js:1221-1285 | Two orders of one batch that are both accepted leave the same revision at every entity |
| SyncPush.OrderDecidesAcceptance | server/cloud-vault/sync-db.js:1243-1256 | Two mutations of one entity that fit the quota singly but not together: with the earlier revision first the push is refused for the quota, with the later one first it is accepted |
| SyncPush.EveryIdAnswered | server/cloud-vault/sync-db.js:1238-1295 | Accepted and rejected ids together are exactly the ids of the batch, repetitions counted |
| SyncPush.WithinQuota | server/cloud-vault/sync-db.js:1215-1256 | Under one quota the retained ciphertext of an account never exceeds it, in any reachable state |
| SyncDatabase.SyncDatabase.LeastCursor | server/cloud-vault/sync-db.js:1145-1159 | The smallest unscoped cursor of an active device, or none |
| SyncDatabase.SyncDatabase.DeleteRows | server/cloud-vault/sync-db.js:1161-1168 | The loop deletes the rows at or below the cursor, oldest first, up to maxRows |
| SyncDatabase.SyncDatabase.Push | server/cloud-vault/sync-db.js:1189-1297 | All or nothing: an error leaves every table and the counter as they were; success changes one account and answers every id |
| SyncDatabase.SyncDatabase.WriteBatch | server/cloud-vault/sync-db.js:1221-1286 | The loop over the batch agrees with the function that handles one mutation after the other |
| SyncDatabase.LatestIsLast | server/cloud-vault/sync-db.js:1376-1381 | The cursor a push reports is the sequence of the last row ever accepted, and null before the first |
| SyncDatabase.SyncDatabase.SelectPage | server/cloud-vault/sync-db.js:1318-1325 | The first rows past the cursor, of one profile or of all |
| SyncDatabase.SyncDatabase.Pull | server/cloud-vault/sync-db.js:1300-1359 | Serves a page, records the cursor it served without moving it back, and compacts |
| Devices.PolicyHolds | server/cloud-vault/sync-db.js:1019-1143 | Over every run with a clock that does not go back: at every later instant at most maxActive devices are active, every window of the given length holds at most maxEnrollments enrolments whatever was revoked in between, and no two rows share a key |
| Devices.AdmittedExactly | server/cloud-vault/sync-db.js:1032-1088 | A device is admitted if and only if it is not revoked, presents no other key than its own, is known or may enrol, and admitting it keeps the keys distinct, the active limit and the enrolment windows |
| Devices.RefusalReason | server/cloud-vault/sync-db.js:1032-1088 | Each verdict, refusal or admission, is given if and only if its own reason holds: revocation, another key than its own, a key held elsewhere by a revoked or by a live device, no leave to enrol, and the two limits as they would stand after admission |
| Devices.EnsureRecords | server/cloud-vault/sync-db.js:1089-1135 | An admitted device is in the registry with this visit, unrevoked, under its own key or else the one it presents; the journal has one line more exactly when it is new; no other row changes, and a refusal leaves no trace |
| Devices.RevokeRevokes | server/cloud-vault/sync-db.js:1534-1539 | Revoking a known device revokes its row, keeps its key and last visit, a first revocation time, the other rows and the journal, and answers true if and only if the device was known and not revoked |
| Devices.RevokedRowStays | server/cloud-vault/sync-db.js:1534-1539 | A revoked row stays, revoked and under the same key, through every later run |
| Devices.NeverReadmitted | server/cloud-vault/sync-db.js:1032-1060 | After any run neither the revoked id, with any key, nor its key, under any id, is admitted, and the attempt changes nothing |
| Devices.RevokedForGood | server/cloud-vault/sync-db.js:1032-1056 | Once a run has revoked a device it knew, after any further run every request under its id is refused as revoked, whatever key it presents, and every request with its key is refused under any id; neither leaves a trace |
| Nonces.SinglePassExactly | server/cloud-vault/index.js:479-483 | No payload passes twice in one scope, whatever else is shown and purged in between, if and only if the retention covers both halves of the clock window and the gap between a request's two readings |
| Nonces.PassesExactly | server/cloud-vault/sync-db.js:612-626 | Over every sequence of showings, one passes if and only if it is inside its clock window and no earlier showing used its number within the retention |
| Nonces.PassesTwice | server/cloud-vault/sync-db.js:612-616 | With one millisecond less there is a run in which a payload passes twice |
| Nonces.ServerConstants | server/cloud-vault/index.js:37 | Ten minutes either way and twenty minutes of retention suffice if and only if a request uses one clock reading |
| Usernames.RegistryHolds | server/cloud-vault/sync-db.js:669-741 | In every reachable registry each account, profile and subject holds at most one name, and each account at most eight |
| Usernames.RefusalExactly | server/cloud-vault/sync-db.js:676-687 | A claim is refused if and only if another holder has the name, and then changes nothing |
| Usernames.ClaimEffect | server/cloud-vault/sync-db.js:688-722 | A granted claim leaves the name with its claimant, never erases a published key or display name, alters no other name that stays, and takes away only the holder's former name and names of the same account older than every name it keeps |
| Usernames.ReleaseFrees | server/cloud-vault/sync-db.js:736-741 | A release takes away the names of the holder and no others, and whoever claims one of them next gets it, where before only the holder would have |
| Usernames.GivesUpAtMostOne | server/cloud-vault/sync-db.js:688-704 | At most one name goes with each granted claim |
| Usernames.TrimLeavesSeven | server/cloud-vault/sync-db.js:695-704 | Whatever an account held before, at most seven names besides the claimed one stay |
| Usernames.UsernameTable.SelectHeld | server/cloud-vault/sync-db.js:698-701 | The account's other names, each once, by time of claim and then by name |
| Usernames.UsernameTable.TrimNames | server/cloud-vault/sync-db.js:698-704 | The deletion loop leaves exactly the seven youngest of the account's other names |
| Usernames.UsernameTable.ClaimUsername | server/cloud-vault/sync-db.js:669-729 | The transaction has the outcome of the claim function |
| Media.BlobsKept | server/cloud-vault/sync-db.js:1383-1495 | In every run, faults included, a blob registered and not marked deleted has its file or its deletion was requested, and references hang on live rows only; when no collection was cut short, every live blob and every blob with an unreleased reference has its file |
| Media.SafeThroughoutExactly | server/cloud-vault/index.js:921-939 | Over a whole run every live blob has its file at every moment if and only if no collection was cut short |
| Media.StepSafeExactly | server/cloud-vault/index.js:921-939 | A step keeps the files of all live blobs if and only if it is not a collection cut between the removal of the file and the marking of the row |
| Media.CutThenReferenced | server/cloud-vault/index.js:933-935 | A run in which such a cut costs a live, referenced blob its file, and which leaves it collectable at no moment |
| Media.LostUntilReleased | server/cloud-vault/index.js:929-936 | A referenced blob without its file stays so through every later run, its row live and collectable at no moment, until that reference is released or the blob uploaded again |
| Media.CollectsOnlyRequested | server/cloud-vault/index.js:926-936 | Whatever candidate it is given, a collection removes a file only when its deletion was requested since its last stored upload and no reference is unreleased at that moment, and touches no other blob |
| Media.QuotaExactly | server/cloud-vault/index.js:984-990 | From files within the limits, an upload passes the quotas if and only if the files with it are within them, and is refused for the number of files when that alone is too much, else for their size |
| Media.UploadTakesEffect | server/cloud-vault/sync-db.js:1383-1395 | A stored upload is there as sent, under a live row without a deletion request that keeps its first date; one that was not stored leaves the rows as they were; neither touches another blob or a reference |
| Media.ReferTakesEffect | server/cloud-vault/sync-db.js:1406-1426 | On a live blob a reference is active afterwards if and only if it was set rather than released, and a released one keeps its first time of release; nothing else changes, and nothing at all for another blob |
| Media.RequestTakesEffect | server/cloud-vault/sync-db.js:1428-1437 | A deletion request is recorded on a live blob only, with the time of the first one, and nothing else changes |
| Media.CollectTakesEffect | server/cloud-vault/index.js:927-937 | A collection that runs to its end removes the file, the row's life and the references of a blob whose deletion is due and that no active reference holds, and in every other case changes nothing |
| Media.ReleasedThenCollected | server/cloud-vault/sync-db.js:1420-1496 | After a reference is released and the deletion of its live blob requested, a collection that is not cut short removes the blob if and only if no other reference to it is active |
| Media.LimitsHold | server/cloud-vault/index.js:979-1005 | However uploads and collections are cut short, the files of an account stay within the file and byte quotas |
| Media.SizesAgree | server/cloud-vault/index.js:990-1000 | As long as no upload stopped halfway, every live row records the length of its file |
| Media.MediaStore.Usage | server/cloud-vault/index.js:908-919 | Adding up the directory gives the total size |
| Media.MediaStore.PutMedia | server/cloud-vault/index.js:971-1012 | Quota checks, replacement and roll-back of an upload, for every point it may fail at |
| Media.MediaStore.CollectOne | server/cloud-vault/index.js:927-937 | The re-check under the lock, the removal of the file and the mark, for every point it may stop at |
| AccountLocks.OneAtATime | server/cloud-vault/index.js:495-538 | Within one process no two operations of an account run at the same time, they run in the order called whether earlier ones succeed or fail, and while one is outstanding some operation of the account is running or free to start |
| Posts.QuotasAndAuthors | server/cloud-vault/sync-db.js:882-918 | In every run the byte and count quotas of every author hold at every moment, and a post that stays live keeps its author and date of creation |
| Posts.IdTakenExactly | server/cloud-vault/sync-db.js:887-895 | In any table a request is refused for the id if and only if the id is live under another author, and then changes nothing; from any table without the id, exactly a request within its author's quotas takes it; no request moves a live post to another author |
| Posts.JudgedExactly | server/cloud-vault/sync-db.js:893-897 | A request for a free id or its author's own post is accepted if and only if its author is within the quotas afterwards, the bytes of a replaced post given back and its place not counted again; otherwise the count is refused before the bytes |
| Posts.StoredAsSent | server/cloud-vault/sync-db.js:898-918 | A stored post reads as it was sent, under its first date; no other post changes, and a refusal changes nothing |
| Posts.IdPasses | server/cloud-vault/sync-db.js:890-895 | In any table, another author's request for a live id is refused, and after the author deleted the post that same request takes the id if and only if its own author has room |
| Posts.SweepMeans | server/cloud-vault/sync-db.js:941-984 | After a sweep nothing expired is left, the total is within the ceiling, and nothing unexpired went if it was within the ceiling before |
| Posts.PostTable.SumBytes | server/cloud-vault/sync-db.js:868-873 | The sum of the bytes of some rows |
| Posts.PostTable.PutPublicPost | server/cloud-vault/sync-db.js:882-918 | The three refusals in order, or the row written, with the previous row's bytes given back first |
| Posts.PostTable.SelectOldest | server/cloud-vault/sync-db.js:967-969 | At most a batch of distinct rows, oldest first, none younger than a row left out |
| Posts.PostTable.GcPublicPosts | server/cloud-vault/sync-db.js:950-984 | The nested loops end; what they evict of the unexpired rows is an oldest-first prefix without whose last row the ceiling would break; the two counts are exact |
| Journal.AccountsAndCaps | signaling-server/index.js:257-353 | After every operation of every run the two counters are the true number of entries and the true total of receipt lengths, no inner map is empty, and all four caps hold |
| Journal.BudgetHolds | signaling-server/index.js:307-311 | The eviction loop keeps the accounts and ends within both budgets, its early exit included |
| JournalOrder.OrderHolds | signaling-server/index.js:252-255 | With a clock that does not go back, every inner map is ordered by time and the outer map by the last remembered call |
| JournalOrder.EvictsOldest | signaling-server/index.js:293-305 | From any ordered journal with an entry, over budget or not, an eviction takes the oldest entry of the target remembered longest ago, and nothing else |
| JournalEviction.BudgetEvictsOldest | signaling-server/index.js:307-311 | From any ordered journal, every entry the budget loop evicts comes before every entry it keeps, in the order of last remembrance of the target, then of time, then of arrival; kept entries are unchanged; it evicts if and only if the journal is over budget; and the last entry evicted in that order, put back, would go over it again |
| JournalEviction.EvictionsInOrder | signaling-server/index.js:313-353 | So in every run with a clock that does not go back, in the very budget check that a remembered call makes after its trims and a receipt after it is attached |
| JournalOrder.RememberRecords | signaling-server/index.js:313-337 | A call survives the evictions its own recording causes, with its attempt counted and its receipt kept, as long as no cap is zero |
| JournalEffects.NotedExactly | signaling-server/index.js:315-328 | Noting a call moves its target and its caller to the end of their maps, counts the attempt, and touches no other entry |
| JournalEffects.TrimCallersExactly | signaling-server/index.js:329-331 | The cap per target leaves that target its last 20 callers, in order and unchanged, and touches no other target |
| JournalEffects.TrimTargetsExactly | signaling-server/index.js:332-334 | The cap on targets leaves the last ones, in order, each with all its calls |
| JournalEffects.ReceiptLands | signaling-server/index.js:344-353 | A receipt is taken if and only if there is an entry for it; it replaces that entry's receipt and nothing else, before the budget is enforced |
| JournalEffects.ForgetForgets | signaling-server/index.js:360-364 | A forgotten call is gone, alone; forgetting one that is not there changes nothing |
| JournalEffects.DeliveredDrops | signaling-server/index.js:268-276 | Dropping a target takes out its calls and no others |
| JournalEffects.ReadMeans | signaling-server/index.js:367-382 | A read answers each caller once, exactly the target's calls within their lifetime with the time, attempts and receipt the journal holds, oldest first |
| JournalOrder.SweepDropsPrefix | signaling-server/index.js:284-291 | A sweep drops exactly the leading targets whose calls have all expired, so never one with an unexpired entry |
| JournalOrder.SweepCompleteExactly | signaling-server/index.js:284-291 | It leaves no wholly expired target if and only if none stood behind a target with an unexpired entry |
| StaleTargets.ForgottenNewest | signaling-server/index.js:278-291 | A run, ending with a forgotten call, after which the sweep leaves a wholly expired target behind a live one |
| StaleTargets.SweepsAreComplete | signaling-server/index.js:284-337 | In every run without a forgotten call, whatever was trimmed, evicted or delivered, every sweep leaves no wholly expired target |
| JournalOrder.SortChangesNothing | signaling-server/index.js:367-382 | The sort in readMissedCalls changes nothing, in any run |
| MissedCalls.MissedCallJournal.DropMissedTarget | signaling-server/index.js:268-276 | Takes a target out, walking over its entries for the counters |
| MissedCalls.MissedCallJournal.SweepMissedCalls | signaling-server/index.js:284-291 | The early-exit loop computes the sweep |
| MissedCalls.MissedCallJournal.EnforceMissedCallBudget | signaling-server/index.js:307-311 | The loop terminates with the eviction function's result |
| MissedCalls.MissedCallJournal.RememberMissedCall | signaling-server/index.js:313-337 | Sweep, note, both trims and the budget, in that order |
| MissedCalls.MissedCallJournal.AttachMissedReceipt | signaling-server/index.js:344-353 | Puts a receipt on an existing entry only, and enforces the budget |
| MissedCalls.MissedCallJournal.ReadMissedCalls | signaling-server/index.js:367-382 | The loop and the sort answer exactly the unexpired calls of a target, each once and oldest first, and leave the journal unchanged |
| ConfigMerge.MergeReads | src/core/config.ts:381-400 | Under every path: a plain value of the patch is taken as it is, a path the patch is silent about reads as before, and below a plain value nothing of the old settings remains |
| ConfigMerge.MergeTwice | src/core/config.ts:381-400 | Merging the same patch again changes nothing |
| ConfigFiles.ReadKeeps | src/core/config.ts:716-774 | A read, failing or not, never changes which settings are in force, and answers with them or not at all, no file under either name standing for empty settings; it touches no other file, and answers only when the copy moved aside, if any, is back in place or superseded |
| ConfigFiles.QuietRead | src/core/config.ts:748-774 | Without faults a read answers with the settings in force |
| ConfigFiles.SaveAtomicExactly | src/core/config.ts:785-836 | Whatever step of a save or of its rollback fails, fails after taking effect, or is the last before the process dies, the settings in force are the old or the merged ones if and only if the double fault did not strike; then there are none |
| ConfigFiles.ThrownExactly | src/core/config.ts:825-836 | When a save reports an error and its rollback works, the old settings are in force, but for the exact cases in which the merged ones are: with a file to replace, when the last deletion failed after taking effect; without one, when the merged file had been put in place |
| ConfigFiles.DoubleFaultLoses | src/core/config.ts:825-836 | From settings that read well, the double fault makes a save report an error and leave no file |
| ConfigFiles.SaveLeaves | src/core/config.ts:806-836 | A save that reports success has put the merged settings in place and left neither the old copy nor the temporary file; a failed one removed its temporary file if that step worked; no other file is touched |
| ConfigFiles.QuietSave | src/core/config.ts:785-825 | Without faults a save succeeds on exactly the settings that can be read, and refuses otherwise |
| ConfigFiles.InterruptedSaves | src/core/config.ts:785-836 | Over any sequence of interrupted saves and reads, settings that exist never turn into none if and only if no save meets the double fault where it can strike; and then the end is the first settings with some of the patches merged in order: every one whose save reported success and none whose save was refused |
| ConfigFiles.RetrySettles | src/core/config.ts:785-836 | However many attempts to save a patch went wrong, short of a loss by the double fault, the file in force holds the old settings or the old ones with the patch, of whatever length, and the latter once one attempt reported success; while no attempt is longer than 256 KiB it stays readable |
| ConfigFiles.SavedReadable | src/core/config.ts:785-825 | A save that reports success leaves settings that can be read if and only if the text it wrote is within 256 KiB |
| ConfigFiles.TooLongToRead | src/core/config.ts:757-760 | An undisturbed first save of a longer text reports success, and an undisturbed read cannot read it |
| ConfigFiles.UnreadableStays | src/core/config.ts:748-795 | Settings that cannot be read stay in force through every later sequence of reads and saves, whatever faults strike, and none of those saves reports success |
| ConfigFiles.Directory.SaveOverride | src/core/config.ts:785-799 | Refuses to write over settings it could not read, and else replaces them by the merged ones |
| ConfigFiles.Directory.Replace | src/core/config.ts:804-825 | The rename protocol, step by step |
| Base58.Base58Encode | server/cloud-vault/official-badge.js:53-72 | The nested loops compute the encoding function |
| Base58.TakeByte | server/cloud-vault/official-badge.js:58-67 | The two loops of one round compute the carry function, each digit staying below 58 |
| Base58.SumsSmall | server/cloud-vault/official-badge.js:60-62 | Every sum of a carry and a shifted digit is below 58 * 256, so within 32 bits, every carry is at most 255, and the digits are the remainders of those sums |
| Base58.CarryValue | server/cloud-vault/official-badge.js:58-67 | Taking a byte in multiplies the number the digits denote by 256 and adds the byte |
| Base58.FeedTop | server/cloud-vault/official-badge.js:56-68 | Once a nonzero byte is read the top digit is nonzero |
| Base58.FeedIsNotation | server/cloud-vault/official-badge.js:56-68 | The digits are the base 58 notation of the number the bytes denote |
| Base58.StandardExactly | server/cloud-vault/official-badge.js:53-72 | The encoding is that of section 3 of draft-msporny-base58 if and only if some byte is not zero |
| Base58.RoundTripExactly | server/cloud-vault/official-badge.js:53-72 | Decoding by section 4 of draft-msporny-base58 returns the input if and only if some byte is not zero |
| Base58.Injective | server/cloud-vault/official-badge.js:53-72 | No two inputs share an encoding |
| Base58.DidKeysDiffer | server/cloud-vault/official-badge.js:79-84 | Two keys never share a did:key; it begins with `did:key:z`, and the rest decodes to 0xed 0x01 and the key |
| IpText.Ipv4Exactly | server/cloud-vault/geoip.js:104-116 | A text is accepted as a number if and only if it is the number's canonical dotted quad |
| Ip6Text.Ipv6Exactly | server/cloud-vault/geoip.js:122-160 | A text is read as a top half if and only if it is a text form of an address with that top half (full, leading zeros dropped, one `::` for one or more groups, trailing dotted quad), with an optional zone |
| Ip6Text.StandardExactly | server/cloud-vault/geoip.js:125-152 | Of the texts that are read, those without a dot before their `::` are exactly the ones written in a form of section 2.2 of RFC 4291 |
| Ip6Text.QuadBeforeGap | server/cloud-vault/geoip.js:130-137 | A text outside those forms that is read, with its value |
| GeoIp.Ipv4ToInt | server/cloud-vault/geoip.js:104-116 | The loop over the octets computes the reading function |
| GeoIp.PushParts | server/cloud-vault/geoip.js:130-146 | The push helper appends the groups of the parts, or fails |
| GeoIp.Ipv6ToTop64 | server/cloud-vault/geoip.js:122-160 | The whole parser computes the reading function |
| GeoIp.FindRange | server/cloud-vault/geoip.js:163-177 | Binary search: the index of the last start not above the value, or -1 |
| GeoIp.ScanFinds | server/cloud-vault/geoip.js:189-206 | On sorted disjoint ranges that index and one comparison give the answer of a linear scan, for every address |
| GeoIp.LookupCountry | server/cloud-vault/geoip.js:189-207 | The lookup agrees with the linear scan over the table its text selects |
| GeoIp.Ipv4Spellings | server/cloud-vault/geoip.js:194-197 | A text goes to the IPv4 table as a number if and only if it is the number's dotted quad, plainly or after `::ffff:` in letters of either case |
| GeoIp.Ipv4Found | server/cloud-vault/geoip.js:194-200 | An address in either of those spellings is found in the IPv4 table |
| GeoIp.Ipv6Found | server/cloud-vault/geoip.js:202-206 | Every text form of an IPv6 address, with or without a zone, other than `::ffff:` and a dotted quad alone is found in the IPv6 table by its top half |
| GeoIp.NothingElse | server/cloud-vault/geoip.js:194-206 | Any other text is found nowhere |
| GeoIp.MappedExactly | server/cloud-vault/geoip.js:194-206 | However an IPv4-mapped address is written, the IPv4 table answers for `::ffff:` and its dotted quad, and the IPv6 table, with a top half of zeros, for every other text of it |
| GeoIp.MappedSpelling | server/cloud-vault/geoip.js:194-206 | Two texts of one mapped address that go to different tables |
| Limiter.SendLimiter.AllowSend | signaling-server/push.js:197-216 | The answer and the new buckets, sweep and eviction included |
| Limiter.AnswersAreOwn | signaling-server/push.js:197-216 | A sender whose bucket is not evicted gets the answers of its own fixed-window counter, whatever is swept and whatever others send |
| Limiter.LetThroughExactly | signaling-server/push.js:197-216 | Over every run, a call of such a sender is let through if and only if no window opened before covers it, so that it opens one, or the window that does has let fewer than the limit through |
| Limiter.TwiceTheLimit | signaling-server/push.js:197-216 | Any interval one window long, wherever it starts, lets through at most twice the limit of such a sender (at most two when the limit is zero) |
| Limiter.TrimKeepsRest | signaling-server/push.js:210 | Eviction takes the first buckets of the map, as many as are too many, and leaves the others in order and as they were |
| Limiter.AgeOrderExactly | signaling-server/push.js:200-210 | When a window is opened, the map the eviction loop works on, after the sweep, is ordered by age if and only if, unless the key's own window was swept, every window that stands behind the key and outlived the sweep was opened at that same moment; so when the key is new or last |
| Limiter.RestartedEvictedFirst | signaling-server/push.js:208-210 | Four calls from an empty map after which eviction has taken a restarted, younger window before an older one |
| Tokens.InLockstep | signaling-server/tokenStore.js:41-152 | Given the same operations and clock, the memory and SQLite registries give the same answers throughout |
| Tokens.SetExactly | signaling-server/tokenStore.js:56-67 | A set is taken if and only if it brings a registered peer a later ts, or an unregistered one finds fewer than maxTokens live entries; then it stores what it was given; other peers lose nothing but expired entries, and those only to a new peer in a full registry |
| Tokens.GetExactly | signaling-server/tokenStore.js:68-76 | A read answers with the peer's entry if and only if it is live, and costs nothing but an expired entry its place |
| Tokens.ReadReturnsSet | signaling-server/tokenStore.js:56-76 | After an accepted set and any later run without a deletion of the peer or a set with a later ts, a read returns exactly what was set until its lifetime is over, and no longer |
| Tokens.NoRollback | signaling-server/tokenStore.js:56-67 | While a peer stays registered its ts never falls, and every change of its entry raises it |
| Tokens.WithinCap | signaling-server/tokenStore.js:61-64 | The registry never holds more than maxTokens |
| Tokens.MemoryTokenRegistry.SetToken | signaling-server/tokenStore.js:56-67 | Set on the map, sweeping entry by entry when full |
| Tokens.SqliteTokenRegistry.SetToken | signaling-server/tokenStore.js:123-132 | Set on the table, deleting stale rows at once when full |

## Left out

- Cryptography: signatures, HMAC, SHA-256 and AES are foreign calls. A blinded username is a number in the order of its digest, and different usernames are taken to have different digests.
- HTTP, Express, Socket.IO, FCM and Web Push transport, JSON replies, logging and the user interface.
- The SQL engine, schema migrations and write errors of the database other than those named.
- `validateMutation` and the other regular-expression and base64 shape checks: a mutation is taken as already normalised, and a ciphertext's length in characters is its length in bytes, as for base64 text.
- The owner-key check of `ensureAccount`, the descriptive columns of device rows and the enrolment listing.
- The lock file that `withAccountWriteLock` uses against other processes, whose staleness is a matter of time; `AccountLocks` covers the queue within one process.
- The batch and order of `mediaGcCandidates`: `Media.CollectsOnlyRequested` assumes nothing about the candidates, and makes no claim about the grace period across a re-upload.
- Deletion of the missed-call journal on acknowledgement: a socket that registers under another id meanwhile can drop calls recorded after the read.
- The in-memory copy of the configuration, the bundled defaults and the completion of relay pairs; undefined values in a patch count as absent keys, and printing settings and parsing them back is taken to give the same object.
- File system calls are taken to answer truthfully when they succeed; a power failure that undoes a completed write is not modelled.
- JavaScript numbers beyond 2^53; counters and times are unbounded integers. The 32-bit operations of `base58Encode` are covered by `Base58.SumsSmall`.
- Loading and building the geographic table; `GeoIp` takes any sorted table of disjoint ranges, and a text already trimmed.
- NoLossNoRepeat: makes no claim about the profile pulls of a device that also pulls all profiles; `SyncProfiles.ProfileLosesNothing` is about devices that never do.
- HonestRunSamePages: a newcomer that has received nothing yet sees only the rows retained at its enrolment, so its first page differs from that of a server that never compacts when rows were removed before, exactly as `SyncTransparency.SamePageExactly` says.
- Small members such as public avatars, seed bindings and notification filters, easy next to the above.
