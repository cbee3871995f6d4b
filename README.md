# Ivy moderation store, modelled in Dafny

Ivy is a Minecraft (Paper) moderation plugin. It keeps three tables:
- punishments (mutes, bans, kicks, with an optional expiration instant);
- evidence attached to punishments;
- an audit log of moderator actions.

It has three store implementations:
- `DataManager`, on SQLite. This is the one the plugin runs on. It writes "permanent" as the expiration `-1`.
- `SQLManager`, on a pooled JDBC database. It writes "permanent" as `NULL`.
- `MongoManager`. It writes "permanent" as a null field and removes with `deleteOne`.

Around the store sit:
- the `/mute`, `/rollback` and `/auditlog` commands;
- the chat listener that silences muted players;
- an HTTP API guarded by an API key.

This project models that core. Every store is a class:
- its tables are `seq` fields, with id counters beside them;
- each SQL statement or Mongo filter becomes a predicate over rows;
- each store operation is a method whose `ensures` gives the new tables and the result in terms of those predicates.

The query meanings are defined once, in `DatabaseManager`: active, expired, rollback match, evidence of a punishment, and the audit page. Each backend proves that its own encoding agrees with them. `BackendAgreement` then relates the backends to each other.

The commands, the chat listener and the API are modelled against the SQLite store.

Every wall-clock reading (`System.currentTimeMillis()`, `Instant.now()`) is an explicit parameter. Where the source reads the clock several times in one operation, each reading is its own parameter, and the lemmas say what changes when the readings differ.

Modules:
- **Wrappers.** `Option` and `Result`.
- **Text.** Kotlin's `toString` of numbers, `toLongOrNull` and `toIntOrNull`, `uppercase`, `trim`, `split` and its inverse.
- **Tables.** Filters, the first match, the stable descending sort (`ORDER BY ... DESC`) and `LIMIT`/`OFFSET` over sequences, with their lemmas.
- **Punishments, AuditLogs, TimeTable.** The records, the `Type` enum and the `Time` period table.
- **DatabaseManager.** The shared meaning of every query.
- **SqliteStore, SqlStore, MongoStore.** The three backends, one class each.
- **BackendAgreement.** Where the backends agree, and where they do not.
- **DurationFormat.** The `formatDuration` that `Mute.kt` and `ChatListener.kt` each define, with Java's truncating `/` and `%`. The four `TimeUnit` conversions form a table, and the text is assembled by recursion over it; `BuiltPieces` shows this is the source's four appends in order. The quotient is counted by repeated subtraction, and `QuotientIsDiv` relates it to `/`.
- **MuteCommand.** `/mute`.
- **RollbackCommand.** `/rollback`.
- **PatternFind.** `Regex.find` for the three patterns the audit-log command uses.
- **AuditLogCommand.** `/auditlog` and `/auditlog details`.
- **ChatListener.** The chat listener.
- **QueryString.** The API's `parseQueryString`.
- **Api.** The HTTP routes.

## Model

| member | source | states |
|---|---|---|
| Punishments.TypeValueOf | src/main/kotlin/cat/aubrey/ivy/types/Punishment.kt:27-29 | `valueOf` yields a constant exactly when its name is the input; every other text is the throwing case |
| Punishments.Punishment.WithId | src/main/kotlin/cat/aubrey/ivy/cmd/add/Mute.kt:48 | `copy(id = ...)` sets the id and leaves every other field as it was |
| TimeTable.FromString | src/main/kotlin/cat/aubrey/ivy/types/Time.kt:33-35 | finds period t exactly when t's text equals the input, so `fromString(t.duration) == t` |
| TimeTable.DurationInjective | src/main/kotlin/cat/aubrey/ivy/types/Time.kt:16-29 | no two periods share a text |
| TimeTable.EntriesComplete | src/main/kotlin/cat/aubrey/ivy/types/Time.kt:16-29 | every constant is in `entries`, at its declaration position |
| TimeTable.DurationShape | src/main/kotlin/cat/aubrey/ivy/types/Time.kt:17-28 | every period but PERMANENT is a positive decimal amount followed by m, h or d |
| TimeTable.FromStringIsExact | src/main/kotlin/cat/aubrey/ivy/types/Time.kt:34 | the match is exact and case-sensitive: "5M", "10m" and "PERMANENT" find nothing |
| Text.IntToString | src/main/kotlin/cat/aubrey/ivy/data/SQLManager.kt:230 | `Int.toString()`: the decimal digits of the absolute value, with '-' in front exactly for a negative number |
| Text.ParseLong | src/main/kotlin/cat/aubrey/ivy/cmd/add/Mute.kt:122 | `toLongOrNull` gives a value exactly for digits, or a '+' or '-' followed by digits; digits read as their decimal value, signed with the sign |
| Text.ParseLongOfInt | src/main/kotlin/cat/aubrey/ivy/cmd/add/Mute.kt:122 | the decimal text of any integer reads back as that integer |
| Text.ParseInt | src/main/kotlin/cat/aubrey/ivy/util/API.kt:121 | `toIntOrNull` is `toLongOrNull` restricted to the 32-bit range, and null outside it |
| Text.Upper | src/main/kotlin/cat/aubrey/ivy/cmd/Rollback.kt:57 | `uppercase` maps every character and keeps the length |
| Text.JoinSplit | src/main/kotlin/cat/aubrey/ivy/util/API.kt:192 | joining the pieces of `split(sep)` with sep gives the text back |
| Text.SplitJoin | src/main/kotlin/cat/aubrey/ivy/util/API.kt:192 | splitting the join of a non-empty list of separator-free pieces (empty pieces allowed) gives the pieces back |
| DatabaseManager.ExpiredAt | src/main/kotlin/cat/aubrey/ivy/data/SQLManager.kt:317-320 | the sweep condition is exactly the negation of the active condition |
| DatabaseManager.EvidenceList | src/main/kotlin/cat/aubrey/ivy/data/DatabaseManager.kt:29 | the evidence list holds exactly (id, text) of the rows attached to the punishment |
| DatabaseManager.AuditPage | src/main/kotlin/cat/aubrey/ivy/data/DatabaseManager.kt:31 | an audit page holds at most `limit` entries |
| DatabaseManager.PlayerAuditPage | src/main/kotlin/cat/aubrey/ivy/data/DatabaseManager.kt:32 | a player's audit page holds at most `limit` entries |
| DatabaseManager.AuditPageNewestFirst | src/main/kotlin/cat/aubrey/ivy/data/DatabaseManager.kt:31 | a page is sorted by timestamp, newest first, and its entries are log entries (a sub-multiset of the log); the first page holds the `limit` newest entries, none left out being newer than one listed |
| DatabaseManager.PlayerAuditPageIsRestriction | src/main/kotlin/cat/aubrey/ivy/data/DatabaseManager.kt:32 | a player's page is the newest-first log restricted to that player and then paged; every entry targets the player |
| DatabaseManager.DefaultPageIsWholeLog | src/main/kotlin/cat/aubrey/ivy/data/DatabaseManager.kt:31 | with the defaults (limit 10, offset 0) and at most ten entries, the page holds every entry of the log |
| DatabaseManager.AddedEntryIsFound | src/main/kotlin/cat/aubrey/ivy/data/DatabaseManager.kt:30-33 | an entry appended under a fresh key is the one found by that key, with its stored fields unchanged |
| SqliteStore.DecodeExpiration | src/main/kotlin/cat/aubrey/ivy/data/DataManager.kt:68 | the column reads back as "permanent" exactly when it holds -1, and as its own value otherwise |
| SqliteStore.EncodeExpiration | src/main/kotlin/cat/aubrey/ivy/data/DataManager.kt:36 | writing then reading an expiration gives it back exactly when it is not the instant -1; a permanent punishment stays permanent |
| SqliteStore.ToRow | src/main/kotlin/cat/aubrey/ivy/data/DataManager.kt:31-39 | the inserted row carries the generated id and the punishment's player, type and issue time |
| SqliteStore.ToPunishment | src/main/kotlin/cat/aubrey/ivy/data/DataManager.kt:63-71 | the punishment read from a row carries the row's id, player, type, issuer, issue time and reason |
| SqliteStore.RowRoundTrip | src/main/kotlin/cat/aubrey/ivy/data/DataManager.kt:31-75 | a punishment written and read back is itself under its new id, exactly when it does not expire at -1 |
| SqliteStore.RowActive | src/main/kotlin/cat/aubrey/ivy/data/DataManager.kt:299 | `expiration > ? OR expiration = -1` holds exactly when the punishment read back is active |
| SqliteStore.RowExpired | src/main/kotlin/cat/aubrey/ivy/data/DataManager.kt:305 | a row the sweep deletes is expired; for positive or sentinel expirations the sweep deletes exactly the expired rows |
| SqliteStore.ActivePunishment | src/main/kotlin/cat/aubrey/ivy/data/DataManager.kt:297-301 | the answer is in force for the player and type and comes from a row; there is no answer exactly when no row is in force |
| SqliteStore.ActiveIds | src/main/kotlin/cat/aubrey/ivy/data/DataManager.kt:364-367 | an id is listed exactly when some active row has it |
| SqliteStore.RecentIds | src/main/kotlin/cat/aubrey/ivy/data/DataManager.kt:358-362 | the decimal ids of min(limit, rows) rows of the table, latest issued first, with no row left out issued after a row listed |
| SqliteStore.AddedIsActive | src/main/kotlin/cat/aubrey/ivy/data/DataManager.kt:56-75 | a punishment added while none is in force for its player and type, and not expiring at -1, is the one found afterwards |
| SqliteStore.RemovedIsInactive | src/main/kotlin/cat/aubrey/ivy/data/DataManager.kt:47-54 | after the removal nothing is in force for that player and type |
| SqliteStore.SweepLeavesActive | src/main/kotlin/cat/aubrey/ivy/data/DataManager.kt:303-306 | after the sweep every row left is active or holds an expiration at or below zero |
| SqliteStore.ZeroExpirationIsStuck | src/main/kotlin/cat/aubrey/ivy/data/DataManager.kt:297-306 | a row expiring at instant 0 is, from then on, neither active nor swept, though it has expired |
| SqliteStore.SweepSelects | src/main/kotlin/cat/aubrey/ivy/data/DataManager.kt:303-306 | the sweep deletes exactly the rows with `0 < expiration <= now` and never a -1 row |
| SqliteStore.SweepIdempotent | src/main/kotlin/cat/aubrey/ivy/data/DataManager.kt:77-83 | a second sweep at the same instant deletes nothing |
| SqliteStore.SweptRowsAreListed | src/main/kotlin/cat/aubrey/ivy/data/DataManager.kt:364-367 | after a sweep, every row left that is permanent or has a positive expiration is listed by getActivePunishmentIds at the same instant |
| SqliteStore.DataManager.constructor | src/main/kotlin/cat/aubrey/ivy/data/DataManager.kt:25-29 | initTables leaves three empty tables with their counters at 1 |
| SqliteStore.DataManager.AddPunishment | src/main/kotlin/cat/aubrey/ivy/data/DataManager.kt:31-45 | appends exactly one row under the next key, above every earlier key, and returns that key; the caller's id is ignored |
| SqliteStore.DataManager.RemovePunishment | src/main/kotlin/cat/aubrey/ivy/data/DataManager.kt:47-54 | deletes every row in force for the player and type and nothing else; true exactly when there was one |
| SqliteStore.DataManager.GetActivePunishment | src/main/kotlin/cat/aubrey/ivy/data/DataManager.kt:56-75 | the first row in force for the player and type, read back, or none |
| SqliteStore.DataManager.CleanExpiredPunishments | src/main/kotlin/cat/aubrey/ivy/data/DataManager.kt:77-83 | deletes the rows the sweep selects, keeps the rest in order, and counts the deletions |
| SqliteStore.DataManager.RollbackPunishments | src/main/kotlin/cat/aubrey/ivy/data/DataManager.kt:85-122 | returns the rollback matches in table order and deletes exactly those; together they account for every row; evidence is untouched |
| SqliteStore.DataManager.ReadPunishments | src/main/kotlin/cat/aubrey/ivy/data/DataManager.kt:98-110 | the `while (rs.next())` loop reads one punishment per row, in order |
| SqliteStore.DataManager.AddEvidence | src/main/kotlin/cat/aubrey/ivy/data/DataManager.kt:124-130 | appends one evidence row under the next key and reports true |
| SqliteStore.DataManager.RemoveEvidence | src/main/kotlin/cat/aubrey/ivy/data/DataManager.kt:132-138 | deletes only a row with both the evidence id and the punishment id; true exactly when one existed, otherwise nothing changes |
| SqliteStore.DataManager.GetEvidenceForPunishment | src/main/kotlin/cat/aubrey/ivy/data/DataManager.kt:140-150 | (id, text) of the punishment's evidence rows, in table order |
| SqliteStore.DataManager.AddAuditLogEntry | src/main/kotlin/cat/aubrey/ivy/data/DataManager.kt:152-161 | appends the entry's five fields under the next key, ignoring its own id; returns the update count 1 |
| SqliteStore.DataManager.GetAuditLog | src/main/kotlin/cat/aubrey/ivy/data/DataManager.kt:163-180 | the audit page of the whole log |
| SqliteStore.DataManager.GetAuditLogForPlayer | src/main/kotlin/cat/aubrey/ivy/data/DataManager.kt:182-200 | the audit page of the entries targeting the player |
| SqliteStore.DataManager.GetAuditLogEntry | src/main/kotlin/cat/aubrey/ivy/data/DataManager.kt:202-216 | the one entry with that id, or none exactly when no entry has it |
| SqliteStore.DataManager.GetRecentPunishmentIds | src/main/kotlin/cat/aubrey/ivy/data/DataManager.kt:218-225 | RecentIds of the table: the ids of the `limit` latest-issued rows, latest first |
| SqliteStore.DataManager.GetActivePunishmentIds | src/main/kotlin/cat/aubrey/ivy/data/DataManager.kt:227-234 | the ids of the active rows |
| SqlStore.ActivePunishment | src/main/kotlin/cat/aubrey/ivy/data/SQLManager.kt:311-315 | the answer is a row in force for the player and type; there is no answer exactly when no row is in force |
| SqlStore.ActiveIds | src/main/kotlin/cat/aubrey/ivy/data/SQLManager.kt:378-381 | at most one id per row; an id is listed exactly when some unexpired row has it |
| SqlStore.RecentIds | src/main/kotlin/cat/aubrey/ivy/data/SQLManager.kt:372-376 | the decimal ids of min(limit, rows) rows of the table, latest issued first, with no row left out issued after a row listed |
| SqlStore.SweepLeavesOnlyActive | src/main/kotlin/cat/aubrey/ivy/data/SQLManager.kt:317-320 | with NULL for "permanent", every row left after the sweep is active |
| SqlStore.AddedIsActive | src/main/kotlin/cat/aubrey/ivy/data/SQLManager.kt:64-83 | a punishment added while none is in force for its player and type is the one found |
| SqlStore.SweepSelects | src/main/kotlin/cat/aubrey/ivy/data/SQLManager.kt:317-320 | the sweep deletes exactly the rows with a non-null expiration at or before `now` |
| SqlStore.SweepIdempotent | src/main/kotlin/cat/aubrey/ivy/data/SQLManager.kt:85-91 | a second sweep at the same instant deletes nothing |
| SqlStore.SqlManager.constructor | src/main/kotlin/cat/aubrey/ivy/data/SQLManager.kt:27-37 | three empty tables with their id counters at 1 |
| SqlStore.SqlManager.AddPunishment | src/main/kotlin/cat/aubrey/ivy/data/SQLManager.kt:39-53 | appends the punishment under the next key and returns that key |
| SqlStore.SqlManager.RemovePunishment | src/main/kotlin/cat/aubrey/ivy/data/SQLManager.kt:55-62 | deletes every row in force for the player and type, answering true exactly when there was one; refused with nothing deleted when an evidence row references one of them |
| SqlStore.SqlManager.GetActivePunishment | src/main/kotlin/cat/aubrey/ivy/data/SQLManager.kt:64-83 | the first row in force for the player and type, or none |
| SqlStore.SqlManager.CleanExpiredPunishments | src/main/kotlin/cat/aubrey/ivy/data/SQLManager.kt:85-91 | deletes the expired rows and counts them; refused with nothing deleted when an evidence row references one of them |
| SqlStore.SqlManager.RollbackPunishments | src/main/kotlin/cat/aubrey/ivy/data/SQLManager.kt:93-130 | returns exactly the rows it deletes, and the two parts are a permutation of the table; when an evidence row references a selected row the delete is refused, nothing changes and the call throws |
| SqlStore.SqlManager.ReadPunishments | src/main/kotlin/cat/aubrey/ivy/data/SQLManager.kt:106-118 | the result-set loop reads every row, in order |
| SqlStore.SqlManager.AddEvidence | src/main/kotlin/cat/aubrey/ivy/data/SQLManager.kt:132-138 | succeeds exactly when a punishment has the id, appending one evidence row under the next key and answering true; otherwise refused with nothing changed |
| SqlStore.DeleteKeepsKeys | src/main/kotlin/cat/aubrey/ivy/data/SQLManager.kt:292-298 | a delete the foreign key lets through leaves every evidence row's punishment in the table (the invariant every SqlManager method keeps) |
| SqlStore.SqlManager.RemoveEvidence | src/main/kotlin/cat/aubrey/ivy/data/SQLManager.kt:140-146 | deletes only the row with both ids; true exactly when it existed |
| SqlStore.SqlManager.GetEvidenceForPunishment | src/main/kotlin/cat/aubrey/ivy/data/SQLManager.kt:148-158 | (id, text) of the punishment's evidence rows |
| SqlStore.SqlManager.AddAuditLogEntry | src/main/kotlin/cat/aubrey/ivy/data/SQLManager.kt:160-169 | appends the entry under the next key; true, one row having been inserted |
| SqlStore.SqlManager.GetAuditLog | src/main/kotlin/cat/aubrey/ivy/data/SQLManager.kt:171-188 | the audit page of the whole log |
| SqlStore.SqlManager.GetAuditLogForPlayer | src/main/kotlin/cat/aubrey/ivy/data/SQLManager.kt:190-208 | the audit page of the player's entries |
| SqlStore.SqlManager.GetAuditLogEntry | src/main/kotlin/cat/aubrey/ivy/data/SQLManager.kt:210-224 | an entry with that id and its stored fields, or none exactly when there is no such entry |
| SqlStore.SqlManager.GetRecentPunishmentIds | src/main/kotlin/cat/aubrey/ivy/data/SQLManager.kt:226-233 | RecentIds of the table: the ids of the `limit` latest-issued rows, latest first |
| SqlStore.SqlManager.GetActivePunishmentIds | src/main/kotlin/cat/aubrey/ivy/data/SQLManager.kt:235-242 | the ids of the active rows |
| SqlStore.SqlManager.Close | src/main/kotlin/cat/aubrey/ivy/data/SQLManager.kt:244-248 | the pool is closed afterwards, whether or not it was before; nothing else changes |
| MongoStore.HexString | src/main/kotlin/cat/aubrey/ivy/data/MongoManager.kt:176 | an ObjectId's text is 24 characters long |
| MongoStore.ObjectIdFromString | src/main/kotlin/cat/aubrey/ivy/data/MongoManager.kt:124 | `ObjectId(String)` succeeds exactly on 24 hexadecimal digits |
| MongoStore.IntTextIsNoObjectId | src/main/kotlin/cat/aubrey/ivy/data/MongoManager.kt:124 | the decimal text of any 32-bit integer is rejected by `ObjectId(String)` |
| MongoStore.HashBits | src/main/kotlin/cat/aubrey/ivy/data/MongoManager.kt:55 | the unsigned `String.hashCode` lies below 2^32 |
| MongoStore.HashCode | src/main/kotlin/cat/aubrey/ivy/data/MongoManager.kt:55 | the hash is a signed 32-bit value congruent to the unsigned one |
| MongoStore.DocumentToPunishment | src/main/kotlin/cat/aubrey/ivy/data/MongoManager.kt:190-200 | every field as stored, the id replaced by the hash of the ObjectId's text |
| MongoStore.DocumentRoundTrip | src/main/kotlin/cat/aubrey/ivy/data/MongoManager.kt:45-55 | a punishment written and read back is itself under its hash id, permanent ones included |
| MongoStore.ActivePunishment | src/main/kotlin/cat/aubrey/ivy/data/MongoManager.kt:72-85 | the answer is in force for the player and type; none exactly when no document is in force |
| MongoStore.RecentIds | src/main/kotlin/cat/aubrey/ivy/data/MongoManager.kt:172-178 | the ObjectId texts of min(limit, documents) documents, or of all of them for `limit(0)`, latest issued first, with no document left out issued after one listed |
| MongoStore.EffectiveLimit | src/main/kotlin/cat/aubrey/ivy/data/MongoManager.kt:149-178 | Mongo's `limit(0)` places no limit; any other limit is kept |
| MongoStore.AuditDocPage | src/main/kotlin/cat/aubrey/ivy/data/MongoManager.kt:149-156 | sort, skip and limit over the documents is the SQL stores' audit page of the documents read as entries, `limit(0)` taking them all |
| MongoStore.AuditDocPageNewestFirst | src/main/kotlin/cat/aubrey/ivy/data/MongoManager.kt:149-156 | the page lists stored entries, newest first, at most `limit` unless the limit is 0 |
| MongoStore.ActiveIds | src/main/kotlin/cat/aubrey/ivy/data/MongoManager.kt:180-188 | at most one id per document; an id is listed exactly when some unexpired document's id maps to it |
| MongoStore.RemoveLeavesSecond | src/main/kotlin/cat/aubrey/ivy/data/MongoManager.kt:58-70 | with two documents in force for a player and type, after deleteOne the second is still found |
| MongoStore.RemoveAgreesWhenUnique | src/main/kotlin/cat/aubrey/ivy/data/MongoManager.kt:58-70 | with at most one document in force, deleteOne removes what the SQL DELETE removes |
| MongoStore.SweepLeavesOnlyActive | src/main/kotlin/cat/aubrey/ivy/data/MongoManager.kt:87-95 | after the sweep every document left is active |
| MongoStore.AuditByReportedId | src/main/kotlin/cat/aubrey/ivy/data/MongoManager.kt:167-170 | the entry found carries the requested id; none exactly when no document's id hashes to it |
| MongoStore.ListedEntryIsFound | src/main/kotlin/cat/aubrey/ivy/data/MongoManager.kt:202-211 | the lookup by a listed entry's id finds the first document with that id, at or before it; it is the listed entry itself exactly when no earlier document shares the hash |
| MongoStore.SweepIdempotent | src/main/kotlin/cat/aubrey/ivy/data/MongoManager.kt:87-95 | a second sweep at the same instant deletes nothing |
| MongoStore.MongoManager.constructor | src/main/kotlin/cat/aubrey/ivy/data/MongoManager.kt:29-43 | an open client with three empty collections and the ObjectId counter at 1 |
| MongoStore.MongoManager.AddPunishment | src/main/kotlin/cat/aubrey/ivy/data/MongoManager.kt:45-56 | inserts one document under a fresh ObjectId and returns the hash of its text |
| MongoStore.MongoManager.RemovePunishment | src/main/kotlin/cat/aubrey/ivy/data/MongoManager.kt:58-70 | deletes only the first document in force for the player and type; true exactly when there was one |
| MongoStore.MongoManager.GetActivePunishment | src/main/kotlin/cat/aubrey/ivy/data/MongoManager.kt:72-85 | the first document in force, read back, or none |
| MongoStore.MongoManager.CleanExpiredPunishments | src/main/kotlin/cat/aubrey/ivy/data/MongoManager.kt:87-95 | deletes exactly the documents with a non-null expiration at or before `now` |
| MongoStore.MongoManager.RollbackPunishments | src/main/kotlin/cat/aubrey/ivy/data/MongoManager.kt:97-110 | one filter for find and deleteMany: returns exactly what it deletes |
| MongoStore.MongoManager.AddEvidence | src/main/kotlin/cat/aubrey/ivy/data/MongoManager.kt:112-119 | inserts one evidence document; acknowledged |
| MongoStore.MongoManager.RemoveEvidence | src/main/kotlin/cat/aubrey/ivy/data/MongoManager.kt:121-129 | as written it always throws and deletes nothing |
| MongoStore.MongoManager.RemoveEvidenceByReportedId | src/main/kotlin/cat/aubrey/ivy/data/MongoManager.kt:121-129 | corrected: deletes the first evidence document of the punishment whose reported id matches; true exactly when one does |
| MongoStore.MongoManager.GetEvidenceForPunishment | src/main/kotlin/cat/aubrey/ivy/data/MongoManager.kt:131-135 | (hash id, text) of exactly the punishment's evidence documents: a pair is listed iff some document of that punishment gives it |
| MongoStore.MongoManager.AddAuditLogEntry | src/main/kotlin/cat/aubrey/ivy/data/MongoManager.kt:137-147 | inserts the entry's five fields under a fresh ObjectId; acknowledged |
| MongoStore.MongoManager.GetAuditLog | src/main/kotlin/cat/aubrey/ivy/data/MongoManager.kt:149-156 | the SQL stores' audit page of the stored entries, newest first and drawn from the log, `limit(0)` taking them all |
| MongoStore.MongoManager.GetAuditLogForPlayer | src/main/kotlin/cat/aubrey/ivy/data/MongoManager.kt:158-165 | the SQL stores' player page of the stored entries: only entries about the player, `limit(0)` taking them all |
| MongoStore.MongoManager.GetAuditLogEntry | src/main/kotlin/cat/aubrey/ivy/data/MongoManager.kt:167-170 | as written the lookup always throws |
| MongoStore.MongoManager.GetAuditLogEntryByReportedId | src/main/kotlin/cat/aubrey/ivy/data/MongoManager.kt:167-170 | corrected: the entry whose reported id is the one asked for |
| MongoStore.MongoManager.GetRecentPunishmentIds | src/main/kotlin/cat/aubrey/ivy/data/MongoManager.kt:172-178 | RecentIds of the collection: ObjectId texts of the latest-issued documents, latest first |
| MongoStore.MongoManager.GetActivePunishmentIds | src/main/kotlin/cat/aubrey/ivy/data/MongoManager.kt:180-188 | hash ids of the active documents |
| MongoStore.MongoManager.Close | src/main/kotlin/cat/aubrey/ivy/data/MongoManager.kt:213-215 | the client is closed afterwards |
| BackendAgreement.ActiveAgreesSqliteSql | src/main/kotlin/cat/aubrey/ivy/data/DataManager.kt:297-301 | the SQLite lookup answers what the NULL-encoded table of the same punishments answers |
| BackendAgreement.ActiveAgreesMongoSql | src/main/kotlin/cat/aubrey/ivy/data/MongoManager.kt:72-85 | the Mongo lookup answers what the SQL table of its documents answers |
| BackendAgreement.ActiveIdsAgreeSqliteSql | src/main/kotlin/cat/aubrey/ivy/data/DataManager.kt:364-367 | SQLite and SQL list the same active ids |
| BackendAgreement.RollbackAgreesSqliteSql | src/main/kotlin/cat/aubrey/ivy/data/DataManager.kt:308-322 | SQLite and SQL select the same punishments for a rollback, in order |
| BackendAgreement.RollbackAgreesMongoSql | src/main/kotlin/cat/aubrey/ivy/data/MongoManager.kt:97-110 | Mongo and SQL select the same punishments for a rollback |
| BackendAgreement.SweepAgreesSqliteSql | src/main/kotlin/cat/aubrey/ivy/data/DataManager.kt:303-306 | when every stored expiration is positive or -1, the SQLite sweep keeps what the SQL sweep keeps |
| BackendAgreement.SweepDisagreesAtZero | src/main/kotlin/cat/aubrey/ivy/data/DataManager.kt:303-306 | the condition is needed: expiration 0 survives the SQLite sweep and not the SQL one |
| BackendAgreement.SweepAgreesMongoSql | src/main/kotlin/cat/aubrey/ivy/data/MongoManager.kt:87-95 | the Mongo sweep keeps what the SQL sweep keeps |
| BackendAgreement.RecentIdsLimitZero | src/main/kotlin/cat/aubrey/ivy/data/MongoManager.kt:172-178 | a limit of 0 lists nothing from SQL and everything from Mongo |
| DurationFormat.QuotientIsDiv | src/main/kotlin/cat/aubrey/ivy/cmd/add/Mute.kt:140 | repeated subtraction of the unit size counts the whole units in a non-negative length |
| DurationFormat.TruncDivSign | src/main/kotlin/cat/aubrey/ivy/cmd/add/Mute.kt:140 | `TimeUnit` conversion truncates toward zero: the floor quotient for non-negative lengths, never positive for negative ones |
| DurationFormat.TruncModSign | src/main/kotlin/cat/aubrey/ivy/cmd/add/Mute.kt:141 | Java's `%` keeps the dividend's sign: the floor remainder for non-negative dividends, never positive for negative ones |
| DurationFormat.PartsArithmetic | src/main/kotlin/cat/aubrey/ivy/cmd/add/Mute.kt:140-143 | for a non-negative length the four parts are the whole days, and the hours, minutes and seconds within the next unit up |
| DurationFormat.BuiltPieces | src/main/kotlin/cat/aubrey/ivy/cmd/add/Mute.kt:145-150 | the text assembled is the four conditional appends in order, days, hours, minutes, seconds, each but the last ending in a space |
| DurationFormat.PartsSpelled | src/main/kotlin/cat/aubrey/ivy/cmd/add/Mute.kt:140-150 | the parts are those of the days, hours, minutes and seconds, in that order |
| DurationFormat.TrimPiecesIsJoin | src/main/kotlin/cat/aubrey/ivy/cmd/add/Mute.kt:145-150 | whatever the four counts, the trimmed appends are the positive parts joined by single spaces, each part with nothing around it |
| DurationFormat.FormatDurationIsJoin | src/main/kotlin/cat/aubrey/ivy/cmd/add/Mute.kt:139-151 | the text is the positive parts among days, hours, minutes and seconds, in that order, separated by single spaces, with nothing around them |
| DurationFormat.PartsBelowOneSecond | src/main/kotlin/cat/aubrey/ivy/cmd/add/Mute.kt:139-151 | under one second, negative lengths included, no part is positive |
| DurationFormat.PartsFromOneSecond | src/main/kotlin/cat/aubrey/ivy/cmd/add/Mute.kt:139-151 | from one second on, some part is positive |
| DurationFormat.FormatDurationEmpty | src/main/kotlin/cat/aubrey/ivy/cmd/add/Mute.kt:139-151 | the text is empty exactly when the length is under 1000 ms |
| DurationFormat.FormatWholeMinutes | src/main/kotlin/cat/aubrey/ivy/cmd/add/Mute.kt:139-151 | n whole minutes under an hour read "n minutes" |
| DurationFormat.FormatWholeHours | src/main/kotlin/cat/aubrey/ivy/cmd/add/Mute.kt:139-151 | n whole hours under a day read "n hours" |
| DurationFormat.FormatWholeDays | src/main/kotlin/cat/aubrey/ivy/cmd/add/Mute.kt:139-151 | n whole days read "n days" |
| DurationFormat.MinutesSecondsParts | src/main/kotlin/cat/aubrey/ivy/cmd/add/Mute.kt:139-151 | a length of m minutes and s seconds under an hour reads "m minutes s seconds" |
| DurationFormat.FormatMinutesLessASecond | src/main/kotlin/cat/aubrey/ivy/cmd/add/Mute.kt:139-151 | n whole minutes less up to one second read "n-1 minutes 59 seconds" |
| MuteCommand.UnitMillis | src/main/kotlin/cat/aubrey/ivy/cmd/add/Mute.kt:123-128 | exactly s, m, h and d have a length, and it is positive |
| MuteCommand.ParseDurationOutcome | src/main/kotlin/cat/aubrey/ivy/cmd/add/Mute.kt:120-130 | "permanent" gives none; otherwise the result is an instant exactly when the prefix reads as a number and the last letter is a unit; each of the two errors exactly in its case |
| MuteCommand.ParseAmountAndUnit | src/main/kotlin/cat/aubrey/ivy/cmd/add/Mute.kt:122-129 | "<n><unit>" in either case reads as now + n units, for every integer n |
| MuteCommand.NegativeAmountIsPast | src/main/kotlin/cat/aubrey/ivy/cmd/add/Mute.kt:122 | a negative amount is accepted and gives an instant in the past |
| MuteCommand.ParsePeriod | src/main/kotlin/cat/aubrey/ivy/cmd/add/Mute.kt:69 | every period of the table parses, PERMANENT to none and the others to their length after now |
| MuteCommand.PeriodOf | src/main/kotlin/cat/aubrey/ivy/cmd/add/Mute.kt:68 | a period is found exactly when a duration is given and the table lists it |
| MuteCommand.CreatePunishment | src/main/kotlin/cat/aubrey/ivy/cmd/add/Mute.kt:67-80 | a MUTE of the target with id 0, the reason and issuer = sender; issuedAt is its own clock reading, and the expiration is the chosen period after parseDuration's reading, none when no period is listed |
| MuteCommand.ParsedExpiration | src/main/kotlin/cat/aubrey/ivy/cmd/add/Mute.kt:69 | parsing a period of the table cannot throw |
| MuteCommand.UnlistedDurationIsPermanent | src/main/kotlin/cat/aubrey/ivy/cmd/add/Mute.kt:68-69 | an omitted or unlisted duration mutes permanently |
| MuteCommand.ListedDurationExpires | src/main/kotlin/cat/aubrey/ivy/cmd/add/Mute.kt:68-69 | a listed period other than PERMANENT expires its length after now |
| MuteCommand.LateClockDropsAMinute | src/main/kotlin/cat/aubrey/ivy/cmd/add/Mute.kt:104-113 | as written, with the audit step's reading 1 to 1000 ms after parseDuration's, a 5/15/30-minute mute is logged as "n-1 minutes 59 seconds", whenever it was issued |
| MuteCommand.LateMinutesText | src/main/kotlin/cat/aubrey/ivy/cmd/add/Mute.kt:132-137 | n whole minutes seen up to a second late read "for n-1 minutes 59 seconds" |
| MuteCommand.GrantedDurationText | src/main/kotlin/cat/aubrey/ivy/cmd/add/Mute.kt:132-137 | corrected: measured from parseDuration's own reading, every period of the table reads as chosen ("for 5 minutes", ..., "permanently"), whenever the issue instant is read |
| MuteCommand.WholePeriodText | src/main/kotlin/cat/aubrey/ivy/cmd/add/Mute.kt:132-151 | a whole number of one unit, measured at issue, reads "for n unit" |
| MuteCommand.OnMute | src/main/kotlin/cat/aubrey/ivy/cmd/add/Mute.kt:34-49 | with a mute in force nothing is added; otherwise exactly one punishment row and exactly one MUTE audit entry, whose details carry the new id and the duration text of the audit step's own reading |
| MuteCommand.MuteIsEnforced | src/main/kotlin/cat/aubrey/ivy/cmd/add/Mute.kt:42-43 | the new mute is the one getActivePunishment finds while it is in force |
| MuteCommand.PeriodExpirationNotSentinel | src/main/kotlin/cat/aubrey/ivy/cmd/add/Mute.kt:120-130 | from a non-negative clock, no period's expiration is the SQLite sentinel -1 |
| RollbackCommand.WindowUnitMillis | src/main/kotlin/cat/aubrey/ivy/cmd/Rollback.kt:82-87 | exactly m, h and d have a length |
| RollbackCommand.ParseAgreesWithMute | src/main/kotlin/cat/aubrey/ivy/cmd/Rollback.kt:80-88 | apart from "permanent" and seconds, this parser accepts what the mute parser accepts, with the same length |
| RollbackCommand.SecondsRejected | src/main/kotlin/cat/aubrey/ivy/cmd/Rollback.kt:82-87 | "30s" is refused here, though the mute parser takes it |
| RollbackCommand.ParsePeriod | src/main/kotlin/cat/aubrey/ivy/cmd/Rollback.kt:49-53 | PERMANENT fails to parse; every other period parses to its length |
| RollbackCommand.ParseTypeCases | src/main/kotlin/cat/aubrey/ivy/cmd/Rollback.kt:55-65 | a type is picked by its name in any case; ALL in any case or no argument picks all; anything else is refused with the type message |
| RollbackCommand.ReportCounts | src/main/kotlin/cat/aubrey/ivy/cmd/Rollback.kt:70-77 | an empty result reports "No punishments found to rollback."; otherwise the report names the count of punishments rolled back |
| RollbackCommand.PeriodLength | src/main/kotlin/cat/aubrey/ivy/cmd/Rollback.kt:49 | the length of every period but PERMANENT, which has none |
| RollbackCommand.WindowStartCases | src/main/kotlin/cat/aubrey/ivy/cmd/Rollback.kt:43-67 | the window is refused exactly for an unlisted period or PERMANENT; otherwise it starts at now minus the period's length |
| RollbackCommand.OnRollback | src/main/kotlin/cat/aubrey/ivy/cmd/Rollback.kt:37-78 | a refused period changes nothing; otherwise the type check and the store rollback from the window start |
| RollbackCommand.RollbackSince | src/main/kotlin/cat/aubrey/ivy/cmd/Rollback.kt:55-68 | a bad type changes nothing; otherwise the moderator's matches since the start are rolled back and reported |
| RollbackCommand.RollbackSplitsTable | src/main/kotlin/cat/aubrey/ivy/cmd/Rollback.kt:68 | every punishment reported is the moderator's, issued inside the window, of the chosen type; the rest of the table is exactly what stays |
| PatternFind.Run | src/main/kotlin/cat/aubrey/ivy/cmd/AuditLog.kt:112-114 | the greedy group is the longest prefix inside the character class |
| PatternFind.FindIsLeftmost | src/main/kotlin/cat/aubrey/ivy/cmd/AuditLog.kt:116-118 | no match exactly when the pattern matches nowhere; otherwise the group at the leftmost match |
| AuditLogCommand.DurationTextPlain | src/main/kotlin/cat/aubrey/ivy/cmd/add/Mute.kt:132-151 | every duration text a mute writes is non-empty and holds only lower-case letters, digits and spaces |
| AuditLogCommand.IdSlotReadsBack | src/main/kotlin/cat/aubrey/ivy/cmd/AuditLog.kt:112 | the id slot of a mute's details is the punishment id, for a non-negative id |
| AuditLogCommand.ReasonSlotReadsBack | src/main/kotlin/cat/aubrey/ivy/cmd/AuditLog.kt:114 | the reason slot is the reason, or "None" for no reason, when it is non-empty and comma-free |
| AuditLogCommand.EmptyReasonSlot | src/main/kotlin/cat/aubrey/ivy/cmd/AuditLog.kt:114 | an empty reason leaves the reason slot empty |
| AuditLogCommand.DurationSlotReadsBack | src/main/kotlin/cat/aubrey/ivy/cmd/AuditLog.kt:113 | the duration slot is the duration text when the reason holds no colon |
| AuditLogCommand.MuteDetailsRoundTrip | src/main/kotlin/cat/aubrey/ivy/cmd/AuditLog.kt:111-125 | the details a mute writes read back whole: id, duration text and reason |
| AuditLogCommand.ReasonCanShadowDuration | src/main/kotlin/cat/aubrey/ivy/cmd/AuditLog.kt:113 | whatever the id and the real duration text, a reason "Duration: forever" is what the duration slot then shows |
| AuditLogCommand.ListedEntriesTargetPlayer | src/main/kotlin/cat/aubrey/ivy/cmd/AuditLog.kt:36-40 | at most ten entries, newest first, all about the player when one is named |
| AuditLogCommand.OnAuditLog | src/main/kotlin/cat/aubrey/ivy/cmd/AuditLog.kt:35-66 | the "no entries" view exactly when the page is empty; otherwise one line per entry, in order |
| AuditLogCommand.MuteEntryLine | src/main/kotlin/cat/aubrey/ivy/cmd/AuditLog.kt:49-63 | a mute's list line shows the punishment id and its duration text |
| AuditLogCommand.OnAuditLogDetails | src/main/kotlin/cat/aubrey/ivy/cmd/AuditLog.kt:71-102 | the details view of the first entry with that id, or the not-found view, with the evidence its id slot names |
| AuditLogCommand.EvidenceOnlyWithId | src/main/kotlin/cat/aubrey/ivy/cmd/AuditLog.kt:90-100 | evidence is looked up exactly when the details name a punishment id |
| AuditLogCommand.MuteEntryDetails | src/main/kotlin/cat/aubrey/ivy/cmd/AuditLog.kt:85-100 | a mute entry's details view shows its id, duration text and reason, and exactly that punishment's evidence |
| AuditLogCommand.OversizedIdThrows | src/main/kotlin/cat/aubrey/ivy/cmd/AuditLog.kt:91 | an id beyond the Int range makes `toInt()` throw |
| ChatListener.CreateMuteMessage | src/main/kotlin/cat/aubrey/ivy/util/ChatListener.kt:46-65 | permanent message exactly for no expiration; expired message exactly when the expiration has come; the remaining time is empty exactly under one second |
| ChatListener.RemainingTimeParts | src/main/kotlin/cat/aubrey/ivy/util/ChatListener.kt:67-79 | the remaining time names its positive parts separated by single spaces |
| ChatListener.MessageTextsDistinct | src/main/kotlin/cat/aubrey/ivy/util/ChatListener.kt:46-65 | two messages read the same exactly when they are the same message |
| ChatListener.SubSecondMuteText | src/main/kotlin/cat/aubrey/ivy/util/ChatListener.kt:53-61 | under a second left, the message names no time at all |
| ChatListener.HasExpired | src/main/kotlin/cat/aubrey/ivy/util/ChatListener.kt:81-82 | exactly the SQL sweep condition, and exactly "not active" |
| ChatListener.OnPlayerChat | src/main/kotlin/cat/aubrey/ivy/util/ChatListener.kt:31-44 | cancelled exactly when a mute is in force for the speaker; that mute's message; removal exactly when it has expired by the check |
| ChatListener.SingleReadingKeepsMute | src/main/kotlin/cat/aubrey/ivy/util/ChatListener.kt:33-42 | on one clock reading, the mute found has neither expired nor yields the expired message |
| ChatListener.RemovalSparesFoundMute | src/main/kotlin/cat/aubrey/ivy/util/ChatListener.kt:40-42 | with the clock moving forward, every row the removal deletes is another mute of the speaker still in force |
| ChatListener.ExpiringMuteEndsAnother | src/main/kotlin/cat/aubrey/ivy/util/ChatListener.kt:40-42 | a chat message sent as one mute runs out deletes a second mute that still had most of an hour to go |
| QueryString.KeyValue | src/main/kotlin/cat/aubrey/ivy/util/API.kt:193 | the destructuring fails exactly when the piece has no '='; otherwise key and value hold no '=' |
| QueryString.AssociateFails | src/main/kotlin/cat/aubrey/ivy/util/API.kt:191-195 | the parse fails exactly when some piece has no '=' |
| QueryString.AssociateKeys | src/main/kotlin/cat/aubrey/ivy/util/API.kt:192-194 | the keys are exactly those of the pieces |
| QueryString.LookupCases | src/main/kotlin/cat/aubrey/ivy/util/API.kt:191-195 | looking a key up in the collected pieces: it fails exactly when some piece lacks '='; otherwise the key is there exactly when some piece names it, with the last such piece's value |
| QueryString.AssociateLastWins | src/main/kotlin/cat/aubrey/ivy/util/API.kt:192-194 | each key holds the value of the last piece naming it |
| QueryString.ParseBuiltQuery | src/main/kotlin/cat/aubrey/ivy/util/API.kt:191-195 | a query built from '&'/'='-free pairs parses back: the pairs' keys, the last value of each |
| QueryString.EmptyPieceThrows | src/main/kotlin/cat/aubrey/ivy/util/API.kt:192-193 | an empty query and a trailing '&' make the parse throw |
| QueryString.ValueCutAtEquals | src/main/kotlin/cat/aubrey/ivy/util/API.kt:193 | a value holding '=' is cut there |
| Api.QueryParamCases | src/main/kotlin/cat/aubrey/ivy/util/API.kt:66-67 | the lookup throws exactly when a piece lacks '='; otherwise it finds the name exactly when a piece names it, with the last such piece's value |
| Api.RandomLookups | src/main/kotlin/cat/aubrey/ivy/util/API.kt:71-73 | at most one punishment per random player asked |
| Api.RandomLookupsFindRandomMutes | src/main/kotlin/cat/aubrey/ivy/util/API.kt:71-73 | it lists only mutes in force for the random players |
| Api.RandomLookupsEmpty | src/main/kotlin/cat/aubrey/ivy/util/API.kt:71-73 | it lists nothing when no random player has a row |
| Api.PunishmentsListingCases | src/main/kotlin/cat/aubrey/ivy/util/API.kt:65-76 | 200 unless the query throws; with `playerId`, that player's mute in force or an empty list |
| Api.HandleGetPunishments | src/main/kotlin/cat/aubrey/ivy/util/API.kt:65-76 | answers the listing of the current table |
| Api.LookUpRandomPlayers | src/main/kotlin/cat/aubrey/ivy/util/API.kt:71-73 | the `mapNotNull` loop yields the random lookups |
| Api.LookUp | src/main/kotlin/cat/aubrey/ivy/util/API.kt:69 | the player's mute in force as a list of at most one |
| Api.HandlePostPunishment | src/main/kotlin/cat/aubrey/ivy/util/API.kt:78-82 | a null body, or one lacking the player, the type or the issuer, throws and nothing is stored; any other body is stored as it came and answered 201 with the store's id |
| Api.BodyPunishment | src/main/kotlin/cat/aubrey/ivy/data/DataManager.kt:31-37 | no punishment exactly when the player, the type or the issuer is missing (the insert dereferences the first two and the issuer column is NOT NULL); otherwise the body's own fields |
| Api.HandleDeletePunishment | src/main/kotlin/cat/aubrey/ivy/util/API.kt:84-94 | 400 without `playerId`; otherwise the player's mutes in force are deleted, 200 if there was one, else 404 |
| Api.DeleteSparesOthers | src/main/kotlin/cat/aubrey/ivy/util/API.kt:88 | a DELETE keeps every row that is not a mute in force of the player, and none in force is left |
| Api.AuditLogReplyPage | src/main/kotlin/cat/aubrey/ivy/util/API.kt:99-103 | at most ten entries, newest first, drawn from the log; all about the player when `player` is given |
| Api.HandleAuditLog | src/main/kotlin/cat/aubrey/ivy/util/API.kt:96-107 | answers the audit reply of the current log |
| Api.EvidenceReplyCases | src/main/kotlin/cat/aubrey/ivy/util/API.kt:119-128 | 200 exactly when `punishmentId` reads as an Int, listing exactly that punishment's evidence; 400 otherwise |
| Api.HandleGetEvidence | src/main/kotlin/cat/aubrey/ivy/util/API.kt:119-128 | answers the evidence reply of the current table |
| Api.HandlePostEvidence | src/main/kotlin/cat/aubrey/ivy/util/API.kt:130-139 | a null body throws with nothing changed; 400 unless both fields are present; otherwise the evidence is attached and the answer is 201 |
| Api.Handle | src/main/kotlin/cat/aubrey/ivy/util/API.kt:47-170 | 401 with nothing changed unless the key matches; 405 with nothing changed for a method the context does not answer; otherwise the route's handler, where a null body throws with nothing changed; a command is dispatched only for an authorized POST to commands whose body names one |

## Left out

- Connection pooling, JDBC statements and result sets, DDL and Mongo indexes. The constructors stand for `initTables` on a fresh database. The SQL text is modelled as the predicates it states.
- Foreign keys in the SQLite store. SQLite does not enforce them unless a pragma turns them on, and the plugin sets none, so its `addEvidence` is an unconditional insert. The SQL store's table is created for MySQL, whose InnoDB engine enforces the key; its model refuses as InnoDB does. An engine that ignores foreign keys (MyISAM) is not modelled.
- Use after `close()`. Both `SqlStore.SqlManager` and `MongoStore.MongoManager` record `closed`, but the operations do not read it; a call after closing succeeds in the model where the closed pool or client throws.
- Concurrency. This covers the asynchronous hourly sweep, the HTTP server threads, asynchronous chat events and the check-then-insert race in `/mute`. Everything is single-threaded.
- The clock. Every reading is a parameter. In the API one `now` serves every store call of a request.
- Long and Int overflow. Instants, lengths and ids are unbounded integers. `TimeUnit` saturation is not modelled.
- Kotlin's Unicode digit and case tables. Digits, upper case and lower case are ASCII only, and whitespace is the ASCII part of Kotlin's set: space, tab, line feed, vertical tab, form feed, carriage return and U+001C to U+001F.
- `UUID.fromString` validation and canonicalisation. A player's UUID is its text, and a malformed `playerId` is not rejected.
- Gson, `HttpServer` and response writing. Request bodies are given already decoded. A reply is a status and a JSON value. A field missing from a body is None, the punishment's player, type and issuer included, although Kotlin declares them non-null: Gson fills the object without its constructor. For the same reason a missing `issuedAt` is 0, not the constructor's clock default. An empty body or the literal `null` decodes to None, as `fromJson` returns null for both. Other malformed JSON is not modelled.
- The HTTP context is an input. `HttpServer`'s prefix matching of paths to contexts is not modelled.
- Percent-decoding of queries. The query is the component `URI.getQuery()` returns, already decoded, so an encoded '&' or '=' in a value splits pieces just as a literal one does.
- `UUID.randomUUID()` in the placeholder listing is the numbered function `randomUuid`.
- Command execution through the scheduler and the console sender. `Api.Handle` reports it as the `dispatched` output.
- Text presentation: colours, click and hover events, and the `Palette`.
- `formatTimestamp` and the time zone. A list line carries the raw timestamp.
- Moderator and target notifications, and the webhook.
- `UnMute.kt`, `Evidence.kt`, `Ivy.kt`, `Config.kt` and `Reasons.kt`. They are thin glue and are not part of this model.
- The per-punishment lines of the rollback report. Only its first line is modelled.
- Exceptions are values: `Result` in the parsers and `Thrown` in the API.
- Negative `LIMIT` and `OFFSET`, and negative Mongo `skip` and `limit`. Limits and offsets are `nat`; every caller passes 10 and 0, or a fixed limit.
- The order among rows with equal sort keys. The sort is stable, so ties keep table order; the databases promise no order.
- Mongo ObjectIds are counter values. Their hex text is zero-padded; the generation from time, machine and counter is not modelled.
- The hex text's round trip back to an ObjectId. It is stated only as 24 hexadecimal digits.
- AuditLogCommand.IdSlotReadsBack: covers only non-negative ids. The '-' sign of a negative id stops the digit pattern.
- AuditLogCommand.DurationSlotReadsBack: holds for reasons without a colon. That is sufficient, not necessary; `ReasonCanShadowDuration` shows what a reason containing "Duration: " does.
- MongoStore.ListedEntryIsFound: a listed entry is found again only when no earlier document's ObjectId text has the same `hashCode`. Otherwise the lookup finds that earlier entry, as a lookup by a colliding hash must.
- None of the three stores is declared to implement `DatabaseManager`. Dafny traits are not used, and each backend is its own class.
  - The SQLite `DataManager` does not implement the interface in the source either.
  - Its `addAuditLogEntry` returns the update count, an Int.
  - It has no `close`.

## Findings

| source | as written | input that shows it | evidently intended | confidence | as-written member | corrected member |
|---|---|---|---|---|---|---|
| src/main/kotlin/cat/aubrey/ivy/data/MongoManager.kt:124 | `removeEvidence` filters on `ObjectId(evidenceId.toString())`; the decimal text of an Int is never 24 hex digits, so the constructor throws for every id | any evidence id, e.g. 5 ("5" is not an ObjectId) | delete the punishment's evidence whose reported id (the hash of its ObjectId text, as `getEvidenceForPunishment` lists it) is `evidenceId` | high; not executed | MongoStore.MongoManager.RemoveEvidence | MongoStore.MongoManager.RemoveEvidenceByReportedId |
| src/main/kotlin/cat/aubrey/ivy/data/MongoManager.kt:168 | `getAuditLogEntry` looks up `ObjectId(id.toString())`, which throws for every Int id, so `/auditlog details` never finds a Mongo entry | any id, e.g. the id of a listed entry | find the entry whose reported id is `id`; every listed entry can then be found again, unless an earlier document's id has the same hash | high; not executed | MongoStore.IntTextIsNoObjectId | MongoStore.ListedEntryIsFound |
| src/main/kotlin/cat/aubrey/ivy/cmd/add/Mute.kt:105 | the audit entry's duration text is measured from a clock reading taken after the insert, so a whole-minute mute is logged a minute short | a 5m mute parsed at 0 and logged at 1 ms: "for 4 minutes 59 seconds" | log the period the moderator chose, "for 5 minutes" | medium; not executed | MuteCommand.LateClockDropsAMinute | MuteCommand.GrantedDurationText |
