# The CONFIG_DB transaction engine of sonic-mgmt-common

A Dafny model of the parts of the repository that decide what a management client sees and what
ends up in CONFIG_DB, with proofs about every call and every run.

* **The engine** (`Redis`, `Keys`, `Glob`, `Overlay`, `ConfigDB`, `SessionTransactions`). A write
  handle keeps its pending writes three times: as a command queue, as a per-key overlay that reads
  consult first, and as the edit log of the validator. The model follows `translib/db` with a class
  `DB` whose methods update those fields as the code does, around a server that is a map of hashes
  without empty ones. `Replay`, running the queue over the store, is the one meaning that all
  readers of the pending writes are compared with: the overlay (`Tracks`), the GetConfig snapshot,
  the validator's queries, the rollback that rebuilds the overlay from saved bases and logged
  edits, and MULTI/EXEC. A read that fails inside a write leaves a false base behind; the handle
  then shows the store without that row (`DB.Base`, `Believed`), and everything else is proved
  relative to that view. `RunSession` puts it together for whole sessions of nested transactions,
  each of which may have calls that fail in any way and may be released or given up as its owner
  likes.
* **Listing keys and batched reads** (`KeyListing`, `GetConfig`, `CvlAccess`, `CachedBatch`):
  GetKeysPattern, ExistKeysPattern, DeleteTable, getEntries over the overlay and over the cache,
  GetConfig, and the pipelined queries of the validator.
* **Sessions and the lock** (`ConfigLock`, `SessionLifecycle`): the shared lock field, the session
  globals of one process, the commit-confirm timer goroutine, and any interleaving of the steps of
  any number of processes.
* **Algorithms of the validator**: cascade deletion (`CascadeDelete`), key combinations
  (`KeyCombinations`), the batched fetch (`FetchBatch`), and the XML tree on the heap (`Siblings`),
  where every operation keeps the whole document a forest.
* **The on-change cache** (`OnChangeCache`), with cached rows as heap objects so that sharing shows.

`dafny verify dfyconfig.toml` checks the project.

## What the proofs rest on

The validator accepts or rejects as it likes, and each command to a server may fail on its own; a
command that fails has had no effect. Flags turn this off, so that the contracts can also say what
must succeed: `DB.acceptsAll` stands for a validator that never objects, `Client.reliable` and
`StateDB.reliable` for servers whose commands do not fail (`Smooth`: the first two, and no command
limit). The store changes only through the handle while the lock is held. A command that carries
fields carries at least one. Table names contain no separator, and no glob characters where they
become part of a pattern (`GoodPattern`). A session writes inside a savepoint, and no savepoint is
open when it commits; a transaction in which a call failed past validation is not released. Names
of processes are distinct, contain no colon and are not `*`. Session tokens are not used twice. The
calls of a session are steps, except that commit, confirm, abort and kill are cut where they wait
and where a timed commit has yet to start its timer; StartCommitTimer, SetCommitCh and the start of
the goroutine are one step. Other calls come between these cuts in any order.

## Where the code does not do what one might expect

The model keeps the code as it is; each point has the exact condition under which all is well.

* A failed HGETALL inside doWrite still puts the key into the overlay and into the saved bases, as
  if the row were empty. Until the transaction is rolled back, reads stay right exactly when the
  stored row equals what the command makes of an empty one (`FailedReadTracks`). The rollback brings
  every other row back; this one reads as missing for the rest of the session, which is right exactly
  when it is not stored (`FailedReadRolledBack`). The session goes on, and its commit runs exactly the
  commands of the released transactions; rows that could be read come out as their calls mean
  (`RunSession`).
* startTx inside a transaction reports an error, but it has dropped the overlay by then: reads stay
  right exactly when the pending commands have no net effect (`EmptyOverlayTracks`, `DB.StartTx`).
* Without validation (`DisableCVLCheck`) the edit log stays empty, and a rollback hides the writes
  of earlier released transactions: they are visible afterwards exactly when they have no net
  effect (`NoEditsNoPendingWrites`, `DB.Rollback2SP`).
* `translib/db/db_savepoint.go:207-208` initialises the wrong map. It never matters, because every
  table of saved bases has an overlay (`CachesGood`, kept by every write; `DB.ReloadBases`).
* GetConfig for one table whose spec carries more than a name shows the store without the pending
  commands (`PendingConfig`, `RichSpecSeesPending`).
* The comment at `translib/cs/cs.go:282` says that a failed commit keeps the changes for review. The
  commit drops the pending commands in any case and leaves no transaction (`DB.CommitTx`). The session
  stays active, and so it does between a timed commit and its confirmation. A savepoint can be
  declared then, but each call reaches the store at once, without validation, and the rollback does
  not take it back: it undoes a call exactly when the session's transaction is not over
  (`RolledBackCall`).
* SetEntry takes a failed read of the row for "no such row": it then merges the value into the row
  and reports success. That replaces the row exactly when it has no field that the value lacks
  (`MergeReplaces`, `DB.SetOrCreate`); a row with an overlay entry is read without the server.
* GetConfig with richer specs among several drops the tables asked for by those only
  (`PendingConfigExactly`).
* The overlay shortcut of ExistKeysPattern matches component by component. A component before the
  last one that ends in an unescaped backslash can make it claim rows that GetKeysPattern does not
  list (`FalsePositive`; for instance the components `a\` and `b`, with the pending row `T|a\|b`).
  For patterns whose components could be those of a row, the shortcut is right for every row of the
  table exactly when each such component absorbs its backslash: without it, there is a star, followed
  by nothing but single-character wildcards and then escaped backslashes (`Joinable`,
  `ShortcutIsSound`). So `*\` and `b` are harmless (`ShowcasePatterns`).
* getEntries reports a failed pipeline as missing entries (`CvlAccess.GetEntries`), and a cached row
  without fields as present, which getEntry does not (`BatchDiffersOnEmptyRows`).
* Deleting the dependents of a row is confined to some tables. References stay dangling exactly when
  a row that refers to a deleted one is in none of them (`Orderly`; `OutOfReach` has the smallest
  case).
* addYangNode gives the text node that holds a value no parent pointer (`Planted`), so a text node is
  never detached by itself (`FieldMarks`, `RunMarks`).
* appendSubtree does not look where it appends: the tree stays a tree exactly when the destination
  is not below what is appended (`GraftExactly`).
* After a failed read OnChangeCacheUpdate hands out the object of the live cache entry; it does so
  exactly then (`OnChangeCacheUpdate`, `EditAfterFailedRead`).
* Abort, unlike Kill, does not look whether a rollback to the old configuration is under way. Called
  then, it deletes the session, and the timer goroutine later panics, or tears down the session that
  was started in between (`AbortDuringRollback`).
* A timed commit is in state "confirm timer" before its timer is there. An abort or a kill at that
  moment stops a timer that does not exist, and panics (`Server.Abort`, `Server.Kill`, which say
  exactly when the protocol stays in order); a confirmation then ends the session, and the timer is
  started for whatever session comes next (`Server.Commit`, `Server.ProcessCommitTimer`).

## Model

| member | source | states |
|---|---|---|
| Redis.ReplayPointwise | translib/db/db.go:1785-1842 | Running a list of commands acts on each key by itself |
| Redis.ReplayConcat | translib/db/db.go:1785-1842 | Running two lists one after the other is running their concatenation |
| Redis.ReplayCompact | translib/db/db.go:656-720 | No command leaves an empty hash, so "not found" means "no fields" |
| Redis.Client.ExecQueue | translib/db/db.go:1866-1873 | EXEC runs all queued commands in order, or none when a watched key changed or the command fails |
| Keys.TableOfKey | translib/db/db.go:596-606 | The table name is recovered from every key key2redis builds |
| Keys.RedisKeyRoundTrip | translib/db/db.go:596-628 | Splitting a row key of the table, by either function, and joining it again gives the same row key |
| Keys.KeyRoundTrip | translib/db/db.go:596-618 | A key survives joining and splitting exactly when the table's number of components can tell its components apart |
| Keys.SplitJoin | translib/db/db.go:608-618 | Split inverts join exactly for at least one component, none containing the separator |
| Keys.SplitNJoin | translib/db/db.go:608-618 | SplitN inverts join exactly for 1 to n components where only the n-th may contain the separator |
| Glob.MatchingIsAlignment | translib/db/db_key.go:113-119 | A value matches exactly when it can be cut into pieces, one for each token: any piece for a star, one character for a question mark, the character itself otherwise |
| Glob.PatternMatch | translib/db/db_key.go:120-170 | Terminates and decides the declarative relation from any pair of start indices, although it never tries the empty suffix after a star |
| Glob.AfterStar | translib/db/db_key.go:123-140 | The star case decides the same relation |
| Glob.KeyMatch | cvl/common/db_utils.go:10-64 | The validator's copy decides the same relation |
| Glob.Matches | translib/db/db_key.go:89-102 | Key.Matches holds exactly when the lengths agree and every component matches |
| Glob.IsPattern | translib/db/db_key.go:60-73 | True exactly when some component has a wildcard that is not escaped |
| Glob.PlainMatchesItself | translib/db/db_key.go:60-73 | What is no pattern matches one string only, itself without the escapes |
| Glob.TokensConcat | translib/db/db_key.go:150-164 | How a pattern reads when more text is appended: a dangling backslash swallows the next character, anything else stays |
| Glob.JoinMatches | translib/db/db_keys_pattern.go:82-91 | Matching component by component implies matching the joined strings when every component but the last is free of a dangling backslash or absorbs it |
| Glob.AbsorbingExactly | translib/db/db_key.go:113-170 | Tokens match one more trailing backslash after everything they match exactly when they are a star followed by single characters and then backslashes, whatever comes before the star |
| Glob.JoinMatchesExactly | translib/db/db_keys_pattern.go:82-91 | For components without separators that condition is also necessary: otherwise the sample key matches by components and not as a whole |
| Glob.PlainPrefix | translib/db/db.go:596-606 | With a literal table name, a key matches the joined pattern exactly when it is a row of the table and the rest matches |
| Overlay.TracksWrite | translib/db/db.go:1197-1251 | One write keeps reads through the overlay equal to replaying all queued commands, for every key |
| Overlay.QueuedWrite | translib/db/db.go:1197-1252 | Updating the caches and queueing the command keeps the caches well formed and moves the visible rows by exactly that command |
| Overlay.EmptyOverlayTracks | translib/db/db.go:1601-1648 | Dropping the overlay is harmless exactly when the pending commands have no net effect |
| Overlay.BelievedIsStore | translib/db/db_savepoint.go:380-397 | A handle builds on the store itself exactly when every saved base is what the store holds |
| Overlay.BelievedAfterSave | translib/db/db_savepoint.go:380-397 | Saving a base changes that view only by the row whose read failed |
| Overlay.FailedWriteCanRewind | translib/db/db.go:1197-1240 | A write whose base could not be read loses the row from view, and a rollback stays possible |
| Overlay.LostRowReads | translib/db/db_savepoint.go:189-324 | A lost row that no pending command touches reads as missing, all others as ever; that is the truth exactly when it is not stored |
| Overlay.FailedReadTracks | translib/db/db.go:1197-1251 | After a failed HGETALL the overlay tells the truth exactly when the stored hash equals the command's effect on an empty one |
| Overlay.FailedReadOutlivesRollback | translib/db/db_savepoint.go:189-324 | The false base survives the rebuilding: a key without edits reads right exactly when it is not stored |
| Overlay.PlayedIsRebuilt | translib/db/db_savepoint.go:277-297 | Playing back one edit extends the rebuilt overlay by that edit |
| Overlay.StartIrrelevant | translib/db/db_savepoint.go:189-324 | A key without a saved base starts with DEL, so any start gives the same hash |
| Overlay.RebuiltIsReplay | translib/db/db_savepoint.go:189-324 | Bases plus edit log mean the same as replaying the commands over the store, for every key |
| Overlay.NoEditsNoPendingWrites | translib/db/db.go:1006 | An empty edit log rebuilds the visible rows exactly when the pending commands have no net effect |
| Overlay.BasesAfterWrite | translib/db/db_savepoint.go:380-397 | Saving a missing base keeps every later rebuild grounded in true bases |
| Overlay.WriteCanRewind | translib/db/db_savepoint.go:351-397 | Every write inside a savepoint keeps all that a rollback needs |
| Overlay.FreshSavePoint | translib/db/db_savepoint.go:82-102 | A savepoint declared while the logs agree can be rolled back |
| Overlay.RolledBack | translib/db/db_savepoint.go:189-324 | The rebuilt overlay shows every row as at DeclareSP, as undoing the undo log would, and a further savepoint can be rolled back |
| ConfigDB.MergeThenTrim | translib/db/db.go:1280-1350 | HMSET of the value and HDEL of the missing fields replace the row, whatever it was |
| ConfigDB.SetMeaning | translib/db/db.go:1280-1350 | Which commands amount to SetEntry and to CreateEntry |
| ConfigDB.VisibleGood | translib/db/db.go:1083-1277 | Visible rows are well-formed rows without empty hashes |
| ConfigDB.DB.GetEntry | translib/db/db.go:656-736 | A client reads its own writes: unless the read fails, the answer is the row of the store with all pending commands replayed, and "not found" exactly when that has no such row |
| ConfigDB.DB.DoCVL | translib/db/db.go:994-1081 | The validator is asked about exactly the new edits; they stay logged exactly when accepted, a rejected call leaves the log as it was, and the sticky error wins |
| ConfigDB.DB.DoTxSPSave | translib/db/db_savepoint.go:351-376 | The prior overlay entry is recorded once for each savepoint |
| ConfigDB.DB.DoTxSPSaveHGetAll | translib/db/db_savepoint.go:380-397 | The hash that was read is saved, inside a session's savepoint only |
| ConfigDB.DB.UpdateTxCache | translib/db/db.go:1197-1240 | How overlay, bases and undo log change, on a failed read too |
| ConfigDB.DB.WriteTx | translib/db/db.go:1197-1252 | Success appends one command and moves the visible rows by it; failure means an unreadable base, and says what it leaves behind; either way the savepoint can be rolled back |
| ConfigDB.DB.WriteThrough | translib/db/db.go:1144-1195 | Outside a transaction the server runs the command at once |
| ConfigDB.DB.DoWrite | translib/db/db.go:1083-1277 | Succeeds exactly when writes are enabled, no error sticks, the command limit leaves room, and the command or the read it needs does not fail; then exactly one command takes effect or is queued, else none; a savepoint stays rewindable |
| ConfigDB.DB.DeleteEntry | translib/db/db.go:1394-1415 | The row is gone from the visible rows and nothing else changes; edit log and queue stay in step |
| ConfigDB.DB.ModEntry | translib/db/db.go:1418-1457 | Map override of the row; an empty value deletes it, unless the table forbids that |
| ConfigDB.DB.DeleteEntryFields | translib/db/db.go:1460-1486 | Domain subtraction; the row goes when no field is left |
| ConfigDB.DB.Complement | translib/db/db.go:1301-1315 | The fields of the visible row that the new value lacks |
| ConfigDB.DB.CheckedReplacement | translib/db/db.go:1317-1346 | Both edits are validated at once, then HMSET and HDEL follow; a failure leaves nothing done, or the HMSET |
| ConfigDB.DB.SetOrCreate | translib/db/db.go:1280-1369 | SetEntry replaces the row exactly, unless reading it failed; then it merges, as CreateEntry does; a failure leaves nothing done, or the HMSET |
| ConfigDB.MergeReplaces | translib/db/db.go:1306-1331 | Such a merge still amounts to the replacement exactly when the row has no field beyond those of the value |
| ConfigDB.DB.Perform | translib/db/db.go:1280-1486 | Every write call has the meaning of the request it carried out on the visible rows, keeps the logs in step and the savepoint rewindable, also when it is rejected, and succeeds when nothing stands in the way |
| ConfigDB.DB.StartTx | translib/db/db.go:1601-1648 | Starts a transaction that can be rewound; inside one it fails, and has dropped the overlay |
| ConfigDB.DB.QueueAll | translib/db/db.go:1776-1864 | The server's queue holds exactly the pending commands, and one update flag for each touched table |
| ConfigDB.DB.CommitTx | translib/db/db.go:1740-1896 | The store becomes what the pending commands make of it, or nothing changes, also after failed reads; succeeds exactly in a transaction without sticky error, with server and watch intact; nothing stays pending |
| ConfigDB.DB.AbortTx | translib/db/db.go:1899-1958 | Nothing stays pending, and the store is what is visible |
| ConfigDB.DB.DeclareSP | translib/db/db_savepoint.go:82-102 | Only in a session, one at a time; fixes the visible rows as those to come back to |
| ConfigDB.DB.ReleaseSP | translib/db/db_savepoint.go:104-126 | Keeps everything that was written; the session stays rewindable |
| ConfigDB.DB.ClearOverlay | translib/db/db_savepoint.go:201-205 | Every entry goes, every table stays |
| ConfigDB.DB.ReloadBases | translib/db/db_savepoint.go:206-213 | All saved bases are put back, since each has its table in the overlay |
| ConfigDB.DB.PlayBackAll | translib/db/db_savepoint.go:233-311 | The overlay is the one rebuilt from bases and edit prefix; a rejected edit stops the playback |
| ConfigDB.DB.RebuildOverlay | translib/db/db_savepoint.go:192-324 | Bases plus edit prefix in a new validation session, or the bases alone without one |
| ConfigDB.DB.RewindableIsPlayable | translib/db/db_savepoint.go:277-283 | All edits of a rewindable savepoint name tables that have an overlay |
| ConfigDB.DB.Rollback2SP | translib/db/db_savepoint.go:128-348 | Also after failed reads: the overlay is the one rebuilt from bases and edits, the visible rows are those of DeclareSP, the very rows the undo log restores; queue and log are cut; a failure is sticky; without validation the pending writes stay visible exactly when they have no net effect |
| SessionTransactions.StartTx | translib/cs/cs_tx.go:30-41 | Session handles get a savepoint, others a transaction, on either path |
| SessionTransactions.CommitTx | translib/cs/cs_tx.go:43-52 | On a session handle the savepoint is released and nothing reaches the store; on others the store becomes what was visible |
| SessionTransactions.AbortTx | translib/cs/cs_tx.go:54-63 | On a session handle the rows of the savepoint come back; on others nothing stays pending |
| SessionTransactions.EndTransaction | translib/translib.go:204-219 | Released, a transaction keeps what it wrote; given up for whatever reason, the rows of its savepoint come back |
| SessionTransactions.RunTransaction | translib/translib.go:204-219 | A released transaction has the effects of its successful calls and queues their commands; one that is given up leaves no command and no effect, whatever failed in it, but for rows it failed to read; the store stays as it is |
| SessionTransactions.RunTransactions | translib/cs/cs_tx.go:30-63 | Over any sequence of transactions the queue holds the commands of the released ones, and every row that could be read shows the released ones applied in order |
| SessionTransactions.RunSession | translib/cs/cs.go:193-312 | The committed store is the replay of the commands of the released transactions; each row on which no read failed is what their successful calls make of it, in order; a failed session leaves the store alone; when nothing stands in the way, every call and the commit succeed |
| SessionTransactions.OnlyReleasedCallsCount | translib/db/db_savepoint.go:82-348 | The whole session amounts to the successful calls of its released transactions: rolled-back ones leave no trace |
| SessionTransactions.MeaningAllAt | translib/db/db.go:1280-1486 | What calls make of a row depends on that row only, so a lost row does not spread |
| SessionTransactions.FailedReadRolledBack | translib/db/db_savepoint.go:128-348 | A write whose read failed, then the rollback: every other row is back, this one reads as missing though a commit would keep it; reads are right exactly when it is not stored |
| SessionTransactions.RolledBackCall | translib/cs/cs.go:270-312 | A call rolled back after the session's transaction is over stays in the store; otherwise nothing is left of it |
| KeyListing.Equals | translib/db/db_key.go:76-86 | Key equality, component by component |
| KeyListing.MergeOverlay | translib/db/db.go:855-902 | Cutting deleted rows out of the slice in place and appending new ones gives each remaining row once |
| KeyListing.GetKeysPattern | translib/db/db.go:798-952 | Exactly the visible rows that match, each once, in split form |
| KeyListing.OverlayHitIsListed | translib/db/db_keys_pattern.go:81-92 | For joinable patterns an overlay hit is a row that GetKeysPattern lists |
| KeyListing.JoinableRowMatches | translib/db/db_keys_pattern.go:82-91 | A row that matches a joinable pattern by components matches it as a whole |
| KeyListing.ShortcutIsSound | translib/db/db_keys_pattern.go:81-92 | With stars or without, the shortcut is right for every row of the table exactly when the pattern is joinable |
| KeyListing.FalsePositive | translib/db/db_keys_pattern.go:76-100 | For every pattern that is not joinable, a real handle with one pending row where it is found and GetKeysPattern lists nothing |
| KeyListing.ShowcasePatterns | translib/db/db_keys_pattern.go:76-100 | One pattern of either kind |
| KeyListing.ExistKeysPattern | translib/db/db_keys_pattern.go:76-100 | For joinable patterns, true exactly when a visible row matches; for others, also on an overlay hit |
| KeyListing.GetKeys | translib/db/db.go:779-796 | Every visible row of the table is listed, and only such |
| KeyListing.DeleteTable | translib/db/db.go:1489-1521 | Success leaves no visible row of the table; rows of other tables never change |
| GetConfig.ApplyOne | translib/db/db_get_config.go:255-297 | One pending command acts on one row, and neither empty rows nor empty tables remain |
| GetConfig.ApplyTxCache | translib/db/db_get_config.go:248-301 | Every row is the replay of the commands the filter keeps |
| GetConfig.PendingConfig | translib/db/db_get_config.go:46-301 | For any list of specs, repeats included, and every row: what a commit would leave for tables with a bare spec, the stored row for a single richer spec, nothing otherwise |
| GetConfig.PendingConfigExactly | translib/db/db_get_config.go:78-161 | The named tables come back as they are visible exactly when those asked for by richer specs only have no other rows |
| GetConfig.RichSpecSeesPending | translib/db/db_get_config.go:250-253 | For a single richer spec the result is right exactly when the pending commands change no row of the table |
| CvlAccess.GetEntries | translib/db/db.go:2028-2161 | On a write handle every index gets the visible row, as getEntry would answer, repeats included; only a failed pipeline makes the misses read as missing entries |
| CachedBatch.GetEntries | translib/db/db.go:2028-2161 | On a cached handle every index gets the answer of getEntry called key by key, repeats included, the cache ends the same, and nothing handed out is shared with it |
| CachedBatch.OneByOne | translib/db/db.go:656-736 | The reference: getEntry for one key after the other, cache fills in between included |
| CachedBatch.BatchDiffersOnEmptyRows | translib/db/db.go:2077-2083 | The two answers differ exactly on a cached row without fields |
| CvlAccess.FillMisses | translib/db/db.go:2099-2161 | Replies are put back at the index of their key, and hits stay |
| CvlAccess.UpdateKeys | translib/db/cvl_db_access.go:303-346 | The pipelined KEYS result is the set of visible rows that match, without duplicates |
| CvlAccess.PipeHGetAll | translib/db/cvl_db_access.go:451-487 | The pipelined hash is the visible one |
| CvlAccess.PipeHMGet | translib/db/cvl_db_access.go:356-442 | Each requested field as in the visible hash, or nothing |
| CvlAccess.GetTxData | translib/db/cvl_db_access.go:131-154 | Exactly the matching overlay rows, deleted ones marked |
| CvlAccess.CountEntries | cvl/cvl_luascript.go:78-141 | Stored keys without a pending entry and present pending ones are counted once |
| CvlAccess.Count | translib/db/cvl_db_access.go:183-203 | Without a predicate, the number of visible rows that match |
| ConfigLock.LockValueParts | translib/db/db_lock.go:289-305 | The script reads name and id back exactly for names without a colon |
| ConfigLock.ForeignLockStays | translib/db/db_lock.go:289-305 | The unlock script never deletes a lock placed under another name |
| ConfigLock.DbLock.ConfigDBTryLock | translib/db/db_lock.go:173-208 | Success means the field was free and now names this process and token; a held or foreign lock is left alone; on a reliable STATE_DB it succeeds exactly when the lock is free |
| ConfigLock.DbLock.ConfigDBUnlock | translib/db/db_lock.go:210-230 | Whatever the token, only this process's own lock can go, and on a reliable STATE_DB it does; cdbLock is cleared even on failure |
| ConfigLock.DbLock.ConfigDBClearLock | translib/db/db_lock.go:232-246 | Only a lock of this name goes; success means none is left |
| ConfigLock.DbLock.DbLockedError | translib/db/db_lock.go:148-169 | A lock counts as a session's only when its id says so |
| ConfigLock.OneHolder | translib/db/db_lock.go:171-230 | Two processes that hold the lock have the same name |
| SessionLifecycle.Server.NewCS | translib/cs/cs.go:172-223 | A session starts only with the lock under its fresh token, and on a reliable STATE_DB whenever that is free; a failure leaves no session |
| SessionLifecycle.Server.CommitCS | translib/cs/cs.go:270-312 | Success without confirmation ends the session and frees its lock; the transaction is over in any case |
| SessionLifecycle.Server.CleanCS | translib/cs/cs.go:367-381 | Tears down whatever session there is, and panics when there is none |
| SessionLifecycle.Server.StartOrResume | translib/cs/cs_start.go:28-100 | An existing session is resumed, and refused while its terminal is active; otherwise a new one starts |
| SessionLifecycle.Server.Exit | translib/cs/cs_exit.go:28-60 | Suspends the active session with that token, and nothing else |
| SessionLifecycle.Server.Commit | translib/cs/cs_commit.go:52-232 | A timed commit leaves a call that is about to start the timer, a plain one ends the session, a confirmation waits on the channel, or ends the session when there is none yet; a refused call changes nothing, a failed one loses the transaction |
| SessionLifecycle.Server.ProcessCommitTimer | translib/cs/cs_commit.go:81-117 | The timer and its goroutine start for the session that is there by then, and fail without one |
| SessionLifecycle.Server.Abort | translib/cs/cs_abort.go:30-78 | Waits on the channel of a running timer, else deletes the session, with a failure when its transaction cannot be aborted; keeps the protocol in order exactly when no rollback is under way and no timer is about to start |
| SessionLifecycle.Server.Kill | translib/cs/cs_kill.go:30-92 | Waits, deletes, or during a rollback does nothing; a failure exactly when the transaction cannot be aborted; keeps the protocol in order exactly when no timer is about to start |
| SessionLifecycle.RendezvousOrderly | translib/cs/cs_commit.go:63-67 | Getting through the channel resolves a commit that nobody has resolved, on the current session |
| SessionLifecycle.TimeoutOrderly | translib/cs/cs_commit.go:101-104 | So does the timer, and no call can get through afterwards |
| SessionLifecycle.Server.Proceed | translib/cs/cs_commit.go:68-77 | Confirm and a successful abort tear down the session they were called for |
| SessionLifecycle.Server.EndReload | translib/cs/cs_commit.go:106-113 | The goroutine tears down its own session, as long as the protocol is in order |
| SessionLifecycle.Server.LockToWrite | translib/db/db.go:1101-1107 | A handle writes only while it holds the lock, and never beside a session |
| SessionLifecycle.Server.DeleteDB | translib/db/db.go:558-590 | Closing a handle frees the lock exactly when that handle placed it; a session's lock stays |
| SessionLifecycle.StepKeepsOthers | translib/db/db_lock.go:64-246 | No step of one process touches the lock of another |
| SessionLifecycle.Run | translib/cs/cs_commit.go:52-145 | Over all interleavings of all steps of any number of processes the lock invariant holds, and the session protocol stays in order when nobody aborts during a rollback, or confirms, aborts or kills while a timed commit is about to start its timer |
| SessionLifecycle.LockIsExclusive | translib/db/db_lock.go:171-230 | At most one process holds the lock; the field names it and its owner; a session excludes write handles and other sessions everywhere |
| SessionLifecycle.AtMostOnce | translib/cs/cs_commit.go:52-145 | A commit is resolved at most once, and a session torn down at most once, by an actor of its own |
| SessionLifecycle.AbortDuringRollback | translib/cs/cs_abort.go:38-59 | After such an abort the goroutine panics, or tears down the session started meanwhile |
| CascadeDelete.GetDepDataForDelete | cvl/cvl_api.go:1150-1184 | Terminates on an acyclic relation with the direct dependents followed by the list of each |
| CascadeDelete.ListIsComplete | cvl/cvl_api.go:1150-1184 | The list holds exactly the transitive dependents |
| CascadeDelete.ListIsOrdered | cvl/cvl_api.go:1150-1184 | Every occurrence of a row is followed by all rows that refer to it, diamonds and repeats included |
| CascadeDelete.DeleteDependents | translib/common_app.go:1292-1322 | At every moment no remaining row of the deletable tables refers to a deleted one, and no row at all does exactly when all that refer to deleted rows are deletable; in the end exactly the listed rows of those tables are gone |
| CascadeDelete.DeleteFromBack | translib/common_app.go:1296-1319 | The same for any list in which referrers follow, deleted from its end, stopping at a failure |
| CascadeDelete.OutOfReach | translib/common_app.go:1307-1318 | A chain of three rows where the filter leaves a dangling reference |
| KeyCombinations.ProductContents | cvl/cvl_semantics.go:284-344 | The product holds exactly the tuples that take each component from its values |
| KeyCombinations.RankIsLexicographic | cvl/cvl_semantics.go:318-343 | Mixed-radix rank is the lexicographic order, and determines the indices |
| KeyCombinations.ProductAtRank | cvl/cvl_semantics.go:318-343 | The tuple the indices select stands at their rank in the product |
| KeyCombinations.Advance | cvl/cvl_semantics.go:328-343 | One step raises the rank by one, in bounds as long as a combination is left |
| KeyCombinations.CountCombinations | cvl/cvl_semantics.go:288-295 | The loop count is the product of the lengths |
| KeyCombinations.Enumerate | cvl/cvl_syntax.go:221-282 | The loop visits every tuple once, in lexicographic order |
| FetchBatch.Flush | cvl/cvl_cache.go:133-200 | One pipeline resolves each of its keys from the request cache and the replies; the count is zero exactly when nothing was found |
| FetchBatch.VisitOne | cvl/cvl_cache.go:111-131 | Collected plus skipped entries are those seen, so the counters meet at the last entry only |
| FetchBatch.FetchTable | cvl/cvl_cache.go:96-210 | Every pending key goes into exactly one batch of at most 50, in any iteration order; fetched rows are dropped |
| FetchBatch.FetchAll | cvl/cvl_cache.go:213-241 | The outer loop ends within two rounds with an empty cache |
| Siblings.ChildrenUnique | cvl/cvl_semantics.go:189-227 | A node determines its list of children |
| Siblings.GraftExactly | cvl/cvl_semantics.go:355-380 | Appending loose nodes, with all that is below them, keeps a forest a forest exactly when the destination is not below them |
| Siblings.FewerChildren | cvl/cvl_semantics.go:383-445 | Losing children keeps it a forest |
| Siblings.AddYangNode | cvl/cvl_semantics.go:189-227 | The document gains the new node as the last child, over a text node of its own without a parent pointer; every other list stays |
| Siblings.AppendSubtree | cvl/cvl_semantics.go:355-380 | The whole chain goes behind the children, each node with its subtree; every other list stays, and the document stays a forest |
| Siblings.DetachSubtree | cvl/cvl_semantics.go:383-402 | All children leave as one parentless chain, each with its subtree |
| Siblings.DetachNode | cvl/cvl_semantics.go:405-445 | Exactly that node leaves its list, with its subtree, as a chain of its own; without a parent pointer nothing happens |
| Siblings.DeleteDestLeafList | cvl/cvl_semantics.go:450-469 | Exactly the siblings of the run of equal names from the given one on leave, the rest keep their order |
| Siblings.KeptAroundRun | cvl/cvl_semantics.go:450-469 | What is kept when a whole run goes: the siblings before it and those after it |
| Siblings.DeleteLeafNodes | cvl/cvl_semantics.go:472-482 | Filters the children by field name, keeping the order and all subtrees |
| Siblings.MoveNode | cvl/cvl_semantics.go:599-611 | A node leaves one list and is last in another, with its subtree; every other list stays, and the document stays a forest |
| Siblings.MoveSubtree | cvl/cvl_semantics.go:614-620 | All children, with their subtrees, move behind those of the other node |
| OnChangeCache.ReadOnlyDB.RegisterTable | translib/db/db_onchangecache.go:38-51 | Registers the table for caching, on handles made for that only |
| OnChangeCache.ReadOnlyDB.GetEntry | translib/db/db.go:656-736 | A cached row answers unless a read is forced; a good reply fills the cache with a copy; what is returned belongs to the caller |
| OnChangeCache.ReadOnlyDB.OnChangeCacheUpdate | translib/db/db_onchangecache.go:57-77 | Old and new value of the row; a failed read leaves the cache alone; the old value is still the cache's object exactly then |
| OnChangeCache.ReadOnlyDB.OnChangeCacheDelete | translib/db/db_onchangecache.go:82-108 | The row leaves the cache together with its object, and no other row does |
| OnChangeCache.EditAfterFailedRead | translib/db/db_onchangecache.go:57-77 | Editing the old value handed out after a failed read edits the cached row |
| OnChangeCache.RunEvents | translib/db/db_onchangecache.go:57-108 | Over any run of updates, deletes and reads each reported old value is the last one seen of that row |
| OnChangeCache.LastSeenIsLatest | translib/db/db_onchangecache.go:57-108 | The last one seen is what the latest successful call reported, nothing after a delete |
| OnChangeCache.NothingSeen | translib/db/db_onchangecache.go:57-108 | Without a successful call on the row it is what the run started with |

## Left out

- Validation itself: an oracle that accepts or rejects; nothing is claimed about referential integrity.
- The separator is fixed to `|`, as it is for CONFIG_DB; other databases use others.
- Redis character classes `[...]` in KEYS patterns, which patternMatch does not have either.
- Row reshaping by NULL fields and by checkFieldMap, and the field loops of doWrite and applyTxCache, which are map operations here.
- The per-connection cache of pattern listings and the read-only branch of ExistKeysPattern; write handles have no cache, so overlay and cache never meet.
- CachedBatch.GetEntries: the pipeline succeeds; a failed one is in CvlAccess.GetEntries, for handles without a cache.
- The paging and field options of GetConfig.
- CvlAccess.CountEntries: predicates and counted fields are left out, as in Lookup: they are Lua text.
- CvlAccess.Count: the table part of the pattern is a literal name, as the validator's queries have it.
- CvlAccess.UpdateKeys: likewise.
- KeyListing.GetKeysPattern: the table name is literal and holds no separator; with another one the server would list rows of other tables, which the overlay does not cover.
- KeyListing.ExistKeysPattern: likewise.
- KeyListing.GetKeys: likewise.
- KeyListing.DeleteTable: likewise.
- DeleteKeys: it reports its last error only.
- Command errors inside MULTI; no DISCARD is issued.
- Choosing the direct dependents of a row (globs and Lua predicates); the relation is fixed and finite, and its rank stands for the acyclicity of the schema.
- mergeYangData as a whole; its tree operations are here.
- FetchBatch.FetchTable: what happens inside a batch when its pipeline fails.
- CascadeDelete.DeleteDependents: dependents that only name the row in a field, which the callers skip or edit instead, and which rows a request is about to create anyway.
- Checkpoint files and labels, host queries and terminal messages; whether a terminal is alive, a save or a reload works is an input.
- Liveness: a call can wait on the commit channel for ever, and a lock can stay behind after a failed unlock.
- ConfigDB.DB.DoWrite: taking the lock is in SessionLifecycle.Server.LockToWrite, not here.
- ConfigDB.DB.Rollback2SP: after a rollback that failed in the middle the edit log may name tables that have no overlay, and no further rollback is described; the handle then refuses all writes and the commit.
- SessionLifecycle.Server: a session record is a value, since nothing but the global refers to it; the fields that only describe it (user, roles, times) are gone.
- The savepoint is a field of the handle here; in the code it is a global of the package, which one session at a time uses.
- Statistics, logging, timing, notifications and validation hints.
