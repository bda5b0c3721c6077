# Proton Wallet engines, modelled in Dafny

The Rust core of the wallet app contains several small stateful engines. This project models them and
proves what each keeps over every input, run or interleaving; where a promise does not hold of the code, it
proves exactly when it does and gives a run in which it does not.

| engine | files | main results |
|---|---|---|
| Rotating log writer | `Disks`, `LogNames`, `LogWriter`, `RotatingFileWriter`, `LogInterleavings`, `LogOrdering` | the files of one writer spell its history iff no rotation repeats a stamp; over all interleavings a write is lost iff a rename overwrote its file, and the disk reads in lock order iff that never happens and no write goes back to an older file |
| Tables and DAOs | `SqlTables`, `Daos`, `AddressRaces` | `upsert` is map insertion exactly when the item is permitted; every permitted run refines a map; ids are never reused; exactly which races break the map |
| Account paths and files | `Decimals`, `DerivationPaths`, `AllocatorRuns`, `AccountFiles` | least free index, pigeonhole bound, runs use 0 to n-1, file names are invertible |
| Migrations | `MigrationPlanner`, `Schemas`, `BaseDatabase`, `AppDatabase`, `MigrationEffects`, `IndexOwnership` | when the greedy planner succeeds; effect of every upgrade on any database; who owns each index; exactly when an upgrade is idempotent |
| Wallet-key cache | `WalletKeys`, `WalletKeyInterleavings` | meaning of "not found", alone and over all interleavings; merge semantics; provenance and order of keys |
| Key hierarchy | `CryptoTerms`, `WalletSecrets`, `KeyRecovery` | created wallets read back, by exactly the right key sets; relocking is all-or-nothing and keeps every wallet |
| Wallet and user-key refresh | `WalletRefresh`, `UserKeys` | exactly when a refresh and its retry succeed; one row per key; what a load moves between users |
| Session mirror | `SessionMirror`, `SessionInterleavings` | exactly which steps let Dart fall behind, and which interleavings end with Dart up to date |

Objects that the program updates in place are classes whose methods are proved equal to a step function on
values; the theorems over runs and interleavings are about those step functions.

## Conventions and findings

- Time stamps, random bytes, server replies, callback replies and the outcome of every system call are
  parameters, so every theorem holds for all of them.
- Logger. The comment at `rust/src/common/logger.rs:11` says 50 MB, the constant at line 12 is 10 MiB; the model
  follows the constant. Renames follow POSIX: an existing target is replaced. A write may take part of the buffer.
  Two threads that pass the size check on one file rotate twice, and the older handle can win
  (`OverlappingRotationsBreakOrder`); two rotations in one second share a name and lose data
  (`RotateLosesThatFile`, `ReusedNameLosesLaterWrites`). Calls that do not rotate may share a second with anything.
- Tables. A SQL statement is atomic, an `upsert` is several statements (`RacesKeepMapIff` says which races matter). Rows are scanned in
  row-id order, a failed insert consumes no id, and `Dao.Insert` cuts the id it reports to 32 bits as the code does.
  The columns the DAOs look up are taken to exist.
- Planner. The walk takes the least admissible step and never backtracks, so it can miss a path
  (`GreedyCanMissAPath`).
- Migrations. Index names carry the column only, so tables compete for them, and tables and indexes share one
  namespace. `Blocked` says which table an index of its name keeps from being created, `Effective` which indexes each
  table gets to ask for; without clashing names these are none and all (`NothingInTheWay`). Repeating an upgrade changes
  index owners for some databases (`SecondBuildMovesTheIndex`); `UpgradeIsIdempotentIffSettled` gives the condition.
- Key cache. With several tasks `WalletKeyNotFound` no longer means that the server lacks the key
  (`ClearHidesADeliveredKey`); `NotFoundIffRemoved` and `OwnKeyIsLostIff` say when.
- Cryptography is a term algebra: base64, AES-GCM (12-octet nonce, 16-octet tag), OpenPGP, BIP-39 and the password
  hash are constructors with partial inverses; octets of ciphertexts are symbolic, and the framing, UTF-8 validity and
  key lengths are real. `UserKeys::unlock` belongs to a library; it is taken to pass over inactive keys and to report
  the others that fail. A wallet key of the wrong length makes the program panic; here it is an error of its own.
- Wallet refresh. Server wallets are converted with row id 0, which no stored row has, so the first wallet that is
  already cached ends the refresh (`CachedWalletBlocksRefresh`).
- Sessions. Only notifying setters outside client initialisation keep Dart up to date; storing the same session again
  never repairs a missed one (`RepeatsNeverRepair`). Spawned callbacks may finish in any order.

## Model

| member | source | states |
|---|---|---|
| LogNames.RotatedNameIsNotThePath | rust/src/common/logger.rs:75-93 | A rotated file is never named like the active one, so a rename always moves it. |
| LogNames.RotatedNameShape | rust/src/common/logger.rs:75-93 | The time stamp goes between stem and extension; without an extension, with an empty one, or for a name whose only dot comes first, the extension is `log`. |
| LogNames.RotatedNameIsInjective | rust/src/common/logger.rs:75-93 | Two rotations of one log share a name exactly when they share a time stamp. |
| LogWriter.RotateCollects | rust/src/common/logger.rs:52-73 | A rotation keeps the writer valid, and unless its name is that of an earlier rotation it keeps the total content, whichever of rename and reopen fail. |
| LogWriter.RotateLosesThatFile | rust/src/common/logger.rs:52-73 | A rotation onto the name of an earlier one takes exactly the bytes of that file away. |
| LogWriter.WriteCollects | rust/src/common/logger.rs:97-108 | One call, rotating or not, adds exactly the accepted bytes to what the files hold together, unless it renames the log onto a rotated file. |
| LogWriter.WriteLoses | rust/src/common/logger.rs:97-108 | What the files hold and what a call makes unreachable add up. |
| LogWriter.EveryListRuns | rust/src/common/logger.rs:97-108 | Every list of calls runs from every valid state and keeps it valid. |
| LogWriter.RotationRefinesHistory | rust/src/common/logger.rs:52-108 | Over every run of one thread without such collisions, rotated files in rotation order followed by the active file spell all accepted writes, whatever fails. |
| LogWriter.HistoryKeptIffNoCollision | rust/src/common/logger.rs:52-108 | Over every run: the files spell the history if and only if no call renames the log onto a file an earlier rotation has left. |
| LogWriter.CollidesIffStampRepeats | rust/src/common/logger.rs:75-93 | A call collides exactly when it renames the log and an earlier renaming call had the same time stamp, or the name was left before the run; calls that do not rotate may share stamps. |
| LogWriter.StuckStaysStuck | rust/src/common/logger.rs:58-72 | After a rename whose reopen failed no later call renames; all bytes go to the file rotated last. |
| LogWriter.WriteRestoresTheBound | rust/src/common/logger.rs:42-73 | A write whose check, rename and reopen succeed leaves the active file below the limit, however large it was; every rotated file but one it replaces keeps its bytes. |
| LogWriter.CooperativeRunIsBounded | rust/src/common/logger.rs:12-73 | In a run without failures the active file ends every write below the limit, and each rotated file is between the limit and the limit plus the longest accepted buffer. |
| RotatingWriters.RotatingFileWriter.constructor | rust/src/common/logger.rs:21-32 | Opening keeps the bytes of an existing log and makes it the open file. |
| RotatingWriters.RotatingFileWriter.OpenLogFile | rust/src/common/logger.rs:34-40 | Creates a missing file, leaves an existing one as it is, changes nothing on failure. |
| RotatingWriters.RotatingFileWriter.CheckFileSize | rust/src/common/logger.rs:42-50 | Says whether the file under the path has reached the limit; a failing query counts as not. |
| RotatingWriters.RotatingFileWriter.RotateLogFile | rust/src/common/logger.rs:52-73 | Renames, reopens and swaps the handle, each step only after the one before succeeded. |
| RotatingWriters.RotatingFileWriter.Write | rust/src/common/logger.rs:97-108 | Reports the bytes the file took; the collected content grows by exactly these if and only if the call does not rename the log onto a rotated file. |
| RotatingWriters.RotatingFileWriter.MakeWriter | rust/src/common/logger.rs:119-125 | A clone shares handle and path, so both see the same state. |
| LogInterleavings.StepConserves | rust/src/common/logger.rs:52-108 | Each system call of any thread keeps the accounting of every inode. |
| LogInterleavings.LostExactlyWhenOverwritten | rust/src/common/logger.rs:52-125 | Over every interleaving of any number of threads, an accepted write can be read back from some file if and only if no rename replaced the file that took it. |
| LogInterleavings.FreshNamesLoseNothing | rust/src/common/logger.rs:52-125 | With fresh names every inode is a file of the folder and holds its old bytes followed by exactly its writes in lock order. |
| LogOrdering.ReadBackIsByFile | rust/src/common/logger.rs:52-108 | Reading the linked files of the disk in order of creation, past their original bytes, spells the writes that can be found, file by file. |
| LogOrdering.ReaderMeetsHistoryIff | rust/src/common/logger.rs:52-125 | Over every interleaving, what a reader of the disk meets is all writes in lock order if and only if no rename replaced a file that took one and none went to an older file than the write before it. |
| LogOrdering.FreshNamesKeepOrderIff | rust/src/common/logger.rs:52-125 | With fresh names the second condition alone decides, and when it holds the bytes read from the disk are the history. |
| LogOrdering.ExclusiveRotationKeepsOrder | rust/src/common/logger.rs:52-108 | If rotations never overlap, a reader of the disk meets all writes in lock order if and only if no rename replaced a file that took one; with fresh names the bytes spell the history. |
| LogOrdering.ExclusiveRotationBoundsTheFile | rust/src/common/logger.rs:42-108 | With any number of threads: if rotations never overlap and nothing fails, the file under the path is the open one and below the limit whenever no thread is inside a write. |
| LogOrdering.OverlappingRotationsBreakOrder | rust/src/common/logger.rs:97-108 | A run of three threads with fresh names after which the disk reads 1, 2, 4, 3 for writes accepted as 1, 2, 3, 4, and the open file is not the one under the path. |
| LogOrdering.ReusedNameLosesLaterWrites | rust/src/common/logger.rs:75-93 | A run in which two rotations share a name and a write accepted after both is unreachable. |
| LogOrdering.WriteIsARun | rust/src/common/logger.rs:97-108 | Each sequential call is a run of the concurrent machine with the same disk and handle at the end. |
| LogOrdering.RotateIsARun | rust/src/common/logger.rs:52-73 | The same for the rotation inside a call. |
| SqlTables.GetIsLookup | rust/src/proton_wallet/db/database/database.rs:136-153 | In a table that represents a map the row found by key is the map's entry, and keys are unique. |
| SqlTables.InsertGrows | rust/src/proton_wallet/db/dao/account_dao.rs:51-76 | An insert gives an id never handed out before. |
| SqlTables.UpsertPutsExactlyWhenPermitted | rust/src/proton_wallet/db/dao/account_dao.rs:42-104 | Upsert succeeds as map insertion if and only if the key is new or the item carries its stored row's id, and UNIQUE is not violated. |
| SqlTables.UnknownIdChangesNothing | rust/src/proton_wallet/db/dao/account_dao.rs:96-100 | For a stored key, NoChangedRows is the answer exactly when no row has the item's id; the table is unchanged. |
| SqlTables.WrongIdOverwrites | rust/src/proton_wallet/db/dao/account_dao.rs:42-104 | When another row's id passes UNIQUE, that row is overwritten, its key is lost, two rows share a key, and no map describes the table any more. |
| SqlTables.DeleteRepresents | rust/src/proton_wallet/db/database/database.rs:175-199 | A delete removes exactly the selected entries. |
| SqlTables.TableRefinesMap | rust/src/proton_wallet/db/dao/account_dao.rs:42-135 | Every run of permitted upserts and any deletes is the same run on a map, seen through lookup by key. |
| Daos.EmptyTableRefinesMap | rust/src/proton_wallet/db/dao/account_dao.rs:42-135 | The same from an empty table and the empty map. |
| SqlTables.IdsAreNeverReused | rust/src/proton_wallet/db/dao/account_dao.rs:51-135 | In every run, permitted or not, an id that is gone stays gone. |
| Daos.Dao.Insert | rust/src/proton_wallet/db/dao/account_dao.rs:51-76 | The row appended has the next id; the reported id is that id cut to 32 bits; a clash changes nothing. |
| Daos.Dao.Update | rust/src/proton_wallet/db/dao/account_dao.rs:78-104 | Goes by row id and returns the row with the item as stored, or fails with the table as it was. |
| Daos.AccountUpsertExactly | rust/src/proton_wallet/db/dao/account_dao.rs:42-119 | In the account's own fields: an account id nobody has is inserted unless the wallet has the path; one somebody has is written over the row the item names, unless there is none or another row has wallet and path. |
| Daos.AccountUpsertSparesOthers | rust/src/proton_wallet/db/dao/account_dao.rs:42-104 | An account that names its own row, or is new, leaves every row of another account as it is. |
| Daos.Dao.Upsert | rust/src/proton_wallet/db/dao/account_dao.rs:42-49 | Chooses update or insert by natural key, and if that succeeds returns a stored row with the key. |
| Daos.Dao.DeleteById | rust/src/proton_wallet/db/dao/account_dao.rs:121-123 | Afterwards no row has the id, every other row is there, and the id is not handed out again. |
| Daos.Dao.DeleteByKey | rust/src/proton_wallet/db/dao/account_dao.rs:125-129 | Afterwards a lookup by the key finds nothing, and every row of another key is there. |
| Daos.AddressUpsertOverwrites | rust/src/proton_wallet/db/dao/address_dao.rs:27-76 | A known address that carries the id of another row always overwrites that row, whose key is lost. |
| Daos.WalletUpsertIsRefused | rust/src/proton_wallet/db/dao/wallet_dao.rs:55-170 | A wallet upsert fails exactly when the wallet is stored under another id, with a UNIQUE violation if some row has the given id and NoChangedRows otherwise. |
| Daos.WalletsAlwaysRepresentAMap | rust/src/proton_wallet/db/dao/wallet_dao.rs:49-174 | In every run of wallet upserts and deletes wallet ids stay unique. |
| Daos.RacingAddressUpserts | rust/src/proton_wallet/db/dao/address_dao.rs:27-55 | Two callers that both look before either inserts leave two rows for one key. |
| AddressRaces.LookThenWriteIsUpsert | rust/src/proton_wallet/db/dao/address_dao.rs:27-34 | With nobody in between, the lookup and the statement it decides on are the upsert. |
| AddressRaces.StepKeepsMapIff | rust/src/proton_wallet/db/dao/address_dao.rs:27-76 | A step of any caller breaks the map exactly if it is an insert whose key is stored by now, or an update whose key is in another row than the one it names. |
| AddressRaces.RacesKeepMapIff | rust/src/proton_wallet/db/dao/address_dao.rs:27-107 | Over every run of any number of callers and any deletes the table stays a map after each step if and only if it starts as one and no statement comes too late in this sense. |
| AddressRaces.PromptWritesHarmIff | rust/src/proton_wallet/db/dao/address_dao.rs:27-76 | With nobody in between, only an item that carries the id of another key does harm. |
| Decimals.ValueOfDecimal | rust/src/proton_wallet/provider/wallet.rs:182 | Reading a printed number gives the number back. |
| Decimals.DecimalIsInjective | rust/src/proton_wallet/provider/wallet.rs:182 | Two numbers print alike exactly when they are equal. |
| DerivationPaths.IsDerivationPathExist | rust/src/proton_wallet/provider/wallet.rs:169-173 | Whether some account has exactly this path. |
| DerivationPaths.GetNewDerivationPath | rust/src/proton_wallet/provider/wallet.rs:78-105 | Returns the path of the least index in 0 to 10000 that is free with and without `m/`; fails exactly when all 10001 are taken. |
| DerivationPaths.PathIsInjective | rust/src/proton_wallet/provider/wallet.rs:176-183 | Two paths are equal exactly when version, coin and index are. |
| DerivationPaths.AccountTakesOneIndex | rust/src/proton_wallet/provider/wallet.rs:92-94 | One account blocks at most one index of one (version, coin) pair. |
| DerivationPaths.FewAccountsTakeFewIndices | rust/src/proton_wallet/provider/wallet.rs:85-94 | The indices taken are at most as many as the accounts. |
| DerivationPaths.FewAccountsAlwaysAllocate | rust/src/proton_wallet/provider/wallet.rs:78-105 | With at most 10000 accounts allocation succeeds with an index no larger than their number. |
| AccountFiles.DecodeUndoesClean | rust/src/api/bdk_wallet/storage.rs:21-27 | A decoder recovers every derivation path from its cleaned file name. |
| AccountFiles.FileOfFirstAccount | rust/src/api/bdk_wallet/storage.rs:23-27 | The file of path `84'/0'/0'` by its full name. |
| AccountFiles.DifferentPathsHaveDifferentFiles | rust/src/api/bdk_wallet/storage.rs:21-28 | Two derivation paths get the same database file only if they are equal. |
| AccountFiles.CleanCollidesIff | rust/src/api/bdk_wallet/storage.rs:23 | Two texts share a cleaned name exactly when they have equal length and differ only where both have a quote, a slash or an underscore. |
| AccountFiles.OtherTextsCollide | rust/src/api/bdk_wallet/storage.rs:23 | Such texts exist; they are no derivation paths. |
| AccountFiles.AllocatedAccountsHaveTheirOwnFiles | rust/src/api/bdk_wallet/storage.rs:21-28 | Paths the allocator prints share a file exactly when version, coin and index agree. |
| AllocatorRuns.AllocatedInsertNeverClashes | rust/src/proton_wallet/provider/wallet.rs:78-105 | Inserting a path just allocated never violates UNIQUE (wallet_id, derivation_path). |
| AllocatorRuns.AllocationUsesTheLeastFree | rust/src/proton_wallet/provider/wallet.rs:84-103 | An allocation with its insert takes exactly the least free index of its own wallet, version and coin; no other series changes. |
| AllocatorRuns.RemoveSparesIndices | rust/src/proton_wallet/db/dao/account_dao.rs:121-135 | Deleting accounts of other series leaves the indices of a series as they were. |
| AllocatorRuns.AllocationsAreConsecutive | rust/src/proton_wallet/provider/wallet.rs:78-105 | From an empty table, in any interleaving with other series and their deletes, n allocations use exactly the indices 0 to n-1. |
| AllocatorRuns.LateInsertRefusedIff | rust/src/proton_wallet/db/dao/account_dao.rs:51-76 | Whatever happened since the allocation, the insert is refused if and only if an account of the wallet holds the path by then. |
| AllocatorRuns.OtherSpellingTakesIndexTwice | rust/src/proton_wallet/provider/wallet.rs:92-94 | If only the `m/` spelling was inserted in between, the insert is accepted and two accounts hold one index. |
| AllocatorRuns.RacingAllocationsCollide | rust/src/proton_wallet/provider/wallet.rs:78-105 | Two callers that allocate before either inserts get one path, and the second insert is refused. |
| MigrationPlanner.LastRegistrationWins | rust/src/proton_wallet/db/database/migration_container.rs:27-43 | Of several migrations between two versions the one added last is kept. |
| MigrationPlanner.RegistrationOrderIsIrrelevant | rust/src/proton_wallet/db/database/migration_container.rs:27-43 | Without such duplicates the order of registration does not matter. |
| MigrationPlanner.MigrationContainer.AddMigration | rust/src/proton_wallet/db/database/migration_container.rs:33-43 | Adds or replaces one migration and keeps the others. |
| MigrationPlanner.MigrationContainer.AddMigrations | rust/src/proton_wallet/db/database/migration_container.rs:27-31 | Adds the list in order. |
| MigrationPlanner.MigrationContainer.NextVersion | rust/src/proton_wallet/db/database/migration_container.rs:57-71 | Finds the least target above the current version and not above the end, or that there is none. |
| MigrationPlanner.MigrationContainer.FindMigrationPath | rust/src/proton_wallet/db/database/migration_container.rs:45-79 | Returns the path of the greedy walk, or nothing. |
| MigrationPlanner.GreedyPathIsChain | rust/src/proton_wallet/db/database/migration_container.rs:45-79 | A returned path is contiguous, strictly increasing, from start to end, of registered least steps, and no longer than the distance. |
| MigrationPlanner.NoPathMeansStuck | rust/src/proton_wallet/db/database/migration_container.rs:54-76 | Nothing is returned exactly when the walk meets a version below the end without an admissible step. |
| MigrationPlanner.GreedySucceedsIffWalkStaysConnected | rust/src/proton_wallet/db/database/migration_container.rs:45-79 | A path is returned exactly when every version on the walk can still reach the end by some path. |
| MigrationPlanner.GreedyIsComplete | rust/src/proton_wallet/db/database/migration_container.rs:45-79 | A path is always returned if the start and every registered target below the end have an admissible step. |
| MigrationPlanner.GreedyCanMissAPath | rust/src/proton_wallet/db/database/migration_container.rs:62-75 | With steps 1 to 2 and 1 to 3 the walk from 1 to 3 fails although a path exists. |
| BaseDatabases.BaseDatabase.DropTable | rust/src/proton_wallet/db/database/database.rs:25-29 | Removes the table, if any, together with its indexes. |
| BaseDatabases.BaseDatabase.CreateTable | rust/src/proton_wallet/db/database/database.rs:20-23 | Creates the table unless it exists; fails without effect if an index has the name. |
| BaseDatabases.BaseDatabase.AddIndex | rust/src/proton_wallet/db/database/database.rs:43-53 | Creates `idx_<column>` unless any table owns that name. |
| BaseDatabases.BaseDatabase.DropColumn | rust/src/proton_wallet/db/database/database.rs:55-63 | Drops the column, or fails without effect if it is constrained, indexed, missing or the last one. |
| BaseDatabases.BaseDatabase.AddColumn | rust/src/proton_wallet/db/database/database.rs:31-41 | Adds the column with its default in every row, or fails without effect if it exists. |
| BaseDatabases.BaseDatabase.ColumnExists | rust/src/proton_wallet/db/database/database.rs:99-114 | Whether the table exists and has the column. |
| AppDatabases.AppDatabase.BuildMigration | rust/src/proton_wallet/db/app_database.rs:76-125 | Registers exactly the two migrations. |
| AppDatabases.AppDatabase.RunCreateOne | rust/src/proton_wallet/db/database/account.rs:33-61 | Drops and recreates one table and adds its indexes, stopping at the first failing statement. |
| AppDatabases.AppDatabase.RunResetPool | rust/src/proton_wallet/db/database/account.rs:63-69 | Drops and adds `pool_size`; a failing drop does not stop the add. |
| AppDatabases.AppDatabase.Migrate | rust/src/proton_wallet/db/app_database.rs:78-122 | Runs the table migrations in their fixed order, ignoring their errors. |
| AppDatabases.AppDatabase.BuildDatabase | rust/src/proton_wallet/db/app_database.rs:132-151 | Runs the planned migrations in order, or nothing without a plan. |
| MigrationEffects.PlannedPaths | rust/src/proton_wallet/db/app_database.rs:76-136 | From 1 both migrations are planned, from 2 the second, from 3 on none; from 0 there is no plan. |
| MigrationEffects.ResetPoolEffect | rust/src/proton_wallet/db/database/account.rs:63-69 | Keeps every row and every other column and sets `pool_size` to 10 in all rows, unless the column cannot be dropped; then nothing changes. |
| MigrationEffects.ResetPoolIsIdempotent | rust/src/proton_wallet/db/database/account.rs:63-69 | Resetting twice is resetting once. |
| MigrationEffects.FullBuildEffect | rust/src/proton_wallet/db/app_database.rs:76-151 | From version 1 and any database: a listed table ends up empty with its fixed columns, and one `pool_size` for accounts, if and only if no index that is still there when its turn comes has its name; otherwise it is absent. Other tables are untouched. |
| MigrationEffects.UsualBuild | rust/src/proton_wallet/db/app_database.rs:76-151 | Without clashing names all ten tables are there. |
| MigrationEffects.TakenNameLosesAccounts | rust/src/proton_wallet/db/app_database.rs:100-111 | A database with an index called `account_table` is built without an account table. |
| MigrationEffects.OtherVersions | rust/src/proton_wallet/db/app_database.rs:132-148 | From version 2 the upgrade is the reset alone; from 0 and from 3 on it changes nothing. |
| MigrationEffects.BuildKeepsValid | rust/src/proton_wallet/db/app_database.rs:132-151 | From every stored version the database stays well-formed: rows have exactly the columns of their table, constraints and indexes are on columns that exist. |
| MigrationEffects.LookupColumnsAreBuilt | rust/src/proton_wallet/db/app_database.rs:132-151 | The built tables have the columns rows are looked up by, with exactly the constraints the DAOs run into. |
| Schemas.DropColumnKeepsValid | rust/src/proton_wallet/db/database/database.rs:55-63 | Dropping a column takes its value out of every row. |
| Schemas.AddColumnKeepsValid | rust/src/proton_wallet/db/database/database.rs:31-41 | Adding a column gives every row a value for it. |
| IndexOwnership.RunDecidesEntries | rust/src/proton_wallet/db/database/database.rs:43-53 | Where each index name ends up after the run, from where it was before, for every prior state. |
| IndexOwnership.UpgradeDecidesEntries | rust/src/proton_wallet/db/app_database.rs:76-151 | The same for the whole upgrade of any database, with blocked tables asking for nothing and each other table for its indexes up to the first whose name is a table. |
| IndexOwnership.AskingOwnerKeepsIndex | rust/src/proton_wallet/db/app_database.rs:100-111 | In any database a table that owns an index and gets to ask for it owns it after the upgrade. |
| IndexOwnership.FreeColumnGoesToFirstTable | rust/src/proton_wallet/db/app_database.rs:100-111 | In any database a name nobody owned goes to the first table in migration order that gets to ask for the column. |
| IndexOwnership.OwnersOfFreeNames | rust/src/proton_wallet/db/app_database.rs:100-111 | Which table gets each index of a new database; accounts and three more tables ask for one they do not get. |
| IndexOwnership.OwnersAfterUpgrade | rust/src/proton_wallet/db/app_database.rs:100-111 | After the upgrade each index belongs to a table that asks for it, or to a foreign table that had it; and exactly which asked-for names nobody holds. |
| IndexOwnership.UpgradeIsIdempotentIffSettled | rust/src/proton_wallet/db/app_database.rs:132-151 | For every database, upgrading from version 1 twice equals upgrading once exactly when no listed table owns an index only earlier tables ask for, and none is blocked by an index of another listed table; after one upgrade this always holds. |
| IndexOwnership.SecondBuildMovesTheIndex | rust/src/proton_wallet/db/app_database.rs:100-111 | A database in which the settings table owns `idx_user_id`: the first build frees the name, the second gives it to the users. |
| WalletKeys.MergeLookup | rust/src/proton_wallet/provider/wallet_keys.rs:153-171 | In whatever order the hash map yields its values, each wallet is in memory once, with the last new key, or else the last old one. |
| WalletKeys.NotFoundExactly | rust/src/proton_wallet/provider/wallet_keys.rs:98-117 | WalletKeyNotFound means that memory, store and server answered and none has the wallet; a returned key has the wallet asked for and comes from one of them. |
| WalletKeys.LookupAnswers | rust/src/proton_wallet/provider/wallet_keys.rs:98-117 | Which key or which error a lookup answers, tier by tier: the first key in memory, the store's failure or first key, the server's failure, an empty list or a failed save, the server's last key, not found. |
| WalletKeys.WalletKeySecureStore.GetWalletKeys | rust/src/proton_wallet/storage/wallet_key.rs:64-75 | Answers what the callback answers, or an error without one. |
| WalletKeys.WalletKeySecureStore.SaveApiWalletKeys | rust/src/proton_wallet/storage/wallet_key.rs:78-89 | Hands the batch to the callback, or fails without one. |
| WalletKeys.WalletKeysProvider.Clear | rust/src/proton_wallet/provider/wallet_keys.rs:69-72 | Empties memory. |
| WalletKeys.WalletKeysProvider.FindFromMemory | rust/src/proton_wallet/provider/wallet_keys.rs:120-131 | The first key of the wallet in memory, if any. |
| WalletKeys.WalletKeysProvider.LoadWalletKeysFromStore | rust/src/proton_wallet/provider/wallet_keys.rs:134-139 | Replaces memory by what the store holds; a failing store changes nothing. |
| WalletKeys.WalletKeysProvider.SaveApiWalletKeys | rust/src/proton_wallet/provider/wallet_keys.rs:153-174 | Merges the keys into memory and then saves them; an empty list is an error; memory keeps the keys even if saving fails. |
| WalletKeys.WalletKeysProvider.FetchFromServer | rust/src/proton_wallet/provider/wallet_keys.rs:142-150 | Merges and saves the server's keys; a failing server changes nothing. |
| WalletKeys.WalletKeysProvider.Reset | rust/src/proton_wallet/provider/wallet_keys.rs:75-79 | Afterwards memory holds the last server key of each wallet and nothing else, or nothing at all; which error is answered, and what the store was given. |
| WalletKeys.WalletKeysProvider.GetLockedWalletKey | rust/src/proton_wallet/provider/wallet_keys.rs:98-117 | The three-tier result, with what memory holds and the store was given in every case. |
| WalletKeyInterleavings.StepSourced | rust/src/proton_wallet/provider/wallet_keys.rs:69-174 | No step of any task brings a key into memory that neither store nor server has sent. |
| WalletKeyInterleavings.StepInStep | rust/src/proton_wallet/provider/wallet_keys.rs:160-173 | The lock held from merge to save keeps store batches in step with memory merges. |
| WalletKeyInterleavings.EveryInterleaving | rust/src/proton_wallet/provider/wallet_keys.rs:69-174 | Over all interleavings of lookups, resets and clears: keys have a source, a found key has the wallet asked for, lookups see the memory changes in their order, and the store gets the batches in merge order. |
| WalletKeyInterleavings.LookupAloneIsOutcome | rust/src/proton_wallet/provider/wallet_keys.rs:98-117 | A lookup that no other task interrupts answers what the sequential provider answers. |
| WalletKeyInterleavings.ResetAlone | rust/src/proton_wallet/provider/wallet_keys.rs:75-79 | A reset that no other task interrupts leaves the last key the server sent for each wallet, or an empty memory when the server fails or sends none, and answers accordingly. |
| WalletKeyInterleavings.NotFoundIffRemoved | rust/src/proton_wallet/provider/wallet_keys.rs:98-131 | Over every interleaving, the last search of a lookup fails if and only if every change that brought the wallet into memory was followed by a clear or by a store list without it. |
| WalletKeyInterleavings.OwnKeyIsLostIff | rust/src/proton_wallet/provider/wallet_keys.rs:98-174 | For a task whose own merge had the wallet: its last search fails if and only if such a change came after the merge and nobody brought the wallet back. |
| WalletKeyInterleavings.ClearHidesADeliveredKey | rust/src/proton_wallet/provider/wallet_keys.rs:98-117 | A run in which a clear makes a lookup report not found although the server has just sent the key. |
| CryptoTerms.OpenInvertsSeal | rust/src/proton_wallet/crypto/wallet_key.rs:132-185 | AES-GCM opens exactly what was sealed under the same key and nonce. |
| CryptoTerms.OpenInvertsEnvelop | rust/src/proton_wallet/crypto/wallet_key.rs:252-268 | A PGP message opens exactly for key sets that hold a recipient. |
| CryptoTerms.ValidUtf8Exactly | rust/src/proton_wallet/crypto/binary.rs:49-57 | The octets accepted as text are exactly the encodings of sequences of Unicode scalar values. |
| WalletSecrets.DecryptInvertsEncrypt | rust/src/proton_wallet/crypto/wallet_key.rs:132-185 | Decryption yields a text exactly for nonce and ciphertext that this key made of it. |
| WalletSecrets.EncryptLayout | rust/src/proton_wallet/crypto/wallet_key.rs:174-185 | Twelve octets of nonce, then the ciphertext with its sixteen-octet tag. |
| WalletSecrets.DecryptFailsExactly | rust/src/proton_wallet/crypto/wallet_key.rs:132-150 | Data too short for a nonce is one error, everything else this key has not made another. |
| WalletSecrets.UnlocksExactly | rust/src/proton_wallet/crypto/wallet_key.rs:241-276 | Unlocking yields a key exactly if it was encrypted to a held user key and signed, as a wallet key, by a held user key. |
| WalletSecrets.UnlockFailsExactly | rust/src/proton_wallet/crypto/wallet_key.rs:252-275 | No held recipient, no held signer and a payload of the wrong length are the three errors, in this order. |
| WalletSecrets.UnlockInvertsLock | rust/src/proton_wallet/crypto/wallet_key.rs:48-276 | A locked wallet key is recovered by exactly the key sets that hold the locking user key; any other gets a decryption error. |
| WalletSecrets.CreationSucceedsExactly | rust/src/proton_wallet/features/wallet/wallet_creation.rs:51-112 | Creation builds a request exactly when the provider has the primary key and the passphrase and the one unlocks with the other; which of these failed is told apart. |
| WalletSecrets.CreatedWalletReadsBack | rust/src/proton_wallet/features/wallet/wallet_creation.rs:51-112 | Whoever holds the creating key reads back the mnemonic and the name, "My Wallet" for an empty one; anybody else gets neither. |
| WalletSecrets.CreatedRequest | rust/src/proton_wallet/features/wallet/wallet_creation.rs:62-106 | What every field of the request holds. |
| WalletSecrets.DefaultNameSpelled | rust/src/proton_wallet/features/wallet/wallet_creation.rs:71-75 | The default name. |
| WalletSecrets.NameReadExactly | rust/src/proton_wallet/provider/wallet_name.rs:34-50 | Over everything that may be stored, a name is read exactly if the wallet key was locked to and signed by held keys and the stored name is its encryption of this text. |
| WalletSecrets.MnemonicReadExactly | rust/src/proton_wallet/provider/wallet_mnemonic.rs:49-85 | The same for the mnemonic, through the envelope exactly for the legacy mark. |
| WalletSecrets.UnsignedKeyReadsNothing | rust/src/proton_wallet/crypto/wallet_key.rs:270-272 | A wallet key that no held user key has signed gives neither name nor mnemonic. |
| WalletSecrets.UnlockedExactly | rust/src/proton_wallet/crypto/private_key.rs:104-110 | Exactly the active keys the secret opens are unlocked. |
| WalletSecrets.LegacyWalletReadsBack | rust/src/proton_wallet/provider/wallet_mnemonic.rs:49-85 | In the legacy layout the mnemonic also needs the envelope's key; the name does not. |
| WalletSecrets.WrongLayoutIsRefused | rust/src/proton_wallet/provider/wallet_mnemonic.rs:66-84 | Read under the wrong legacy mark, a mnemonic is never returned. |
| KeyRecovery.RelockUserKeyWith | rust/src/proton_wallet/crypto/private_key.rs:128-164 | Succeeds exactly when every key unlocks and locks again, with one relocked key per input in order; otherwise an error and no key. |
| KeyRecovery.RelockExactly | rust/src/proton_wallet/crypto/private_key.rs:134-163 | The same for the relock as a value, and which of the two errors is answered when. |
| KeyRecovery.RelockingKeepsTheKeys | rust/src/proton_wallet/crypto/private_key.rs:128-164 | Unlocking the relocked keys with the new secret gives what the old keys gave with the old one. |
| KeyRecovery.WalletsSurviveRelocking | rust/src/proton_wallet/provider/wallet_mnemonic.rs:49-85 | Every wallet, legacy or not, reads the same before and after relocking. |
| KeyRecovery.RecoveryUploadsAllOrNothing | rust/src/proton_wallet/features/proton_recovery.rs:46-209 | Recovery sends at most one request and never a partial key set; words are returned only after the full set was sent. |
| KeyRecovery.EnablingSucceedsExactly | rust/src/proton_wallet/features/proton_recovery.rs:46-130 | Enabling succeeds exactly if the scope is unlocked, everything up to the request works, the server takes it and the settings are then locked with code 1000; the request is sent exactly if the scope is unlocked and everything before it works. |
| KeyRecovery.ReactivatingSucceedsExactly | rust/src/proton_wallet/features/proton_recovery.rs:133-209 | The same for reactivation, which needs the scope only with a login password and locks nothing. |
| KeyRecovery.LateErrors | rust/src/proton_wallet/features/proton_recovery.rs:113-128 | Which error is answered after the request was sent. |
| KeyRecovery.EarlyErrors | rust/src/proton_wallet/features/proton_recovery.rs:46-101 | Which error is answered before anything was sent. |
| KeyRecovery.PhraseRecoversEverything | rust/src/proton_wallet/features/proton_recovery.rs:46-209 | Whether recovery was enabled or reactivated, the words shown open every uploaded key and through them the name and the mnemonic of every wallet. |
| WalletRefresh.NewPrefixIsLongest | rust/src/proton_wallet/provider/wallet.rs:126-129 | The part of the list before the first cached or repeated wallet. |
| WalletRefresh.RefreshInsertsTheNewPrefix | rust/src/proton_wallet/provider/wallet.rs:121-129 | A refresh appends exactly that part in list order with consecutive ids and then stops with NoChangedRows if anything is left. |
| WalletRefresh.CachedWalletIsRefused | rust/src/proton_wallet/db/model/wallet_model.rs:38-63 | A converted wallet has row id 0, so a cached one is refused and a new one inserted. |
| WalletRefresh.WalletMnemonicStore.SaveApiWalletMnemonics | rust/src/proton_wallet/storage/wallet_mnemonic.rs:76-87 | Hands the mnemonics to the callback, or fails without one. |
| WalletRefresh.WalletDataProvider.LoadFromServer | rust/src/proton_wallet/provider/wallet.rs:121-138 | Mnemonics are saved only after every wallet was inserted. |
| WalletRefresh.WalletDataProvider.GetWallet | rust/src/proton_wallet/provider/wallet.rs:42-56 | The cached wallet without touching anything, or the lookup after one refresh. |
| WalletRefresh.WalletDataProvider.GetWalletMnemonic | rust/src/proton_wallet/provider/wallet.rs:59-74 | The stored mnemonic without touching anything, or the lookup after one refresh, which changes table and store as a refresh does. |
| WalletRefresh.RefreshSucceedsExactly | rust/src/proton_wallet/provider/wallet.rs:121-138 | A refresh succeeds exactly when the server answers with wallets that are all new and distinct, and the mnemonics can be saved. |
| WalletRefresh.RefreshFailsExactly | rust/src/proton_wallet/provider/wallet.rs:121-138 | Which error a refresh answers: of the server, of a cached or repeated wallet, or of the mnemonic store. |
| WalletRefresh.GetWalletSucceedsExactly | rust/src/proton_wallet/provider/wallet.rs:42-56 | A wallet is returned exactly when it is cached or a successful refresh brings it, and it has the id asked for. |
| WalletRefresh.GetWalletAnswers | rust/src/proton_wallet/provider/wallet.rs:42-56 | Which row or error is answered; after a clean refresh the row shows field by field what the server sent. |
| WalletRefresh.CachedWalletBlocksRefresh | rust/src/proton_wallet/provider/wallet.rs:42-129 | While the server still sends a cached wallet, asking for an uncached one fails; a second call finds exactly those sent before the first cached one. |
| WalletRefresh.GetMnemonicSucceedsExactly | rust/src/proton_wallet/provider/wallet.rs:59-74 | A mnemonic is returned exactly when the store can be read and has it at once, or has it after a successful refresh. |
| WalletRefresh.FindMnemonicExactly | rust/src/proton_wallet/provider/wallet.rs:109-119 | The search returns a text exactly if the first entry of the wallet has this mnemonic. |
| WalletRefresh.GetMnemonicAnswers | rust/src/proton_wallet/provider/wallet.rs:59-74 | Which mnemonic or error is answered. |
| WalletRefresh.EchoingStoreHasWhatWasSent | rust/src/proton_wallet/provider/wallet.rs:59-138 | If the store answers what it was just given, a mnemonic is returned exactly when the server has sent this wallet with one, and it is that one. |
| UserKeys.UpsertKeepsOneRow | rust/src/proton_wallet/db/dao/proton_user_key_dao.rs:30-37 | With one row per key an upsert never fails, sets that key and its owner, and leaves all other keys alone. |
| UserKeys.UpsertRunsKeepOneRow | rust/src/proton_wallet/db/dao/proton_user_key_dao.rs:30-114 | Over every run of upserts by any users there is one row per key, holding what was last given for it. |
| UserKeys.TwoRowsAreRefused | rust/src/proton_wallet/db/dao/proton_user_key_dao.rs:82-113 | Should two rows have the key, an upsert is refused. |
| UserKeys.LoadStoresServerKeys | rust/src/proton_wallet/provider/user_keys.rs:121-135 | After a load every server key is stored under this user with its last contents; rows of other keys are untouched. |
| UserKeys.LoadMovesListedKeys | rust/src/proton_wallet/provider/user_keys.rs:121-135 | Exactly which keys each user lists after a load: listed keys move to this user, all others stay. |
| UserKeys.LoadedKeyIsServedLocally | rust/src/proton_wallet/provider/user_keys.rs:74-85 | A key one load brought is later served from the database with the server's contents, without asking the server. |
| UserKeys.ReturnedKeyHasTheId | rust/src/proton_wallet/provider/user_keys.rs:74-89 | A returned key has the requested id unless neither database nor server has it and the default stands in; an empty database yields no key. |
| UserKeys.ReturnedKeyIsPrimary | rust/src/proton_wallet/provider/user_keys.rs:56-71 | The same for the primary key. |
| UserKeys.GetUserKeyExactly | rust/src/proton_wallet/provider/user_keys.rs:74-89 | Which key or error is answered: nothing without rows; the user's first row with the id; else the server's failure or its first key with the id; else the default, or an error without one. |
| UserKeys.GetPrimaryKeyExactly | rust/src/proton_wallet/provider/user_keys.rs:56-71 | The same for the primary key. |
| UserKeys.AllPresented | rust/src/proton_wallet/provider/user_keys.rs:105-111 | A list of rows becomes a list of keys in the same order, field by field, all of them active. |
| UserKeys.OfUserSplits | rust/src/proton_wallet/provider/user_keys.rs:105-106 | The user's rows are taken in table order. |
| UserKeys.UserKeyDao.Upsert | rust/src/proton_wallet/db/dao/proton_user_key_dao.rs:30-37 | Stores the key and returns the stored row, or fails with the table as it was. |
| UserKeys.UserKeysProvider.GetUserKeysFromDb | rust/src/proton_wallet/provider/user_keys.rs:105-111 | This user's keys in table order; none is an error. |
| UserKeys.UserKeysProvider.LoadUserKeysFromServer | rust/src/proton_wallet/provider/user_keys.rs:121-137 | Stores every server key under this user and returns them; a missing list is an error that changes nothing. |
| UserKeys.UserKeysProvider.GetUserKey | rust/src/proton_wallet/provider/user_keys.rs:74-89 | Database, server, default in this order; the server is asked only when the database holds keys of the user but not this one. |
| UserKeys.UserKeysProvider.GetPrimaryKey | rust/src/proton_wallet/provider/user_keys.rs:56-71 | The same chain for the primary key. |
| UserKeys.UserKeysProvider.GetUserKeys | rust/src/proton_wallet/provider/user_keys.rs:92-102 | The list is fetched from the server exactly when the database holds none. |
| SessionMirror.UnchangedLooksTheSame | rust/src/api/api_service/wallet_auth_store.rs:30-39 | Sessions the comparison calls unchanged look the same to Dart. |
| SessionMirror.ChangedExactly | rust/src/api/api_service/wallet_auth_store.rs:30-38 | A session counts as changed exactly if there was none or the id, a token or the scopes differ. |
| SessionMirror.SentPartByPart | rust/src/api/api_service/wallet_auth_store.rs:204-209 | What Dart is sent, with each missing part empty. |
| SessionMirror.NotifiedInVainIff | rust/src/api/api_service/wallet_auth_store.rs:30-39 | A notification shows Dart nothing new exactly when some part differs and every differing part is missing on one side and empty on the other. |
| SessionMirror.ChangeMayBeInvisible | rust/src/api/api_service/wallet_auth_store.rs:30-39 | Such pairs of sessions exist. |
| SessionMirror.StepLosesMirrorIff | rust/src/api/api_service/wallet_auth_store.rs:30-110 | From an up-to-date state exactly the steps that store an unsent session silently, while a client initialises, or without a callback leave Dart behind. |
| SessionMirror.SetterExactly | rust/src/api/api_service/wallet_auth_store.rs:40-110 | Exactly what a notifying setter stores and schedules, for every outcome of the inner read and write. |
| SessionMirror.MirroredThroughoutIff | rust/src/api/api_service/wallet_auth_store.rs:30-192 | Over every run of all operations Dart is up to date after each step exactly when it was at the start and no step is of that kind. |
| SessionMirror.NotifyingSettersKeepTheMirror | rust/src/api/api_service/wallet_auth_store.rs:78-83 | With a callback and no client initialising, every run of notifying setters keeps the last scheduled session equal to the stored one, whichever inner reads and writes fail. |
| SessionMirror.UnchangedSchedulesNothing | rust/src/api/api_service/wallet_auth_store.rs:45-48 | Storing what is stored, up to the user id, schedules nothing. |
| SessionMirror.RepeatsNeverRepair | rust/src/api/api_service/wallet_auth_store.rs:40-55 | Once Dart is behind, storing the same session again never catches it up, not even after registration or initialisation. |
| SessionMirror.SignInAfterRemoval | rust/src/api/api_service/wallet_auth_store.rs:78-191 | Signing in after a removal or logout tells Dart even a session it was sent before, if a callback is registered again, and nothing otherwise. |
| SessionMirror.SessionsOfInitialisationAreNotSent | rust/src/api/api_service/wallet_auth_store.rs:49-52 | A session stored during client initialisation stays unsent for as long as it is only repeated. |
| SessionMirror.ScheduledIsStored | rust/src/api/api_service/wallet_auth_store.rs:194-217 | A step schedules at most one session, and it is the one stored. |
| SessionMirror.SessionGlobals.NotifyAuthSessionChanged | rust/src/api/api_service/wallet_auth_store.rs:40-55 | Schedules exactly when the session is new, not None, no client initialises and a callback is registered. |
| SessionMirror.CallbackWalletAuthStore.SetAuth | rust/src/api/api_service/wallet_auth_store.rs:78-83 | Stores and notifies; keeps the mirror with a callback registered and no client initialising. |
| SessionMirror.CallbackWalletAuthStore.SetAllAuth | rust/src/api/api_service/wallet_auth_store.rs:93-106 | The same for the map form; an empty map notifies nobody. |
| SessionMirror.CallbackWalletAuthStore.RemoveAuth | rust/src/api/api_service/wallet_auth_store.rs:85-87 | Returns the session and clears the slot; nothing is scheduled, and Dart is not behind afterwards. |
| SessionMirror.ProtonWalletAuthStore.SetAuthSync | rust/src/api/api_service/wallet_auth_store.rs:153-166 | Replaces the session silently; Dart stays up to date exactly if it was last sent this session. |
| SessionMirror.ProtonWalletAuthStore.SetAuthDartCallback | rust/src/api/api_service/wallet_auth_store.rs:168-176 | Registers a callback; nothing is scheduled, and whether Dart is behind does not change. |
| SessionMirror.ProtonWalletAuthStore.ClearAuthDartCallback | rust/src/api/api_service/wallet_auth_store.rs:178-183 | Unregisters the callback; nothing is scheduled, and whether Dart is behind does not change. |
| SessionMirror.ProtonWalletAuthStore.Logout | rust/src/api/api_service/wallet_auth_store.rs:185-191 | Unregisters the callback and clears the session. |
| SessionInterleavings.EveryInterleavingAccounts | rust/src/api/api_service/wallet_auth_store.rs:78-82 | Over every interleaving of several stores and callback tasks, each scheduled session reaches Dart exactly once and was stored at some time. |
| SessionInterleavings.FromTheStartAllAccounted | rust/src/api/api_service/wallet_auth_store.rs:78-217 | The same from a slot just built. |
| SessionInterleavings.CallAloneIsSetAuth | rust/src/api/api_service/wallet_auth_store.rs:78-83 | A call that nobody interrupts is the notifying setter. |
| SessionInterleavings.OrderlyRunsEndMirrored | rust/src/api/api_service/wallet_auth_store.rs:78-217 | If writes find what their call read, notifications follow the writes and tasks finish in order, then once all are done Dart's last session is the stored one. |
| SessionInterleavings.FromTheStartOrderlyRunsEndMirrored | rust/src/api/api_service/wallet_auth_store.rs:78-217 | The same from a slot just built. |
| SessionInterleavings.StaleWritesEndMirroredIff | rust/src/api/api_service/wallet_auth_store.rs:78-217 | With notifications and tasks in order and reads as stale as they may be: once all is done Dart's last session is the stored one if and only if the last notification did not stay silent about a session that looks different from the one last announced. |
| SessionInterleavings.FromTheStartStaleWritesEndMirroredIff | rust/src/api/api_service/wallet_auth_store.rs:78-217 | The same from a slot just built. |
| SessionInterleavings.StaleReadEndsStale | rust/src/api/api_service/wallet_auth_store.rs:79-81 | For any two sessions Dart can tell apart, a run in which only a write meets another session than its call had read, and Dart ends with another session than the stored one. |
| SessionInterleavings.SwappedNotificationsEndStale | rust/src/api/api_service/wallet_auth_store.rs:80-81 | For any three such sessions, the same end when only two notifications are in the opposite order of their writes. |
| SessionInterleavings.SwappedDeliveriesEndStale | rust/src/api/api_service/wallet_auth_store.rs:201-215 | For any three such sessions, the same end when only two callback tasks finish in the opposite order of their spawning. |

## Left out

- LogWriter.CollidesIffStampRepeats: only names left by this writer count; a file of another origin that a rename replaces is covered by `LostExactlyWhenOverwritten`.
- SessionInterleavings.StaleWritesEndMirroredIff: notifications and tasks are in order; when those are not, the two runs below it show what can happen.
- Log messages that the writer itself emits while rotating, and the text of time stamps.
- Bytes a flush would hold back: a write reaches the file at once.
- Daos.Dao.Insert: 64-bit row ids are unbounded naturals; exhaustion of AUTOINCREMENT is not modelled.
- NULL, column types, CHECK and NOT NULL constraints and defaults other than that of `pool_size`; row decoding.
- Daos.Dao.Update: all columns but the keys are one opaque part of the row, set together as the statement does.
- The other DAOs: they have the same shape; their tables appear as column lists in the migrations.
- AccountFiles.AllocatedAccountsHaveTheirOwnFiles: the key handed to the file naming is the path text alone; prefixes a caller may add are not part of this model.
- DerivationPaths.GetNewDerivationPath: indices are unbounded naturals; the loop stays below 10001, so 32 bits never matter.
- `run_migrations`, `reset`, `drop_all_tables` and the printing of schemas: one-line uses of what is modelled.
- Time-outs and cancellation of asynchronous calls; a task that stops midway is a run that ends there.
- WalletSecrets.UnlockInvertsLock: `lock_with` is a value; the buffer it streams through is not modelled.
- Address keys and `as_self_encryption_public_key`: they take no part in wallet secrets.
- SRP proofs, the password scope and `disable_recovery`: replies of foreign code, present only as steps that may fail.
- WalletRefresh.EchoingStoreHasWhatWasSent: concerns a secure store that answers what was last saved; `GetMnemonicSucceedsExactly` is about any store.
- `get_user_key_passphrase` and the default-key callback: one call each into Dart; the reply is a parameter.
- SessionMirror.CallbackWalletAuthStore.SetAllAuth: what the foreign store keeps for an empty map is a parameter.
- SessionInterleavings.OrderlyRunsEndMirrored: registration and initialisation stay fixed during the interleaved runs; SessionMirror covers their changes.
- Poisoned locks, and which of two registered Dart callbacks receives a session.
- API clients, the Bitcoin wallet wrappers, the Flutter bridge and the user interface: forwarding code.
