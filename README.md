# MiniStore, modelled in Dafny

MiniStore is a very small persistent key-value store built on SQLite. It keeps
all records in one table `Store(Key TEXT PRIMARY KEY, Data TEXT)`. Each public
operation is one SQL statement against that table. `BatchPut` is the exception:
it runs one upsert per item inside a single transaction. Opening a store first
creates the table if it is missing. Then it runs the caller's pre-commands (for
example the WAL journal pragma) in the order they were queued on an `Options`
builder.

The model has four modules:

- `SqlLike` (`sql_like.dfy`): SQLite's default `LIKE`, written as a recursive
  predicate. `%` matches any run of characters, `_` matches exactly one, there
  is no escape character, and only the ASCII letters compare case-insensitively.
  SQLite reads both operands as NUL-terminated text, so the model cuts each at
  its first U+0000 before matching.
  The lemmas about it give independent descriptions: `%` means "some suffix
  matches the rest", a pattern without `%` is checked position by position, a
  prefix pattern `q%` means "starts with `q`", and matching ignores ASCII case.
- `StoreTable` (`store_table.dfy`): the table as a `map<string, string>`, with
  one function for the effect of each statement (upsert, delete, the rows a
  `WHERE Key = @key` selects, `COUNT(*)`, a batch of upserts). It also holds
  the lemmas that relate sequences of operations (Put then Get, Delete then
  Exists, last write wins in a batch, and so on).
- `Store` (`mini_store.dfy`): the classes `MiniStore` and `Options`. The store
  keeps the table in a field that `Put`, `Delete` and `BatchPut` update. `Get`,
  `Exists`, `Keys` and `KeysLike` only read it. `Keys` and `KeysLike` gather
  their result with a loop over rows that come in an unspecified order, like
  the source's reader loop. The builder's methods update its fields and return
  the builder itself, as the C# methods return `this`.
- `StoreScenarios` (`store_scenarios.dfy`): the repository's unit tests as
  client methods, plus two scenarios about opening a store (reopening a file
  and opening with WAL options). Each one proves its assertion from the
  contracts alone.

Inputs the program gets from the outside are parameters of the model. The
database file's contents at open time are the `db: Option<Table>` argument of
the constructors, where `None` means the file has no Store table yet.

Two points of detail:

- Keys may be any string, the empty one included, as SQLite accepts them.
- `Exists` compares the count with 0. The source does this through the count's
  text, `"0"`.

## Model

| member | source | states |
|---|---|---|
| `Store.Options.constructor` | Katoa.MiniStore/MiniStore.cs:223-224 | a new builder has no pre-commands and an empty connection string |
| `Store.Options.ConnectionString` | Katoa.MiniStore/MiniStore.cs:226-230 | replaces the connection string, keeps the pre-commands, returns the same builder |
| `Store.Options.FromPath` | Katoa.MiniStore/MiniStore.cs:232 | sets the connection string to `Data Source=` followed by the path, keeps the pre-commands, returns the same builder |
| `Store.Options.PreCommand` | Katoa.MiniStore/MiniStore.cs:234-238 | appends the command at the end of the pre-command list, keeps the connection string, returns the same builder |
| `Store.Options.JournalModeWal` | Katoa.MiniStore/MiniStore.cs:240 | appends `PRAGMA journal_mode = WAL` to the pre-commands, keeps the connection string, returns the same builder |
| `Store.MiniStore.constructor` | Katoa.MiniStore/MiniStore.cs:24-29 | keeps the caller's options; the table is what the file held (empty when the file had none); the statements run are the schema statement followed by every pre-command, in list order |
| `Store.MiniStore.FromPath` | Katoa.MiniStore/MiniStore.cs:35-37 | opens with fresh options whose connection string is `Data Source=` plus the path and which have no pre-commands, so only the schema statement runs |
| `Store.MiniStore.EnsureDatabaseExists` | Katoa.MiniStore/MiniStore.cs:53-60 | runs the create-if-absent statement; an existing table is kept as it is, a missing one starts empty |
| `Store.MiniStore.DoPreCommands` | Katoa.MiniStore/MiniStore.cs:39-49 | runs exactly the options' pre-commands, first to last, after whatever ran before |
| `Store.MiniStore.BatchPut` | Katoa.MiniStore/MiniStore.cs:66-83 | the new table is the old one with every pair upserted in sequence order, as one step |
| `Store.MiniStore.Put` | Katoa.MiniStore/MiniStore.cs:89-99 | the new table is the old one with the key upserted to the data |
| `Store.MiniStore.Get` | Katoa.MiniStore/MiniStore.cs:135-149 | returns the data stored under the key, and `""` when the key is absent; this is `Lookup` of the table |
| `Store.MiniStore.Delete` | Katoa.MiniStore/MiniStore.cs:155-163 | the new table is the old one without the key (unchanged when the key was absent) |
| `Store.MiniStore.Exists` | Katoa.MiniStore/MiniStore.cs:169-180 | true exactly when the key is stored; this is `Stored` of the table |
| `Store.MiniStore.Keys` | Katoa.MiniStore/MiniStore.cs:185-199 | returns every stored key and nothing else, each once, so its length is the number of records |
| `Store.MiniStore.KeysLike` | Katoa.MiniStore/MiniStore.cs:201-220 | returns exactly the stored keys that match the LIKE pattern as SQLite applies it, each once; the count equals the number of matching keys |
| `StoreTable.Bootstrap` | Katoa.MiniStore/MiniStore.cs:58 | create-if-absent keeps an existing table's data and yields an empty table otherwise |
| `StoreTable.Upsert` | Katoa.MiniStore/MiniStore.cs:94-95 | the key is present with the new data; every other key keeps its presence and its data |
| `StoreTable.Remove` | Katoa.MiniStore/MiniStore.cs:160 | exactly the key leaves the table; every remaining key keeps its data |
| `StoreTable.RowsOfKey` | Katoa.MiniStore/MiniStore.cs:58 | `Rows`, the rows a `WHERE Key = @key` selection visits (:145, :174), holds the key's one row or no row, because the key is the primary key |
| `StoreTable.Count` | Katoa.MiniStore/MiniStore.cs:174-177 | `COUNT(*)` for a key is at most 1, and is 1 exactly when the key is stored |
| `StoreTable.Matching` | Katoa.MiniStore/MiniStore.cs:210 | the keys a LIKE selection returns are a subset of the stored keys |
| `StoreTable.GetAfterPut` | Katoa.MiniStore/MiniStore.cs:89-149 | after a Put, Get of that key returns the value put, and Get of any other key returns what it returned before |
| `StoreTable.PutOverwrites` | Katoa.MiniStore/MiniStore.cs:94-95 | a second Put to the same key leaves the table as if only the second had run, and Get returns the newer value |
| `StoreTable.Stored` | Katoa.MiniStore/MiniStore.cs:174-177 | the existence test "count is not zero" holds exactly for stored keys |
| `StoreTable.Lookup` | Katoa.MiniStore/MiniStore.cs:145-148 | Get's answer is the Data of the row the `WHERE Key = @key` selection reads, and `""` when the selection is empty |
| `StoreTable.ApplyAll` | Katoa.MiniStore/MiniStore.cs:75-80 | the one-upsert-per-item loop keeps every old key and stores every key of the batch |
| `StoreTable.ExistsAfterPut` | Katoa.MiniStore/MiniStore.cs:89-99 | after any Put the key exists; a Put to a key already present does not change which keys exist |
| `StoreTable.DeleteRemovesKey` | Katoa.MiniStore/MiniStore.cs:155-163 | after Delete the key does not exist and reads as `""`; other keys read as before; deleting an absent key leaves the table unchanged |
| `StoreTable.BatchOfOne` | Katoa.MiniStore/MiniStore.cs:66-99 | a batch of one pair has the same effect as one Put |
| `StoreTable.BatchConcat` | Katoa.MiniStore/MiniStore.cs:75-80 | running two batches one after the other equals running their concatenation, so a batch equals its Puts issued in order |
| `StoreTable.BatchLastWins` | Katoa.MiniStore/MiniStore.cs:72-80 | when a key occurs in the batch, its data afterwards is that of its last pair in the batch |
| `StoreTable.BatchUntouched` | Katoa.MiniStore/MiniStore.cs:72-80 | a key that no pair of the batch mentions keeps its presence and its data |
| `StoreTable.BatchDomain` | Katoa.MiniStore/MiniStore.cs:72-80 | the keys after a batch are the keys before it together with the keys the batch mentions |
| `StoreTable.MatchingPercentIsAll` | Katoa.MiniStore/MiniStore.cs:201-220 | the pattern `%` selects every stored key |
| `StoreTable.MatchingPrefix` | Katoa.MiniStore/MiniStore.cs:201-220 | a prefix pattern `q%` selects exactly the stored keys whose text up to the first NUL starts with `q`, where `_` accepts any character and letters compare up to ASCII case |
| `StoreTable.MatchingTestPattern` | Katoa.MiniStore.Tests/MiniStoreTests.cs:79-85 | over the keys `Test`, `Test2` and `Case`, the pattern `Test%` selects exactly `Test` and `Test2` |
| `SqlLike.Like` | Katoa.MiniStore/MiniStore.cs:201-210 | the LIKE match on NUL-free text. Three lemmas below together describe every pattern: `PercentIsAnyRun` (a leading `%`), `LiteralPrefix` (a literal run followed by anything) and `FixedLengthPattern` (the empty pattern matches only the empty string) |
| `SqlLike.SqliteLike` | Katoa.MiniStore/MiniStore.cs:210 | `Key LIKE @expression` stops at the first NUL of either operand, and on NUL-free operands it is exactly `Like` |
| `SqlLike.UpToNul` | Katoa.MiniStore/MiniStore.cs:210 | the text SQLite reads is the longest prefix without NUL, ending just before the first NUL if there is one |
| `SqlLike.NulFreeUnchanged` | Katoa.MiniStore/MiniStore.cs:210 | a string without NUL is read in full |
| `SqlLike.NulEndsSubject` | Katoa.MiniStore/MiniStore.cs:210 | a key `a\0b` is matched as `a`: `a` selects it and `a%b` does not |
| `SqlLike.PercentMatchesEverything` | Katoa.MiniStore/MiniStore.cs:201-210 | `%` alone matches every string, including the empty one |
| `SqlLike.PercentIsAnyRun` | Katoa.MiniStore/MiniStore.cs:201-210 | `%p` matches a string exactly when some suffix of it matches `p`, which means `%` stands for any run of characters |
| `SqlLike.FixedLengthPattern` | Katoa.MiniStore/MiniStore.cs:201-210 | a pattern without `%` matches exactly the strings of its length that agree at each position, where `_` accepts any character and letters compare up to ASCII case |
| `SqlLike.LiteralPrefix` | Katoa.MiniStore/MiniStore.cs:201-210 | a pattern `q` followed by `r`, with no `%` in `q`, matches exactly the strings whose first `|q|` characters agree with `q` position by position and whose remainder matches `r` |
| `SqlLike.PrefixPattern` | Katoa.MiniStore/MiniStore.cs:201-210 | `q%` with no `%` in `q` matches exactly the strings whose first `|q|` characters agree with `q` position by position |
| `SqlLike.LikeIgnoresAsciiCase` | Katoa.MiniStore/MiniStore.cs:201-210 | folding ASCII case in the pattern and the subject never changes whether they match |
| `SqlLike.PrefixExamples` | Katoa.MiniStore.Tests/MiniStoreTests.cs:77-87 | `Test%` matches `Test` and `Test2` but not `Case`, and `test%` matches `TEST2` |
| `SqlLike.TestPatternExamples` | Katoa.MiniStore.Tests/MiniStoreTests.cs:77-87 | the same four answers hold for the operator as SQLite applies it, the strings having no NUL |
| `StoreScenarios.PutGet` | Katoa.MiniStore.Tests/MiniStoreTests.cs:21-25 | on a fresh store, Get after Put returns the value put |
| `StoreScenarios.PutUpdateGet` | Katoa.MiniStore.Tests/MiniStoreTests.cs:37-42 | after two Puts to one key, Get returns the second value |
| `StoreScenarios.GetNonExisting` | Katoa.MiniStore.Tests/MiniStoreTests.cs:45-48 | Get of a key never written returns the empty string |
| `StoreScenarios.ExistsOrNot` | Katoa.MiniStore.Tests/MiniStoreTests.cs:51-56 | a key that was put exists; a key that was never put does not |
| `StoreScenarios.DeleteThenExists` | Katoa.MiniStore.Tests/MiniStoreTests.cs:59-65 | a key exists after Put and no longer exists after Delete |
| `StoreScenarios.KeysOfTwo` | Katoa.MiniStore.Tests/MiniStoreTests.cs:68-75 | after two Puts of distinct keys, Keys returns exactly two keys, both of them |
| `StoreScenarios.KeysLikePrefix` | Katoa.MiniStore.Tests/MiniStoreTests.cs:77-87 | over `Test`, `Test2` and `Case`, `KeysLike("Test%")` returns exactly `Test` and `Test2` |
| `StoreScenarios.QueryTestPrefix` | Katoa.MiniStore.Tests/MiniStoreTests.cs:82-85 | on any store holding exactly `Test`, `Test2` and `Case`, `KeysLike("Test%")` returns two keys, `Test` and `Test2` |
| `StoreScenarios.ReopenKeepsData` | Katoa.MiniStore/MiniStore.cs:35-60 | a handle opened on a file that holds an earlier handle's table finds the earlier Put: Get returns its value and Exists is true. The file's contents are supplied as the open argument |
| `StoreScenarios.BatchPutTwo` | Katoa.MiniStore.Tests/MiniStoreTests.cs:90-98 | after a batch of two pairs, Get returns each pair's value |
| `StoreScenarios.OpenWithWal` | Katoa.MiniStore/MiniStore.cs:24-49 | opening with `FromPath` and `JournalModeWal` options runs the schema statement and then the WAL pragma, and keeps the path's connection string |

## Left out

- Typed `Put<T>` and `Get<T>` (Katoa.MiniStore/MiniStore.cs:107-133): their behaviour is entirely JSON serialisation by `System.Text.Json`, which is not part of this model.
- `DeleteStore` (Katoa.MiniStore/MiniStore.cs:15-18): it only deletes a file.
- Connections, commands, parameters, `using` disposal and `Close`: these belong to the SQLite client library. The table is a map and each statement is one state change.
- Rollback of a batch when a statement fails part way: the model has no engine failures, so `BatchPut` is always one atomic step that succeeds. Failures of the engine in general (a busy or locked file, an unreadable database) are not modelled either.
- What a pre-command does to the engine (for example that WAL mode changes journalling): the model records which commands run and in what order, but not their effect. A pre-command that changed the table's contents would not show in `table`.
- `Store.MiniStore.Keys`: the physical order of the rows is not modelled. The contract speaks of the set of keys and the absence of duplicates, as the source promises nothing about order.
- `SqlLike.SqliteLike`: characters are Dafny characters (Unicode scalar values). SQLite's limit on pattern length, which raises an error for very long patterns, is not modelled.
- `Store.MiniStore`: the model assumes that the connection string is not changed after open and that it names a lasting database used only by this handle. The source opens a new connection on every call, through the shared options' connection string as it is at that moment. Changing the shared `Options` after open would send later calls to another database. Two handles on one path share one table. A per-connection database such as `Data Source=:memory:` does not keep the table between calls. The model captures none of these cases: `table` belongs to the handle, and every call of that handle reaches only it.
- `null` strings: C# allows a `null` key or value, which Dafny strings cannot be, and reading back a `NULL` Data column would throw. The model covers non-null strings only.
- `INSERT OR REPLACE` in `BatchPut` deletes and re-inserts a row where `Put` updates it in place. On this two-column table the resulting contents are the same, and only the physical row order, which is not modelled, can differ.
- Concurrency and locking between several callers are left to SQLite and are not modelled.
- The benchmark program (Katoa.MiniStore.Performance/Program.cs) is timing and console output and is not part of this model.
