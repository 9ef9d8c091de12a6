/**
 * The repository's unit tests, replayed as clients of `Store.MiniStore`, plus
 * two scenarios about opening a store (`ReopenKeepsData`, `OpenWithWal`). Each
 * test opens a fresh database (the test fixture deletes the file first, so the
 * Store table does not exist yet) and proves, from the method contracts alone,
 * what the test asserts. `QueryTestPrefix` is the query half of `KeysLikePrefix`.
 */
module StoreScenarios {
  import opened SqlLike
  import opened StoreTable
  import opened Store

  method PutGet() returns (got: string)
    ensures got == "Value"
  {
    var store := new MiniStore.FromPath("test.db", None);
    store.Put("Test", "Value");
    got := store.Get("Test");
  }

  method PutUpdateGet() returns (got: string)
    ensures got == "Value2"
  {
    var store := new MiniStore.FromPath("test.db", None);
    store.Put("Test", "Value");
    store.Put("Test", "Value2");
    got := store.Get("Test");
  }

  method GetNonExisting() returns (got: string)
    ensures got == ""
  {
    var store := new MiniStore.FromPath("test.db", None);
    got := store.Get("DoesntExist");
  }

  method ExistsOrNot() returns (missing: bool, present: bool)
    ensures !missing && present
  {
    var store := new MiniStore.FromPath("test.db", None);
    store.Put("Test", "Value");
    missing := store.Exists("DoesntExist");
    present := store.Exists("Test");
  }

  method DeleteThenExists() returns (before: bool, after: bool)
    ensures before && !after
  {
    var store := new MiniStore.FromPath("test.db", None);
    store.Put("Test", "Value");
    before := store.Exists("Test");
    store.Delete("Test");
    after := store.Exists("Test");
  }

  method KeysOfTwo() returns (keys: seq<string>)
    ensures |keys| == 2 && "Test" in keys && "Case" in keys
  {
    var store := new MiniStore.FromPath("test.db", None);
    store.Put("Test", "Value");
    store.Put("Case", "Another");
    assert store.table.Keys == {"Test", "Case"};
    keys := store.Keys();
  }

  method KeysLikePrefix() returns (keys: seq<string>)
    ensures |keys| == 2 && "Test" in keys && "Test2" in keys && "Case" !in keys
  {
    var store := new MiniStore.FromPath("test.db", None);
    store.Put("Test", "Value");
    store.Put("Test2", "Value2");
    store.Put("Case", "Another");
    assert store.table.Keys == {"Test", "Test2", "Case"};
    keys := QueryTestPrefix(store);
  }

  /** The test's `KeysLike("Test%")` over a store holding exactly `Test`, `Test2` and `Case`. */
  method QueryTestPrefix(store: MiniStore) returns (keys: seq<string>)
    requires store.table.Keys == {"Test", "Test2", "Case"}
    ensures |keys| == 2 && "Test" in keys && "Test2" in keys && "Case" !in keys
  {
    MatchingTestPattern(store.table);
    keys := store.KeysLike("Test%");
  }

  method BatchPutTwo() returns (first: string, second: string)
    ensures first == "Value" && second == "Another"
  {
    var store := new MiniStore.FromPath("test.db", None);
    var items := [("Test", "Value"), ("Case", "Another")];
    store.BatchPut(items);
    BatchLastWins(map[], items, "Test", 0);
    BatchLastWins(map[], items, "Case", 1);
    first := store.Get("Test");
    second := store.Get("Case");
  }

  /** A handle opened on a file holding an earlier handle's table (passed in as
      the file's contents) finds what the earlier handle stored. */
  method ReopenKeepsData() returns (got: string, present: bool)
    ensures got == "Value" && present
  {
    var first := new MiniStore.FromPath("test.db", None);
    first.Put("Test", "Value");
    var second := new MiniStore.FromPath("test.db", Some(first.table));
    got := second.Get("Test");
    present := second.Exists("Test");
  }

  /** Options built with WAL mode: opening runs the schema statement, then the pragma. */
  method OpenWithWal(path: string) returns (store: MiniStore)
    ensures store.executed == [CreateStoreTable, JournalModeWalPragma]
    ensures store.options.connectionString == DataSourcePrefix + path
  {
    var options := new Options();
    options := options.FromPath(path);
    options := options.JournalModeWal();
    store := new MiniStore(options, None);
  }
}
