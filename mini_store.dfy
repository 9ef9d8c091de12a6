/**
 * The key-value store: an object over one database whose Store table is held
 * in the field `table`, and the `Options` builder that configures how it is
 * opened. Every method below performs what the corresponding single SQL
 * statement (or, for BatchPut, the single transaction) does to the table.
 */
module Store {
  import opened SqlLike
  import opened StoreTable

  const JournalModeWalPragma := "PRAGMA journal_mode = WAL"
  const DataSourcePrefix := "Data Source="

  /** Connection settings and the commands to run once the schema exists. */
  class Options {
    var preCommands: seq<string>
    var connectionString: string

    constructor ()
      ensures preCommands == [] && connectionString == ""
    {
      preCommands := [];
      connectionString := "";
    }

    /** Replaces the connection string; returns this builder. */
    method ConnectionString(cs: string) returns (self: Options)
      modifies this
      ensures self == this
      ensures connectionString == cs
      ensures preCommands == old(preCommands)
    {
      connectionString := cs;
      self := this;
    }

    /** Targets the database file at `path`; returns this builder. */
    method FromPath(path: string) returns (self: Options)
      modifies this
      ensures self == this
      ensures connectionString == DataSourcePrefix + path
      ensures preCommands == old(preCommands)
    {
      self := ConnectionString(DataSourcePrefix + path);
    }

    /** Queues `command` after those already queued; returns this builder. */
    method PreCommand(command: string) returns (self: Options)
      modifies this
      ensures self == this
      ensures preCommands == old(preCommands) + [command]
      ensures connectionString == old(connectionString)
    {
      preCommands := preCommands + [command];
      self := this;
    }

    /** Queues the pragma that switches the journal to write-ahead logging. */
    method JournalModeWal() returns (self: Options)
      modifies this
      ensures self == this
      ensures preCommands == old(preCommands) + [JournalModeWalPragma]
      ensures connectionString == old(connectionString)
    {
      self := PreCommand(JournalModeWalPragma);
    }
  }

  class MiniStore {
    /** The options the store was opened with (shared with the caller). */
    const options: Options
    /** The contents of the Store table. */
    var table: Table
    /** The statements run against the database while opening, in order. */
    var executed: seq<string>

    /** Opens the database described by `options`, whose file held `db`:
        the schema is ensured first, then the pre-commands run in order. */
    constructor (options: Options, db: Option<Table>)
      ensures this.options == options
      ensures table == Bootstrap(db)
      ensures executed == [CreateStoreTable] + options.preCommands
    {
      this.options := options;
      executed := [];
      new;
      EnsureDatabaseExists(db);
      DoPreCommands();
    }

    /** Opens the database file at `path`, whose file held `db`, with default options. */
    constructor FromPath(path: string, db: Option<Table>)
      ensures fresh(options)
      ensures options.connectionString == DataSourcePrefix + path
      ensures options.preCommands == []
      ensures table == Bootstrap(db)
      ensures executed == [CreateStoreTable]
    {
      var o := new Options();
      o := o.FromPath(path);
      options := o;
      executed := [];
      new;
      EnsureDatabaseExists(db);
      DoPreCommands();
    }

    /** Creates the Store table unless the file already has one. */
    method EnsureDatabaseExists(db: Option<Table>)
      modifies this`table, this`executed
      ensures table == Bootstrap(db)
      ensures executed == old(executed) + [CreateStoreTable]
    {
      executed := executed + [CreateStoreTable];
      table := Bootstrap(db);
    }

    /** Runs each pre-command of the options, first to last. */
    method DoPreCommands()
      modifies this`executed
      ensures executed == old(executed) + options.preCommands
    {
      var commands := options.preCommands;
      for i := 0 to |commands|
        invariant executed == old(executed) + commands[..i]
      {
        executed := executed + [commands[i]];
      }
    }

    /** Upserts every pair in order, as one atomic step. */
    method BatchPut(items: seq<(string, string)>)
      modifies this`table
      ensures table == ApplyAll(old(table), items)
    {
      for i := 0 to |items|
        invariant table == ApplyAll(old(table), items[..i])
      {
        var (key, value) := items[i];
        assert items[..i + 1][..i] == items[..i];
        table := Upsert(table, key, value);
      }
      assert items[..|items|] == items;
    }

    /** Creates `key` with `data`, or replaces the data already stored under it. */
    method Put(key: string, data: string)
      modifies this`table
      ensures table == Upsert(old(table), key, data)
    {
      table := Upsert(table, key, data);
    }

    /** The data stored under `key`, or "" when there is none. */
    method Get(key: string) returns (data: string)
      ensures key in table ==> data == table[key]
      ensures key !in table ==> data == ""
      ensures data == Lookup(table, key)
    {
      var rows := Rows(table, key);
      RowsOfKey(table, key);
      if rows == {} {
        data := "";
      } else {
        var row :| row in rows;
        data := row.1;
      }
    }

    /** Removes `key` if it is stored; otherwise nothing happens. */
    method Delete(key: string)
      modifies this`table
      ensures table == Remove(old(table), key)
    {
      table := Remove(table, key);
    }

    /** Whether `key` is stored. */
    method Exists(key: string) returns (found: bool)
      ensures found <==> key in table
      ensures found == Stored(table, key)
    {
      var count := Count(table, key);
      found := count != 0;
    }

    /** Every stored key, once each, in no particular order. */
    method Keys() returns (keys: seq<string>)
      ensures NoDuplicates(keys)
      ensures forall k :: k in keys <==> k in table
      ensures |keys| == |table|
    {
      var unread := table.Keys;
      keys := [];
      while unread != {}
        invariant unread <= table.Keys
        invariant forall k :: k in keys <==> k in table && k !in unread
        invariant NoDuplicates(keys)
        invariant |keys| + |unread| == |table|
        decreases |unread|
      {
        var k :| k in unread;
        keys := keys + [k];
        unread := unread - {k};
      }
    }

    /** The stored keys that match the LIKE pattern `expression`, once each,
        in no particular order. */
    method KeysLike(expression: string) returns (keys: seq<string>)
      ensures NoDuplicates(keys)
      ensures forall k :: k in keys <==> k in table && SqliteLike(expression, k)
      ensures forall k :: k in keys <==> k in Matching(table, expression)
      ensures |keys| == |Matching(table, expression)|
    {
      ghost var matched := Matching(table, expression);
      var unread := table.Keys;
      keys := [];
      assert unread * matched == matched;
      while unread != {}
        invariant unread <= table.Keys
        invariant forall k :: k in keys <==> k in matched && k !in unread
        invariant NoDuplicates(keys)
        invariant |keys| + |unread * matched| == |matched|
        decreases |unread|
      {
        var k :| k in unread;
        var hit := SqliteLike(expression, k);
        assert hit <==> k in matched;
        if hit {
          assert (unread - {k}) * matched == unread * matched - {k};
          keys := keys + [k];
        } else {
          assert (unread - {k}) * matched == unread * matched;
        }
        unread := unread - {k};
      }
      assert unread * matched == {};
      assert forall k :: k in matched <==> k in table && SqliteLike(expression, k);
    }
  }
}
