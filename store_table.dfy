/**
 * The persisted table `Store(Key TEXT PRIMARY KEY, Data TEXT)` as a finite map
 * from key to data, and the effect of each statement the store issues on it.
 * These functions are the specification the methods of `Store.MiniStore` are
 * proved against.
 */
module StoreTable {
  import opened SqlLike

  datatype Option<T> = None | Some(value: T)

  /** One row per key: the primary key makes the key column unique. */
  type Table = map<string, string>

  /** The statement run first on every open. */
  const CreateStoreTable := "CREATE TABLE IF NOT EXISTS Store (Key TEXT PRIMARY KEY, Data TEXT)"

  /** The table after `CREATE TABLE IF NOT EXISTS`, given what the database
      file held before (None: no Store table yet). */
  function Bootstrap(db: Option<Table>): (t: Table)
    ensures db.Some? ==> t == db.value
    ensures db.None? ==> |t| == 0
  {
    match db
    case None => map[]
    case Some(existing) => existing
  }

  /** `INSERT ... ON CONFLICT(Key) DO UPDATE SET Data = @data`, and equally
      `INSERT OR REPLACE` on this two-column table. */
  function Upsert(t: Table, key: string, data: string): (r: Table)
    ensures r.Keys == t.Keys + {key}
    ensures r[key] == data
    ensures forall k :: k in t && k != key ==> r[k] == t[k]
  {
    t[key := data]
  }

  /** `DELETE FROM Store WHERE Key = @key`. */
  function Remove(t: Table, key: string): (r: Table)
    ensures r.Keys == t.Keys - {key}
    ensures forall k :: k in r ==> r[k] == t[k]
  {
    t - {key}
  }

  /** The rows `... FROM Store WHERE Key = @key` visits, as (Key, Data) pairs. */
  function Rows(t: Table, key: string): set<(string, string)>
  {
    set k | k in t && k == key :: (k, t[k])
  }

  /** The primary key leaves at most the one row of `key` to select. */
  lemma RowsOfKey(t: Table, key: string)
    ensures Rows(t, key) == if key in t then {(key, t[key])} else {}
  {
  }

  /** `SELECT COUNT(*) FROM Store WHERE Key = @key`. */
  function Count(t: Table, key: string): (n: nat)
    ensures n <= 1
    ensures n == 1 <==> key in t
  {
    RowsOfKey(t, key);
    |Rows(t, key)|
  }

  /** What `Get` answers for `key`: the Data of the row the selection reads,
      or "" when the selection is empty. */
  function Lookup(t: Table, key: string): (data: string)
    ensures Rows(t, key) == {} ==> data == ""
    ensures Rows(t, key) != {} ==> (key, data) in Rows(t, key)
  {
    RowsOfKey(t, key);
    if key in t then t[key] else ""
  }

  /** The table after upserting every pair of `items`, first to last. */
  function ApplyAll(t: Table, items: seq<(string, string)>): (r: Table)
    ensures t.Keys <= r.Keys
    ensures forall i :: 0 <= i < |items| ==> items[i].0 in r
    decreases |items|
  {
    if items == [] then t
    else
      var n := |items| - 1;
      Upsert(ApplyAll(t, items[..n]), items[n].0, items[n].1)
  }

  /** Position `i` holds the last pair of `items` whose key is `key`. */
  ghost predicate LastWrite(items: seq<(string, string)>, key: string, i: int)
  {
    0 <= i < |items| && items[i].0 == key &&
    forall j :: i < j < |items| ==> items[j].0 != key
  }

  /** The keys a batch writes. */
  ghost function BatchKeys(items: seq<(string, string)>): set<string>
  {
    set i | 0 <= i < |items| :: items[i].0
  }

  /** The existence test: the row count for `key` is not zero, which holds
      exactly of the stored keys. */
  predicate Stored(t: Table, key: string): (found: bool)
    ensures found <==> key in t
  {
    Count(t, key) != 0
  }

  /** The keys of a table that a LIKE pattern selects. */
  ghost function Matching(t: Table, pattern: string): (ks: set<string>)
    ensures ks <= t.Keys
  {
    set k | k in t && SqliteLike(pattern, k)
  }

  /** A sequence that lists each element once. */
  ghost predicate NoDuplicates(s: seq<string>)
  {
    forall i, j :: 0 <= i < j < |s| ==> s[i] != s[j]
  }

  // ---------------------------------------------------------------------
  // Single-record operations

  /** Put then Get yields the value just put; every other key reads as before. */
  lemma GetAfterPut(t: Table, key: string, data: string, other: string)
    ensures Lookup(Upsert(t, key, data), key) == data
    ensures other != key ==> Lookup(Upsert(t, key, data), other) == Lookup(t, other)
  {
  }

  /** A second Put to the same key replaces the first. */
  lemma PutOverwrites(t: Table, key: string, first: string, second: string)
    ensures Upsert(Upsert(t, key, first), key, second) == Upsert(t, key, second)
    ensures Lookup(Upsert(Upsert(t, key, first), key, second), key) == second
  {
  }

  /** After any Put the key exists; a Put to a present key leaves the set of
      existing keys as it was. */
  lemma ExistsAfterPut(t: Table, key: string, data: string, other: string)
    ensures Stored(Upsert(t, key, data), key)
    ensures key in t ==> (Stored(Upsert(t, key, data), other) <==> Stored(t, other))
  {
  }

  /** Delete removes exactly `key`; Delete of an absent key changes nothing. */
  lemma DeleteRemovesKey(t: Table, key: string, other: string)
    ensures !Stored(Remove(t, key), key)
    ensures Lookup(Remove(t, key), key) == ""
    ensures other != key ==> Lookup(Remove(t, key), other) == Lookup(t, other)
    ensures key !in t ==> Remove(t, key) == t
  {
  }

  // ---------------------------------------------------------------------
  // BatchPut

  /** A batch of one pair is a single Put. */
  lemma BatchOfOne(t: Table, key: string, data: string)
    ensures ApplyAll(t, [(key, data)]) == Upsert(t, key, data)
  {
  }

  /** Running two batches one after the other equals running their concatenation,
      so a batch is the same as its Puts issued in order. */
  lemma {:induction false} BatchConcat(t: Table, a: seq<(string, string)>, b: seq<(string, string)>)
    ensures ApplyAll(t, a + b) == ApplyAll(ApplyAll(t, a), b)
    decreases |b|
  {
    if b == [] {
      assert a + b == a;
    } else {
      var n := |b| - 1;
      assert (a + b)[..|a + b| - 1] == a + b[..n];
      assert (a + b)[|a + b| - 1] == b[n];
      BatchConcat(t, a, b[..n]);
    }
  }

  /** When `key` occurs in the batch, the last pair for it decides its data. */
  lemma {:induction false} BatchLastWins(t: Table, items: seq<(string, string)>, key: string, i: int)
    requires LastWrite(items, key, i)
    ensures key in ApplyAll(t, items) && ApplyAll(t, items)[key] == items[i].1
    decreases |items|
  {
    var n := |items| - 1;
    if i < n {
      assert LastWrite(items[..n], key, i);
      BatchLastWins(t, items[..n], key, i);
    }
  }

  /** A key the batch does not mention keeps its presence and its data. */
  lemma {:induction false} BatchUntouched(t: Table, items: seq<(string, string)>, key: string)
    requires forall j :: 0 <= j < |items| ==> items[j].0 != key
    ensures key in ApplyAll(t, items) <==> key in t
    ensures key in t ==> ApplyAll(t, items)[key] == t[key]
    decreases |items|
  {
    if items != [] {
      var n := |items| - 1;
      assert forall j :: 0 <= j < n ==> items[..n][j] == items[j];
      BatchUntouched(t, items[..n], key);
    }
  }

  /** The keys after a batch are the old keys together with the batch's keys. */
  lemma {:induction false} BatchDomain(t: Table, items: seq<(string, string)>)
    ensures ApplyAll(t, items).Keys == t.Keys + BatchKeys(items)
    decreases |items|
  {
    if items == [] {
      assert BatchKeys(items) == {};
    } else {
      var n := |items| - 1;
      BatchDomain(t, items[..n]);
      assert BatchKeys(items) == BatchKeys(items[..n]) + {items[n].0} by {
        forall k | k in BatchKeys(items)
          ensures k in BatchKeys(items[..n]) + {items[n].0}
        {
          var j :| 0 <= j < |items| && items[j].0 == k;
          if j < n {
            assert items[..n][j] == items[j];
          }
        }
        forall k | k in BatchKeys(items[..n])
          ensures k in BatchKeys(items)
        {
          var j :| 0 <= j < n && items[..n][j].0 == k;
          assert items[j] == items[..n][j];
        }
      }
    }
  }

  // ---------------------------------------------------------------------
  // KeysLike

  /** The pattern `%` selects every key. */
  lemma {:induction false} MatchingPercentIsAll(t: Table)
    ensures Matching(t, "%") == t.Keys
  {
    NulFreeUnchanged("%");
    forall k | k in t
      ensures SqliteLike("%", k)
    {
      PercentMatchesEverything(UpToNul(k));
    }
  }

  /** The keys selected by a prefix pattern `q%` (no `%` or NUL inside `q`) are
      those whose text up to the first NUL starts with `q`, up to `_` and ASCII case. */
  lemma {:induction false} MatchingPrefix(t: Table, q: string, key: string)
    requires '%' !in q && '\0' !in q
    ensures key in Matching(t, q + "%") <==>
      key in t && |q| <= |UpToNul(key)| && PositionMatch(q, UpToNul(key)[..|q|])
  {
    assert '\0' !in q + "%";
    NulFreeUnchanged(q + "%");
    PrefixPattern(q, UpToNul(key));
  }

  /** Over three keys of which the pattern selects the first two, it selects exactly those two. */
  lemma MatchingTwoOfThree(t: Table, pattern: string, a: string, b: string, c: string)
    requires t.Keys == {a, b, c}
    requires SqliteLike(pattern, a) && SqliteLike(pattern, b) && !SqliteLike(pattern, c)
    ensures Matching(t, pattern) == {a, b}
  {
    var m := Matching(t, pattern);
    assert a in m && b in m && c !in m;
    assert forall k :: k in m ==> k in t.Keys;
  }

  /** Over the keys `Test`, `Test2` and `Case`, the pattern `Test%` selects `Test` and `Test2`. */
  lemma MatchingTestPattern(t: Table)
    requires t.Keys == {"Test", "Test2", "Case"}
    ensures Matching(t, "Test%") == {"Test", "Test2"}
  {
    TestPatternExamples();
    MatchingTwoOfThree(t, "Test%", "Test", "Test2", "Case");
  }
}
