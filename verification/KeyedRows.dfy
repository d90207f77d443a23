/** A database table with a unique key, and INSERT of several rows in one statement. */
module KeyedRows {
  import opened Common

  /** All rows or none: a key already in the table, or twice among the rows, fails the statement. */
  function InsertAll<K, R, V>(table: map<K, V>, rows: seq<R>, key: R -> K, value: R -> V): Option<map<K, V>> {
    if rows == [] then Some(table)
    else
      var n := |rows| - 1;
      match InsertAll(table, rows[..n], key, value)
      case None => None
      case Some(t) => if key(rows[n]) in t then None else Some(t[key(rows[n]) := value(rows[n])])
  }

  /** The table that holds exactly these rows; a later row replaces an earlier one of the same key. */
  function Tabulate<K, R, V>(rows: seq<R>, key: R -> K, value: R -> V): map<K, V> {
    if rows == [] then map[]
    else
      var n := |rows| - 1;
      Tabulate(rows[..n], key, value)[key(rows[n]) := value(rows[n])]
  }

  ghost function KeysOf<K, R>(rows: seq<R>, key: R -> K): set<K> {
    set r | r in rows :: key(r)
  }

  ghost predicate DistinctKeys<K, R>(rows: seq<R>, key: R -> K) {
    forall i, j | 0 <= i < j < |rows| :: key(rows[i]) != key(rows[j])
  }

  lemma KeysSnoc<K, R>(rows: seq<R>, row: R, key: R -> K)
    ensures KeysOf(rows + [row], key) == KeysOf(rows, key) + {key(row)}
  {
    forall r | r in rows ensures key(r) in KeysOf(rows + [row], key) {
      assert r in rows + [row];
    }
    assert row in rows + [row];
  }

  lemma {:induction false} TabulateKeys<K, R, V>(rows: seq<R>, key: R -> K, value: R -> V)
    ensures Tabulate(rows, key, value).Keys == KeysOf(rows, key)
  {
    if rows != [] {
      var n := |rows| - 1;
      TabulateKeys(rows[..n], key, value);
      KeysSnoc(rows[..n], rows[n], key);
      assert rows == rows[..n] + [rows[n]];
    }
  }

  /** Two statements in a row are one statement with the rows of both. */
  lemma {:induction false} InsertAllConcat<K, R, V>(
    table: map<K, V>, a: seq<R>, b: seq<R>, key: R -> K, value: R -> V)
    ensures InsertAll(table, a + b, key, value)
      == match InsertAll(table, a, key, value)
         case None => None
         case Some(t) => InsertAll(t, b, key, value)
  {
    if b == [] {
      assert a + b == a;
    } else {
      var n := |b| - 1;
      InsertAllConcat(table, a, b[..n], key, value);
      assert (a + b)[..|a + b| - 1] == a + b[..n];
    }
  }

  /** What a successful insert leaves: the table it found, untouched, and the new rows. */
  lemma {:induction false} InsertAllAdds<K, R, V>(table: map<K, V>, rows: seq<R>, key: R -> K, value: R -> V)
    requires InsertAll(table, rows, key, value).Some?
    ensures InsertAll(table, rows, key, value).value == table + Tabulate(rows, key, value)
    ensures table.Keys !! KeysOf(rows, key)
  {
    if rows == [] {
      assert table + Tabulate(rows, key, value) == table;
    } else {
      var n := |rows| - 1;
      InsertAllAdds(table, rows[..n], key, value);
      TabulateKeys(rows[..n], key, value);
      KeysSnoc(rows[..n], rows[n], key);
      assert rows == rows[..n] + [rows[n]];
    }
  }

  /** When an insert succeeds. */
  lemma {:induction false} InsertAllSucceedsIff<K, R, V>(table: map<K, V>, rows: seq<R>, key: R -> K, value: R -> V)
    ensures InsertAll(table, rows, key, value).Some? <==>
      DistinctKeys(rows, key) && table.Keys !! KeysOf(rows, key)
  {
    if rows != [] {
      var n := |rows| - 1;
      var init, last := rows[..n], rows[n];
      InsertAllSucceedsIff(table, init, key, value);
      KeysSnoc(init, last, key);
      assert rows == init + [last];
      if InsertAll(table, init, key, value).Some? {
        InsertAllAdds(table, init, key, value);
        TabulateKeys(init, key, value);
        DistinctSnoc(init, last, key);
      } else {
        assert DistinctKeys(rows, key) ==> DistinctKeys(init, key);
      }
    }
  }

  lemma DistinctSnoc<K, R>(rows: seq<R>, row: R, key: R -> K)
    requires DistinctKeys(rows, key)
    ensures DistinctKeys(rows + [row], key) <==> key(row) !in KeysOf(rows, key)
  {
    var all := rows + [row];
    if key(row) !in KeysOf(rows, key) {
      forall i, j | 0 <= i < j < |all| ensures key(all[i]) != key(all[j]) {
        assert j == |rows| ==> rows[i] in rows;
      }
    } else {
      var i :| 0 <= i < |rows| && key(rows[i]) == key(row);
      assert key(all[i]) == key(all[|rows|]);
    }
  }

  /** Leftovers that the rows themselves account for cannot survive an insert: there were none. */
  lemma NoLeftovers<K, R, V>(table: map<K, V>, rows: seq<R>, key: R -> K, value: R -> V)
    requires InsertAll(table, rows, key, value).Some? && table.Keys <= KeysOf(rows, key)
    ensures table == map[] && InsertAll(table, rows, key, value).value == Tabulate(rows, key, value)
  {
    InsertAllAdds(table, rows, key, value);
    assert table.Keys == {};
    assert map[] + Tabulate(rows, key, value) == Tabulate(rows, key, value);
  }
}
