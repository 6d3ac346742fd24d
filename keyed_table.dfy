/** A table with an integer primary key, as SQLite stores it: the rows in ascending
    key order (the order `SELECT *` returns them in), seen abstractly as a map from
    key to row. The three writes Room issues are here once, for any row type:
    insert-or-replace, update by key and delete by key. */
module KeyedTable {
  import opened Lists

  /** Keys strictly increase along the rows; in particular no key occurs twice. */
  ghost predicate Ordered<T>(rows: seq<T>, key: T -> int) {
    forall i, j :: 0 <= i < j < |rows| ==> key(rows[i]) < key(rows[j])
  }

  /** The table as a map from primary key to row. */
  function AsMap<T(!new)>(rows: seq<T>, key: T -> int): (m: map<int, T>)
    ensures forall k :: k in m ==> m[k] in rows && key(m[k]) == k
  {
    if rows == [] then map[]
    else
      assert forall x :: x in rows[1..] ==> x in rows;
      AsMap(rows[1..], key)[key(rows[0]) := rows[0]]
  }

  /** Every row's key is a key of the map. */
  lemma {:induction false} AsMapHas<T(!new)>(rows: seq<T>, key: T -> int, x: T)
    requires x in rows
    ensures key(x) in AsMap(rows, key)
  {
    if x != rows[0] {
      AsMapHas(rows[1..], key, x);
    }
  }

  lemma OrderedTail<T>(rows: seq<T>, key: T -> int)
    requires rows != [] && Ordered(rows, key)
    ensures Ordered(rows[1..], key)
    ensures forall x :: x in rows[1..] ==> key(rows[0]) < key(x)
  {
    forall x | x in rows[1..] ensures key(rows[0]) < key(x) {
      var j :| 0 <= j < |rows[1..]| && rows[1..][j] == x;
      assert rows[j + 1] == x;
    }
  }

  lemma OrderedCons<T>(h: T, rest: seq<T>, key: T -> int)
    requires Ordered(rest, key)
    requires forall x :: x in rest ==> key(h) < key(x)
    ensures Ordered([h] + rest, key)
  {
    var s := [h] + rest;
    forall i, j | 0 <= i < j < |s| ensures key(s[i]) < key(s[j]) {
      assert s[j] == rest[j - 1];
      if i > 0 { assert s[i] == rest[i - 1]; } else { assert s[j] in rest; }
    }
  }

  /** In an ordered table every row is what the map holds under its key. */
  lemma {:induction false} AsMapHit<T(!new)>(rows: seq<T>, key: T -> int, x: T)
    requires Ordered(rows, key) && x in rows
    ensures key(x) in AsMap(rows, key) && AsMap(rows, key)[key(x)] == x
  {
    if x != rows[0] {
      OrderedTail(rows, key);
      assert x in rows[1..];
      AsMapHit(rows[1..], key, x);
    }
  }

  /** In an ordered table there is one row per key, so the row count is the key count. */
  lemma {:induction false} AsMapSize<T(!new)>(rows: seq<T>, key: T -> int)
    requires Ordered(rows, key)
    ensures |AsMap(rows, key)| == |rows|
  {
    if rows != [] {
      OrderedTail(rows, key);
      AsMapSize(rows[1..], key);
      var m := AsMap(rows[1..], key);
      assert key(rows[0]) !in m;
    }
  }

  /** `INSERT OR REPLACE`: `r` goes in at its key's place, displacing any row with the same key. */
  function Upsert<T(!new)>(rows: seq<T>, key: T -> int, r: T): (out: seq<T>)
    ensures r in out
    ensures forall x :: x in out ==> x in rows || x == r
    decreases |rows|
  {
    if rows == [] then [r]
    else if key(r) < key(rows[0]) then [r] + rows
    else if key(r) == key(rows[0]) then
      assert forall x :: x in rows[1..] ==> x in rows;
      [r] + rows[1..]
    else
      var rest := Upsert(rows[1..], key, r);
      assert forall x :: x in rows[1..] ==> x in rows;
      [rows[0]] + rest
  }

  /** An upsert keeps the keys in order. */
  lemma {:induction false} UpsertOrdered<T(!new)>(rows: seq<T>, key: T -> int, r: T)
    requires Ordered(rows, key)
    ensures Ordered(Upsert(rows, key, r), key)
    decreases |rows|
  {
    if rows != [] {
      OrderedTail(rows, key);
      var h, rest := rows[0], rows[1..];
      if key(r) < key(h) {
        OrderedCons(r, rows, key);
      } else if key(r) == key(h) {
        OrderedCons(r, rest, key);
      } else {
        UpsertOrdered(rest, key, r);
        OrderedCons(h, Upsert(rest, key, r), key);
      }
    }
  }

  /** The map of a table with one more row in front. */
  lemma AsMapCons<T(!new)>(h: T, u: seq<T>, key: T -> int)
    ensures AsMap([h] + u, key) == AsMap(u, key)[key(h) := h]
  {
    assert ([h] + u)[1..] == u;
  }

  /** After an upsert the map holds `r` under its key and every other key as before. */
  lemma {:induction false} UpsertMap<T(!new)>(rows: seq<T>, key: T -> int, r: T)
    ensures AsMap(Upsert(rows, key, r), key) == AsMap(rows, key)[key(r) := r]
    decreases |rows|
  {
    if rows != [] {
      var h, rest := rows[0], rows[1..];
      var m := AsMap(rest, key);
      if key(r) < key(h) {
        AsMapCons(r, rows, key);
      } else if key(r) == key(h) {
        AsMapCons(r, rest, key);
        MapOverwrite(m, key(r), h, r);
      } else {
        UpsertMap(rest, key, r);
        AsMapCons(h, Upsert(rest, key, r), key);
        MapUpdatesCommute(m, key(r), r, key(h), h);
      }
    }
  }

  /** After an upsert the table maps `key(r)` to `r` and every other key as before. */
  lemma UpsertSpec<T(!new)>(rows: seq<T>, key: T -> int, r: T)
    requires Ordered(rows, key)
    ensures Ordered(Upsert(rows, key, r), key)
    ensures AsMap(Upsert(rows, key, r), key) == AsMap(rows, key)[key(r) := r]
  {
    UpsertOrdered(rows, key, r);
    UpsertMap(rows, key, r);
  }

  lemma MapOverwrite<T>(m: map<int, T>, k: int, v1: T, v2: T)
    ensures m[k := v1][k := v2] == m[k := v2]
  {
  }

  lemma MapUpdatesCommute<T>(m: map<int, T>, k1: int, v1: T, k2: int, v2: T)
    requires k1 != k2
    ensures m[k1 := v1][k2 := v2] == m[k2 := v2][k1 := v1]
  {
  }

  lemma MapRemoveUpdated<T>(m: map<int, T>, k: int, k2: int, v: T)
    ensures k == k2 ==> m[k2 := v] - {k} == m - {k}
    ensures k != k2 ==> m[k2 := v] - {k} == (m - {k})[k2 := v]
  {
  }

  /** `UPDATE ... WHERE key = key(r)`: the row with `r`'s key becomes `r`. */
  function Replace<T(!new)>(rows: seq<T>, key: T -> int, r: T): (out: seq<T>)
    ensures |out| == |rows|
    ensures forall x :: x in out ==> x in rows || x == r
    decreases |rows|
  {
    if rows == [] then []
    else
      var rest := Replace(rows[1..], key, r);
      assert forall x :: x in rows[1..] ==> x in rows;
      (if key(rows[0]) == key(r) then [r] else [rows[0]]) + rest
  }

  /** An update whose key matches no row leaves the table as it was. */
  lemma {:induction false} ReplaceAbsent<T(!new)>(rows: seq<T>, key: T -> int, r: T)
    requires key(r) !in AsMap(rows, key)
    ensures Replace(rows, key, r) == rows
  {
    if rows != [] {
      assert key(rows[0]) != key(r);
      assert key(r) !in AsMap(rows[1..], key);
      ReplaceAbsent(rows[1..], key, r);
    }
  }

  /** An update keeps the keys in order. */
  lemma {:induction false} ReplaceOrdered<T(!new)>(rows: seq<T>, key: T -> int, r: T)
    requires Ordered(rows, key)
    ensures Ordered(Replace(rows, key, r), key)
  {
    if rows != [] {
      OrderedTail(rows, key);
      var h, rest := rows[0], rows[1..];
      ReplaceOrdered(rest, key, r);
      var u := Replace(rest, key, r);
      if key(h) == key(r) {
        assert key(r) !in AsMap(rest, key);
        ReplaceAbsent(rest, key, r);
        assert Replace(rows, key, r) == [r] + rest;
        OrderedCons(r, rest, key);
      } else {
        assert Replace(rows, key, r) == [h] + u;
        forall x | x in u ensures key(h) < key(x) {
          if x !in rest {
            ReplaceKeyOnlyIfPresent(rest, key, r);
            var y :| y in rest && key(y) == key(r);
          }
        }
        OrderedCons(h, u, key);
      }
    }
  }

  /** `r` can only appear in an update's result by replacing a row with its key. */
  lemma {:induction false} ReplaceKeyOnlyIfPresent<T(!new)>(rows: seq<T>, key: T -> int, r: T)
    requires r in Replace(rows, key, r)
    ensures exists x :: x in rows && key(x) == key(r)
  {
    if rows != [] {
      if key(rows[0]) != key(r) {
        var u := Replace(rows[1..], key, r);
        assert Replace(rows, key, r) == [rows[0]] + u;
        if r == rows[0] { } else {
          assert r in u;
          ReplaceKeyOnlyIfPresent(rows[1..], key, r);
          var x :| x in rows[1..] && key(x) == key(r);
          assert x in rows;
        }
      }
    }
  }

  /** Read through the map, an update replaces the row under `r`'s key, when there is
      one, and touches nothing else. */
  lemma {:induction false} ReplaceMap<T(!new)>(rows: seq<T>, key: T -> int, r: T)
    ensures AsMap(Replace(rows, key, r), key) ==
      if key(r) in AsMap(rows, key) then AsMap(rows, key)[key(r) := r] else AsMap(rows, key)
    decreases |rows|
  {
    if rows != [] {
      var h, rest := rows[0], rows[1..];
      var m := AsMap(rest, key);
      ReplaceMap(rest, key, r);
      var u := Replace(rest, key, r);
      if key(h) == key(r) {
        AsMapCons(r, u, key);
        MapOverwrite(m, key(r), r, r);
        MapOverwrite(m, key(r), h, r);
      } else {
        AsMapCons(h, u, key);
        MapUpdatesCommute(m, key(r), r, key(h), h);
      }
    }
  }

  /** An update replaces the row with `r`'s key, when there is one, and touches nothing else. */
  lemma ReplaceSpec<T(!new)>(rows: seq<T>, key: T -> int, r: T)
    requires Ordered(rows, key)
    ensures Ordered(Replace(rows, key, r), key)
    ensures AsMap(Replace(rows, key, r), key) ==
      if key(r) in AsMap(rows, key) then AsMap(rows, key)[key(r) := r] else AsMap(rows, key)
  {
    ReplaceOrdered(rows, key, r);
    ReplaceMap(rows, key, r);
  }

  /** `DELETE ... WHERE key = k`. */
  function RemoveKey<T(!new)>(rows: seq<T>, key: T -> int, k: int): (out: seq<T>)
    ensures |out| <= |rows|
    ensures forall x :: x in out ==> x in rows && key(x) != k
    decreases |rows|
  {
    if rows == [] then []
    else
      var rest := RemoveKey(rows[1..], key, k);
      assert forall x :: x in rows[1..] ==> x in rows;
      if key(rows[0]) == k then rest else [rows[0]] + rest
  }

  /** Deleting a key no row has leaves the table as it was. */
  lemma {:induction false} RemoveAbsent<T(!new)>(rows: seq<T>, key: T -> int, k: int)
    requires k !in AsMap(rows, key)
    ensures RemoveKey(rows, key, k) == rows
  {
    if rows != [] {
      assert k !in AsMap(rows[1..], key);
      RemoveAbsent(rows[1..], key, k);
    }
  }

  /** A delete keeps the keys in order. */
  lemma {:induction false} RemoveOrdered<T(!new)>(rows: seq<T>, key: T -> int, k: int)
    requires Ordered(rows, key)
    ensures Ordered(RemoveKey(rows, key, k), key)
  {
    if rows != [] {
      OrderedTail(rows, key);
      RemoveOrdered(rows[1..], key, k);
      var u := RemoveKey(rows[1..], key, k);
      if key(rows[0]) != k {
        forall x | x in u ensures key(rows[0]) < key(x) { assert x in rows[1..]; }
        OrderedCons(rows[0], u, key);
      }
    }
  }

  /** A delete drops key `k` from the map and keeps every other key's row. */
  lemma {:induction false} RemoveMap<T(!new)>(rows: seq<T>, key: T -> int, k: int)
    ensures AsMap(RemoveKey(rows, key, k), key) == AsMap(rows, key) - {k}
  {
    if rows != [] {
      var h, rest := rows[0], rows[1..];
      RemoveMap(rest, key, k);
      var u := RemoveKey(rest, key, k);
      var m := AsMap(rest, key);
      MapRemoveUpdated(m, k, key(h), h);
      if key(h) != k {
        AsMapCons(h, u, key);
      }
    }
  }

  /** A delete removes exactly the row with key `k`; every other key keeps its row. */
  lemma RemoveSpec<T(!new)>(rows: seq<T>, key: T -> int, k: int)
    requires Ordered(rows, key)
    ensures Ordered(RemoveKey(rows, key, k), key)
    ensures AsMap(RemoveKey(rows, key, k), key) == AsMap(rows, key) - {k}
  {
    RemoveOrdered(rows, key, k);
    RemoveMap(rows, key, k);
  }

  /** The map cut down to the rows satisfying `p`. */
  function Restrict<T>(m: map<int, T>, p: T -> bool): map<int, T> {
    map k | k in m && p(m[k]) :: m[k]
  }

  /** Keeping part of an ordered table keeps it ordered. */
  lemma {:induction false} FilterOrdered<T(!new)>(rows: seq<T>, key: T -> int, p: T -> bool)
    requires Ordered(rows, key)
    ensures Ordered(Filter(rows, p), key)
  {
    if rows != [] {
      OrderedTail(rows, key);
      FilterOrdered(rows[1..], key, p);
      var f := Filter(rows[1..], p);
      if p(rows[0]) {
        forall x | x in f ensures key(rows[0]) < key(x) { assert x in rows[1..]; }
        OrderedCons(rows[0], f, key);
      }
    }
  }

  lemma RestrictUpdate<T>(m: map<int, T>, p: T -> bool, k: int, v: T)
    requires k !in m
    ensures Restrict(m[k := v], p) == if p(v) then Restrict(m, p)[k := v] else Restrict(m, p)
  {
  }

  /** `DELETE ... WHERE NOT p`, seen through the map: exactly the rows satisfying `p` stay,
      each under its own key, and the order is kept. */
  lemma {:induction false} FilterSpec<T(!new)>(rows: seq<T>, key: T -> int, p: T -> bool)
    requires Ordered(rows, key)
    ensures Ordered(Filter(rows, p), key)
    ensures AsMap(Filter(rows, p), key) == Restrict(AsMap(rows, key), p)
  {
    FilterOrdered(rows, key, p);
    if rows != [] {
      OrderedTail(rows, key);
      var h, rest := rows[0], rows[1..];
      FilterSpec(rest, key, p);
      var f := Filter(rest, p);
      var m := AsMap(rest, key);
      assert AsMap(rows, key) == m[key(h) := h];
      assert key(h) !in m;
      RestrictUpdate(m, p, key(h), h);
      if p(h) {
        assert Filter(rows, p) == [h] + f;
        assert ([h] + f)[1..] == f;
      } else {
        assert Filter(rows, p) == f;
      }
    }
  }
}
