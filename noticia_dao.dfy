/** `NoticiaDao`: the `noticias` table. Its state is the rows in key order plus the next
    AUTOINCREMENT value; the queries read it and the three writes change it. */
module NoticiaStore {
  import opened Wrappers
  import opened Lists
  import opened Entities
  import KeyedTable

  datatype Table = Table(rows: seq<Noticia>, nextId: int)

  /** Keys strictly increase along the rows, no row is unassigned, and every key is
      below the next AUTOINCREMENT value. */
  ghost predicate TableInv(t: Table) {
    && KeyedTable.Ordered(t.rows, NoticiaId)
    && 1 <= t.nextId
    && forall n :: n in t.rows ==> n.id != UNASSIGNED && n.id < t.nextId
  }

  /** The table seen by key. */
  function Contents(t: Table): map<int, Noticia> {
    KeyedTable.AsMap(t.rows, NoticiaId)
  }

  /** The key a row is stored under: its own id, or the next AUTOINCREMENT value when it has none. */
  function KeyFor(t: Table, n: Noticia): int {
    if n.id == UNASSIGNED then t.nextId else n.id
  }

  /** The table holds `v` under key `k`. */
  ghost predicate StoredAt(t: Table, k: int, v: Noticia) {
    k in Contents(t) && Contents(t)[k] == v
  }

  /** One `INSERT OR REPLACE` of `n`. An explicit key at or above the counter moves it on. */
  function InsertOne(t: Table, n: Noticia): Table {
    var k := KeyFor(t, n);
    Table(KeyedTable.Upsert(t.rows, NoticiaId, n.(id := k)), if k < t.nextId then t.nextId else k + 1)
  }

  /** An insert stores `n` under its key, replacing any row there, and nothing else moves;
      an unassigned row gets a key no row had. */
  lemma InsertOneSpec(t: Table, n: Noticia)
    requires TableInv(t)
    ensures TableInv(InsertOne(t, n))
    ensures Contents(InsertOne(t, n)) == Contents(t)[KeyFor(t, n) := n.(id := KeyFor(t, n))]
    ensures n.id == UNASSIGNED ==> KeyFor(t, n) !in Contents(t) && InsertOne(t, n).nextId == t.nextId + 1
    ensures t.nextId <= InsertOne(t, n).nextId
  {
    var k := KeyFor(t, n);
    KeyedTable.UpsertSpec(t.rows, NoticiaId, n.(id := k));
    assert n.id == UNASSIGNED ==> k !in Contents(t);
  }

  /** Inserting an unassigned row keeps the invariant and moves the counter on by one. */
  lemma InsertOneCounter(t: Table, n: Noticia)
    requires TableInv(t) && n.id == UNASSIGNED
    ensures TableInv(InsertOne(t, n)) && InsertOne(t, n).nextId == t.nextId + 1
  {
    InsertOneSpec(t, n);
  }

  /** `insertarNoticias(batch)`: the rows go in one after another, so a later row of the
      batch replaces an earlier one with the same key. */
  function InsertAll(t: Table, batch: seq<Noticia>): Table
    decreases |batch|
  {
    if batch == [] then t else InsertAll(InsertOne(t, batch[0]), batch[1..])
  }

  /** Inserting the rest of a batch from position `i` on is inserting row `i`, then the
      rest after it. */
  lemma InsertAllStep(t: Table, batch: seq<Noticia>, i: nat)
    requires i < |batch|
    ensures InsertAll(t, batch[i..]) == InsertAll(InsertOne(t, batch[i]), batch[i + 1..])
  {
    assert batch[i..][0] == batch[i] && batch[i..][1..] == batch[i + 1..];
  }

  lemma {:induction false} InsertAllInv(t: Table, batch: seq<Noticia>)
    requires TableInv(t)
    ensures TableInv(InsertAll(t, batch)) && t.nextId <= InsertAll(t, batch).nextId
    decreases |batch|
  {
    if batch != [] {
      InsertOneSpec(t, batch[0]);
      InsertAllInv(InsertOne(t, batch[0]), batch[1..]);
    }
  }

  /** A stored row whose key no batch row names is still there, unchanged, after the batch. */
  lemma {:induction false} InsertAllUntouched(t: Table, batch: seq<Noticia>, k: int)
    requires TableInv(t) && k in Contents(t)
    requires forall n :: n in batch ==> n.id != k
    ensures k in Contents(InsertAll(t, batch)) && Contents(InsertAll(t, batch))[k] == Contents(t)[k]
    decreases |batch|
  {
    if batch != [] {
      InsertOneSpec(t, batch[0]);
      assert Contents(t)[k] in t.rows;
      assert KeyFor(t, batch[0]) != k;
      assert forall n :: n in batch[1..] ==> n in batch;
      InsertAllUntouched(InsertOne(t, batch[0]), batch[1..], k);
    }
  }

  /** A batch row with an explicit key ends up stored under that key, unless a later row of
      the batch has the same key: the last one wins. */
  lemma {:induction false} InsertAllLastWins(t: Table, batch: seq<Noticia>, i: nat)
    requires TableInv(t) && i < |batch| && batch[i].id != UNASSIGNED
    requires forall j :: i < j < |batch| ==> batch[j].id != batch[i].id
    ensures batch[i].id in Contents(InsertAll(t, batch))
    ensures Contents(InsertAll(t, batch))[batch[i].id] == batch[i]
    decreases |batch|
  {
    var t' := InsertOne(t, batch[0]);
    InsertOneSpec(t, batch[0]);
    if i == 0 {
      var k := batch[0].id;
      assert batch[0].(id := k) == batch[0];
      forall n | n in batch[1..] ensures n.id != k {
        var j :| 0 <= j < |batch[1..]| && batch[1..][j] == n;
        assert batch[j + 1] == n;
      }
      InsertAllUntouched(t', batch[1..], k);
    } else {
      forall j | i - 1 < j < |batch[1..]| ensures batch[1..][j].id != batch[1..][i - 1].id {
        assert batch[1..][j] == batch[j + 1];
      }
      InsertAllLastWins(t', batch[1..], i - 1);
    }
  }

  /** A batch of unassigned rows moves the counter on by the batch's length and grows
      the table by exactly that many rows. */
  lemma {:induction false} InsertAllGrows(t: Table, batch: seq<Noticia>)
    requires TableInv(t)
    requires forall n :: n in batch ==> n.id == UNASSIGNED
    ensures InsertAll(t, batch).nextId == t.nextId + |batch|
    ensures |InsertAll(t, batch).rows| == |t.rows| + |batch|
    decreases |batch|
  {
    if batch != [] {
      var t' := InsertOne(t, batch[0]);
      InsertOneSpec(t, batch[0]);
      KeyedTable.AsMapSize(t.rows, NoticiaId);
      KeyedTable.AsMapSize(t'.rows, NoticiaId);
      assert |Contents(t')| == |Contents(t)| + 1;
      assert forall n :: n in batch[1..] ==> n in batch;
      InsertAllGrows(t', batch[1..]);
    }
  }

  /** The first of a batch of unassigned rows is stored under the counter's value. */
  lemma FreshFirst(t: Table, batch: seq<Noticia>, k: int)
    requires TableInv(t) && 0 < |batch| && k == t.nextId
    requires forall n :: n in batch ==> n.id == UNASSIGNED
    ensures StoredAt(InsertAll(t, batch), k, batch[0].(id := k))
  {
    var t' := InsertOne(t, batch[0]);
    assert batch[0] in batch;
    InsertOneSpec(t, batch[0]);
    assert forall n :: n in batch[1..] ==> n in batch;
    assert k in Contents(t');
    InsertAllUntouched(t', batch[1..], k);
  }

  /** A batch of unassigned rows gets consecutive fresh keys from the counter on:
      row `i` is stored under `nextId + i`. */
  lemma {:induction false} InsertAllFresh(t: Table, batch: seq<Noticia>, i: nat, k: int)
    requires TableInv(t) && i < |batch| && k == t.nextId + i
    requires forall n :: n in batch ==> n.id == UNASSIGNED
    ensures StoredAt(InsertAll(t, batch), k, batch[i].(id := k))
    decreases |batch|
  {
    if i == 0 {
      FreshFirst(t, batch, k);
    } else {
      var t' := InsertOne(t, batch[0]);
      FreshStep(t, batch);
      assert batch[1..][i - 1] == batch[i];
      InsertAllFresh(t', batch[1..], i - 1, k);
    }
  }

  /** After the first of a batch of unassigned rows, the rest is a batch of unassigned
      rows inserted into a table whose counter moved on by one. */
  lemma FreshStep(t: Table, batch: seq<Noticia>)
    requires TableInv(t) && 0 < |batch|
    requires forall n :: n in batch ==> n.id == UNASSIGNED
    ensures TableInv(InsertOne(t, batch[0])) && InsertOne(t, batch[0]).nextId == t.nextId + 1
    ensures forall n :: n in batch[1..] ==> n.id == UNASSIGNED
    ensures InsertAll(t, batch) == InsertAll(InsertOne(t, batch[0]), batch[1..])
  {
    assert batch[0] in batch;
    InsertOneCounter(t, batch[0]);
    assert forall n :: n in batch[1..] ==> n in batch;
  }

  /** Inserting rows whose owners are users keeps the foreign key satisfied. */
  lemma {:induction false} InsertAllOwners(t: Table, batch: seq<Noticia>, users: set<int>)
    requires OwnersExist(t.rows, users) && OwnersExist(batch, users)
    ensures OwnersExist(InsertAll(t, batch).rows, users)
    decreases |batch|
  {
    if batch != [] {
      assert forall n :: n in batch[1..] ==> n in batch;
      InsertAllOwners(InsertOne(t, batch[0]), batch[1..], users);
    }
  }

  /** The `Update` annotation: `UPDATE noticias ... WHERE id = n.id`. */
  function Update(t: Table, n: Noticia): Table {
    Table(KeyedTable.Replace(t.rows, NoticiaId, n), t.nextId)
  }

  /** An update replaces the row with `n`'s key and nothing else; with no such row the
      table is unchanged. */
  lemma UpdateSpec(t: Table, n: Noticia)
    requires TableInv(t)
    ensures TableInv(Update(t, n))
    ensures Contents(Update(t, n)) == if n.id in Contents(t) then Contents(t)[n.id := n] else Contents(t)
    ensures n.id !in Contents(t) ==> Update(t, n) == t
  {
    KeyedTable.ReplaceSpec(t.rows, NoticiaId, n);
    if n.id !in Contents(t) {
      KeyedTable.ReplaceAbsent(t.rows, NoticiaId, n);
    }
    if n in KeyedTable.Replace(t.rows, NoticiaId, n) && n !in t.rows {
      KeyedTable.ReplaceKeyOnlyIfPresent(t.rows, NoticiaId, n);
    }
  }

  /** An update keeps the foreign key when the row it touches is owned by a user. */
  lemma UpdateOwners(t: Table, n: Noticia, users: set<int>)
    requires OwnersExist(t.rows, users)
    requires n.id in Contents(t) ==> n.owner in users
    ensures OwnersExist(Update(t, n).rows, users)
  {
    if n in KeyedTable.Replace(t.rows, NoticiaId, n) && n !in t.rows {
      KeyedTable.ReplaceKeyOnlyIfPresent(t.rows, NoticiaId, n);
      var y :| y in t.rows && y.id == n.id;
      KeyedTable.AsMapHas(t.rows, NoticiaId, y);
    }
  }

  /** The `Delete` annotation: `DELETE FROM noticias WHERE id = n.id`. */
  function Delete(t: Table, n: Noticia): Table {
    Table(KeyedTable.RemoveKey(t.rows, NoticiaId, n.id), t.nextId)
  }

  /** A delete removes the row with `n`'s key and nothing else; deleting an absent key
      changes nothing. */
  lemma DeleteSpec(t: Table, n: Noticia)
    requires TableInv(t)
    ensures TableInv(Delete(t, n))
    ensures Contents(Delete(t, n)) == Contents(t) - {n.id}
    ensures n.id !in Contents(t) ==> Delete(t, n) == t
  {
    KeyedTable.RemoveSpec(t.rows, NoticiaId, n.id);
    if n.id !in Contents(t) {
      KeyedTable.RemoveAbsent(t.rows, NoticiaId, n.id);
    }
  }

  predicate IsSaved(n: Noticia) {
    n.saved
  }

  function InCategoria(c: string): Noticia -> bool {
    (n: Noticia) => n.categoria == c
  }

  /** `SELECT COUNT(*) FROM noticias WHERE usuarioId = u` over a list of rows. */
  function CountOwned(rows: seq<Noticia>, u: int): (r: nat)
    ensures r == |Filter(rows, OwnedBy(u))|
    ensures r <= |rows|
    ensures r == 0 <==> forall n :: n in rows ==> n.owner != u
    ensures r == |rows| <==> forall n :: n in rows ==> n.owner == u
  {
    FilterFullIff(rows, OwnedBy(u));
    var c := Filter(rows, OwnedBy(u));
    assert c != [] ==> c[0] in c;
    |c|
  }

  /** A table has no key exactly when it has no row. */
  lemma EmptyIffNoRows(t: Table)
    ensures Contents(t) == map[] <==> t.rows == []
  {
    if t.rows != [] {
      KeyedTable.AsMapHas(t.rows, NoticiaId, t.rows[0]);
    }
  }

  class NoticiaDao {
    var rows: seq<Noticia>
    var nextId: int

    ghost predicate Valid()
      reads this
    {
      TableInv(State())
    }

    function State(): Table
      reads this
    {
      Table(rows, nextId)
    }

    /** A new, empty database. */
    constructor ()
      ensures Valid() && rows == [] && nextId == 1
    {
      rows := [];
      nextId := 1;
    }

    /** `getTodas` / `getTodasLive`: every row of every user, in key order. */
    function GetTodas(): (r: seq<Noticia>)
      reads this
      ensures r == rows
    {
      rows
    }

    /** `getGuardadas` / `getGuardadasLive`: the saved rows of every user, in key order. */
    function GetGuardadas(): (r: seq<Noticia>)
      reads this
      ensures forall n :: n in r <==> n in rows && n.saved
      ensures IsSubsequence(r, rows)
    {
      FilterIsSubsequence(rows, IsSaved);
      Filter(rows, IsSaved)
    }

    /** `getPorCategoria(c)`: the rows whose category is exactly `c`, in key order. */
    function GetPorCategoria(c: string): (r: seq<Noticia>)
      reads this
      ensures forall n :: n in r <==> n in rows && n.categoria == c
      ensures IsSubsequence(r, rows)
    {
      FilterIsSubsequence(rows, InCategoria(c));
      Filter(rows, InCategoria(c))
    }

    /** `contarNoticias`: the number of rows, which is the number of distinct keys. */
    function ContarNoticias(): (r: nat)
      reads this
      requires Valid()
      ensures r == |Contents(State())|
    {
      KeyedTable.AsMapSize(rows, NoticiaId);
      |rows|
    }

    /** `contarNoticiasPorUsuario(u)`: the rows owned by `u`; never more than all rows. */
    function ContarNoticiasPorUsuario(u: int): (r: nat)
      reads this
      ensures r == |Filter(rows, OwnedBy(u))|
      ensures r <= |rows|
      ensures Valid() ==> r <= ContarNoticias()
      ensures r == 0 <==> forall n :: n in rows ==> n.owner != u
    {
      CountOwned(rows, u)
    }

    /** `insertarNoticias(batch)` with `OnConflictStrategy.REPLACE`, in one transaction:
        a row whose owner is not a user violates the foreign key, the statement throws and
        nothing is written (`ok` false). */
    method InsertarNoticias(batch: seq<Noticia>, users: set<int>) returns (ok: bool)
      requires Valid()
      modifies this
      ensures Valid()
      ensures ok == OwnersExist(batch, users)
      ensures State() == if ok then InsertAll(old(State()), batch) else old(State())
    {
      ok := OwnersExist(batch, users);
      if !ok {
        return;
      }
      var i := 0;
      while i < |batch|
        invariant 0 <= i <= |batch|
        invariant Valid()
        invariant InsertAll(State(), batch[i..]) == InsertAll(old(State()), batch)
      {
        var n := batch[i];
        ghost var before := State();
        InsertOneSpec(before, n);
        InsertAllStep(before, batch, i);
        var after := InsertOne(State(), n);
        rows, nextId := after.rows, after.nextId;
        i := i + 1;
      }
    }

    /** `actualizarNoticia(n)`: when a row has `n`'s key and `n`'s owner is not a user, the
        foreign key fails and nothing changes (`ok` false). */
    method ActualizarNoticia(n: Noticia, users: set<int>) returns (ok: bool)
      requires Valid()
      modifies this
      ensures Valid()
      ensures ok == (n.id !in Contents(old(State())) || n.owner in users)
      ensures State() == if ok then Update(old(State()), n) else old(State())
    {
      ok := n.id !in KeyedTable.AsMap(rows, NoticiaId) || n.owner in users;
      if ok {
        UpdateSpec(State(), n);
        rows := KeyedTable.Replace(rows, NoticiaId, n);
      }
    }

    /** `eliminarNoticia(n)`: deletes by `n`'s key. */
    method EliminarNoticia(n: Noticia)
      requires Valid()
      modifies this
      ensures Valid()
      ensures State() == Delete(old(State()), n)
    {
      DeleteSpec(State(), n);
      rows := KeyedTable.RemoveKey(rows, NoticiaId, n.id);
    }
  }
}
