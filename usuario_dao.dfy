/** `UsuarioDao`: the `usuarios` table, kept like `noticias` as rows in key order plus
    the next AUTOINCREMENT value. The table enforces no uniqueness on `email`. */
module UsuarioStore {
  import opened Wrappers
  import opened Lists
  import opened Entities
  import KeyedTable

  datatype UserTable = UserTable(rows: seq<Usuario>, nextId: int)

  ghost predicate UserTableInv(t: UserTable) {
    && KeyedTable.Ordered(t.rows, UsuarioId)
    && 1 <= t.nextId
    && forall u :: u in t.rows ==> u.id != UNASSIGNED && u.id < t.nextId
  }

  /** The table seen by key. */
  function Users(t: UserTable): map<int, Usuario> {
    KeyedTable.AsMap(t.rows, UsuarioId)
  }

  /** Stores `u` under the free key `k`, moving the counter past `k`. */
  function AddUser(t: UserTable, u: Usuario, k: int): UserTable {
    UserTable(KeyedTable.Upsert(t.rows, UsuarioId, u.(id := k)), if k < t.nextId then t.nextId else k + 1)
  }

  lemma AddUserSpec(t: UserTable, u: Usuario, k: int)
    requires UserTableInv(t) && k != UNASSIGNED && k !in Users(t)
    ensures UserTableInv(AddUser(t, u, k))
    ensures Users(AddUser(t, u, k)) == Users(t)[k := u.(id := k)]
    ensures |AddUser(t, u, k).rows| == |t.rows| + 1
  {
    var rows' := KeyedTable.Upsert(t.rows, UsuarioId, u.(id := k));
    KeyedTable.UpsertSpec(t.rows, UsuarioId, u.(id := k));
    KeyedTable.AsMapSize(t.rows, UsuarioId);
    KeyedTable.AsMapSize(rows', UsuarioId);
  }

  /** The `Insert` annotation with the default `ABORT` strategy: an unassigned user gets the next key;
      an explicit key that is already taken makes the insert throw (`None`). The result
      carries the new table and the row id `insertar` returns. */
  function InsertUser(t: UserTable, u: Usuario): Option<(UserTable, int)> {
    var k := if u.id == UNASSIGNED then t.nextId else u.id;
    if k in Users(t) then None else Some((AddUser(t, u, k), k))
  }

  /** An insert fails only on a taken explicit key; otherwise it adds exactly one user,
      under a key no user had, and returns that key. */
  lemma InsertUserSpec(t: UserTable, u: Usuario)
    requires UserTableInv(t)
    ensures InsertUser(t, u).None? <==> u.id != UNASSIGNED && u.id in Users(t)
    ensures InsertUser(t, u).Some? ==>
      var (t', k) := InsertUser(t, u).value;
      && UserTableInv(t')
      && k !in Users(t)
      && k == (if u.id == UNASSIGNED then t.nextId else u.id)
      && Users(t') == Users(t)[k := u.(id := k)]
      && |t'.rows| == |t.rows| + 1
  {
    var k := if u.id == UNASSIGNED then t.nextId else u.id;
    assert u.id == UNASSIGNED ==> k !in Users(t);
    if k !in Users(t) {
      AddUserSpec(t, u, k);
    }
  }

  function HasId(id: int): Usuario -> bool {
    (u: Usuario) => u.id == id
  }

  function HasEmail(email: string): Usuario -> bool {
    (u: Usuario) => u.email == email
  }

  function HasCredentials(email: string, password: string): Usuario -> bool {
    (u: Usuario) => u.email == email && u.password == password
  }

  class UsuarioDao {
    var rows: seq<Usuario>
    var nextId: int

    ghost predicate Valid()
      reads this
    {
      UserTableInv(State())
    }

    function State(): UserTable
      reads this
    {
      UserTable(rows, nextId)
    }

    /** The user ids, which the foreign key of `noticias` refers to. */
    function Ids(): set<int>
      reads this
    {
      Users(State()).Keys
    }

    /** A new, empty database. */
    constructor ()
      ensures Valid() && rows == [] && nextId == 1
    {
      rows := [];
      nextId := 1;
    }

    /** `insertar(u)`: stores `u` and returns its row id; `None` when an explicit id is
        already taken (the insert throws) and then nothing changes. */
    method Insertar(u: Usuario) returns (r: Option<int>)
      requires Valid()
      modifies this
      ensures Valid()
      ensures r.None? <==> u.id != UNASSIGNED && u.id in Users(old(State()))
      ensures r.Some? ==> r.value !in Users(old(State())) && Users(State()) == Users(old(State()))[r.value := u.(id := r.value)]
      ensures r.Some? && u.id == UNASSIGNED ==> r.value == old(nextId)
      ensures InsertUser(old(State()), u) == if r.Some? then Some((State(), r.value)) else None
    {
      InsertUserSpec(State(), u);
      var outcome := InsertUser(State(), u);
      if outcome.None? {
        return None;
      }
      var (t', k) := outcome.value;
      rows, nextId := t'.rows, t'.nextId;
      r := Some(k);
    }

    /** `login(email, password)`: a user whose email and password both equal the given
        ones, or null when there is none. */
    function Login(email: string, password: string): (r: Option<Usuario>)
      reads this
      ensures r.Some? ==> r.value in rows && r.value.email == email && r.value.password == password
      ensures r.None? <==> forall x :: x in rows ==> !(x.email == email && x.password == password)
    {
      FirstWhere(rows, HasCredentials(email, password))
    }

    /** `getByEmail(email)`: a user with that email, or null. */
    function GetByEmail(email: string): (r: Option<Usuario>)
      reads this
      ensures r.Some? ==> r.value in rows && r.value.email == email
      ensures r.None? <==> forall x :: x in rows ==> x.email != email
    {
      FirstWhere(rows, HasEmail(email))
    }

    /** `getById(id)`: the user stored under `id`, or null when there is none. */
    function GetById(id: int): (r: Option<Usuario>)
      reads this
      requires Valid()
      ensures r == if id in Users(State()) then Some(Users(State())[id]) else None
    {
      var r := FirstWhere(rows, HasId(id));
      assert r.Some? ==> id in Users(State()) && Users(State())[id] == r.value by {
        if r.Some? {
          KeyedTable.AsMapHit(rows, UsuarioId, r.value);
        }
      }
      r
    }

    /** `obtenerPrimerUsuario` (`LIMIT 1`): null exactly when the table is empty, otherwise
        the user with the smallest key. */
    function ObtenerPrimerUsuario(): (r: Option<Usuario>)
      reads this
      ensures r.None? <==> rows == []
      ensures r.Some? ==> r.value in rows
      ensures r.Some? && Valid() ==> forall x :: x in rows ==> r.value.id <= x.id
    {
      if rows == [] then None else Some(rows[0])
    }
  }
}
