/** `LoginViewModel`: sign-in and registration against the user table, reported through
    a result value and a one-shot navigation flag. */
module LoginVm {
  import opened Wrappers
  import opened Lists
  import opened KotlinText
  import opened Entities
  import opened UsuarioStore
  import KeyedTable

  /** `LoginResult`. */
  datatype LoginResult = Success(usuario: Usuario) | Error(message: string)

  const CAMPOS_LOGIN: string := "Por favor, rellena todos los campos."
  const CREDENCIALES: string := "Credenciales incorrectas."
  const CAMPOS_REGISTRO: string := "Por favor, rellena todos los campos para registrarte."
  const EMAIL_REGISTRADO: string := "Este email ya está registrado"

  /** What `login(email, password)` reports on table `t`: a blank field is refused before
      the table is read; a credential match is reported as the user read back by its id,
      falling back to the match itself. */
  function LoginSpec(t: UserTable, email: string, password: string): LoginResult {
    if IsBlank(email) || IsBlank(password) then Error(CAMPOS_LOGIN)
    else match FirstWhere(t.rows, HasCredentials(email, password))
      case None => Error(CREDENCIALES)
      case Some(u) => Success(if u.id in Users(t) then Users(t)[u.id] else u)
  }

  /** Sign-in succeeds exactly when neither field is blank and some user has both the
      email and the password; the reported user is such a user (reading it back by id
      finds the same row). Otherwise the message says which check failed. */
  lemma LoginSpecIff(t: UserTable, email: string, password: string)
    requires UserTableInv(t)
    ensures LoginSpec(t, email, password).Success? <==>
      !IsBlank(email) && !IsBlank(password) &&
      exists u :: u in t.rows && u.email == email && u.password == password
    ensures LoginSpec(t, email, password).Success? ==>
      var u := LoginSpec(t, email, password).usuario;
      u in t.rows && u.email == email && u.password == password
    ensures IsBlank(email) || IsBlank(password) ==> LoginSpec(t, email, password) == Error(CAMPOS_LOGIN)
    ensures LoginSpec(t, email, password).Error? && !IsBlank(email) && !IsBlank(password) ==>
      LoginSpec(t, email, password) == Error(CREDENCIALES)
  {
    if !IsBlank(email) && !IsBlank(password) {
      var m := FirstWhere(t.rows, HasCredentials(email, password));
      if m.Some? {
        KeyedTable.AsMapHit(t.rows, UsuarioId, m.value);
      }
    }
  }

  /** The row a registration stores: an unassigned id and the three form fields. */
  function NuevoUsuario(nombre: string, email: string, password: string): Usuario {
    Usuario(UNASSIGNED, nombre, email, password)
  }

  /** What `insertarUsuario(nombre, email, password)` reports on table `t`, and the table
      afterwards. A blank field or a registered email is refused with the table unchanged;
      otherwise the user is stored under the next key and reported as stored. */
  function RegistroSpec(t: UserTable, nombre: string, email: string, password: string): (LoginResult, UserTable) {
    if IsBlank(nombre) || IsBlank(email) || IsBlank(password) then (Error(CAMPOS_REGISTRO), t)
    else if FirstWhere(t.rows, HasEmail(email)).Some? then (Error(EMAIL_REGISTRADO), t)
    else
      var k := t.nextId;
      (Success(Usuario(k, nombre, email, password)), AddUser(t, NuevoUsuario(nombre, email, password), k))
  }

  /** A registration either fails and changes nothing, or adds exactly one user, under a
      key no user had, holding the form fields; it fails exactly when a field is blank or
      the email is already taken. */
  lemma RegistroSpecAdds(t: UserTable, nombre: string, email: string, password: string)
    requires UserTableInv(t)
    ensures var (r, t') := RegistroSpec(t, nombre, email, password);
      && UserTableInv(t')
      && (r.Success? <==> !IsBlank(nombre) && !IsBlank(email) && !IsBlank(password) &&
                          forall x :: x in t.rows ==> x.email != email)
      && (r.Error? ==> t' == t)
      && (r.Success? ==>
            && r.usuario == Usuario(r.usuario.id, nombre, email, password)
            && r.usuario.id != UNASSIGNED && r.usuario.id !in Users(t)
            && Users(t') == Users(t)[r.usuario.id := r.usuario]
            && |t'.rows| == |t.rows| + 1)
  {
    var k := t.nextId;
    assert k !in Users(t);
    AddUserSpec(t, NuevoUsuario(nombre, email, password), k);
  }

  /** Right after registering, signing in with the same email and password succeeds and
      reports the user just stored. */
  lemma RegisterThenLogin(t: UserTable, nombre: string, email: string, password: string)
    requires UserTableInv(t)
    requires RegistroSpec(t, nombre, email, password).0.Success?
    ensures var (r, t') := RegistroSpec(t, nombre, email, password);
      LoginSpec(t', email, password) == r
  {
    var (r, t') := RegistroSpec(t, nombre, email, password);
    var u := r.usuario;
    RegistroSpecAdds(t, nombre, email, password);
    KeyedTable.UpsertSpec(t.rows, UsuarioId, NuevoUsuario(nombre, email, password).(id := u.id));
    assert u in t'.rows by {
      assert u == NuevoUsuario(nombre, email, password).(id := u.id);
    }
    var m := FirstWhere(t'.rows, HasCredentials(email, password));
    assert m.Some? by {
      assert HasCredentials(email, password)(u);
    }
    assert m.value == u by {
      assert m.value in t'.rows;
      assert m.value in t.rows || m.value == NuevoUsuario(nombre, email, password).(id := u.id);
    }
    KeyedTable.AsMapHit(t'.rows, UsuarioId, u);
  }

  /** A second registration with the same email is refused. */
  lemma RegisterTwiceFails(t: UserTable, nombre: string, email: string, password: string,
                           nombre2: string, password2: string)
    requires UserTableInv(t)
    requires RegistroSpec(t, nombre, email, password).0.Success?
    ensures var t' := RegistroSpec(t, nombre, email, password).1;
      RegistroSpec(t', nombre2, email, password2).0.Error? &&
      (!IsBlank(nombre2) && !IsBlank(password2) ==> RegistroSpec(t', nombre2, email, password2).0 == Error(EMAIL_REGISTRADO))
  {
    var (r, t') := RegistroSpec(t, nombre, email, password);
    RegistroSpecAdds(t, nombre, email, password);
    KeyedTable.UpsertSpec(t.rows, UsuarioId, NuevoUsuario(nombre, email, password).(id := r.usuario.id));
    assert r.usuario in t'.rows by {
      assert r.usuario == NuevoUsuario(nombre, email, password).(id := r.usuario.id);
    }
    assert HasEmail(email)(r.usuario);
  }

  class LoginViewModel {
    const usuarioDao: UsuarioDao
    /** `_loginResult`; `None` until the first result is posted. */
    var loginResult: Option<LoginResult>
    /** `_navigateToInicio`; `None` until first set. */
    var navigateToInicio: Option<bool>

    constructor (dao: UsuarioDao)
      ensures usuarioDao == dao && loginResult == None && navigateToInicio == None
    {
      usuarioDao := dao;
      loginResult := None;
      navigateToInicio := None;
    }

    /** `login(email, password)`: posts the result of `LoginSpec` and asks to navigate
        only on success; the table is only read. */
    method Login(email: string, password: string)
      requires usuarioDao.Valid()
      modifies this
      ensures loginResult == Some(LoginSpec(usuarioDao.State(), email, password))
      ensures navigateToInicio == if loginResult.value.Success? then Some(true) else old(navigateToInicio)
    {
      if IsBlank(email) || IsBlank(password) {
        loginResult := Some(Error(CAMPOS_LOGIN));
        return;
      }
      var usuario := usuarioDao.Login(email, password);
      if usuario.Some? {
        var usuarioCompleto := usuarioDao.GetById(usuario.value.id);
        loginResult := Some(Success(usuarioCompleto.GetOr(usuario.value)));
        navigateToInicio := Some(true);
      } else {
        loginResult := Some(Error(CREDENCIALES));
      }
    }

    /** `insertarUsuario(nombre, email, password)`: posts the result of `RegistroSpec`,
        leaves the table as it says and asks to navigate only on success. The read-back
        by id after the insert always finds the new user. */
    method InsertarUsuario(nombre: string, email: string, password: string)
      requires usuarioDao.Valid()
      modifies this, usuarioDao
      ensures usuarioDao.Valid()
      ensures var (r, t') := RegistroSpec(old(usuarioDao.State()), nombre, email, password);
        loginResult == Some(r) && usuarioDao.State() == t' &&
        navigateToInicio == if r.Success? then Some(true) else old(navigateToInicio)
    {
      if IsBlank(nombre) || IsBlank(email) || IsBlank(password) {
        loginResult := Some(Error(CAMPOS_REGISTRO));
        return;
      }
      var existente := usuarioDao.GetByEmail(email);
      if existente.Some? {
        loginResult := Some(Error(EMAIL_REGISTRADO));
        return;
      }
      var nuevoUsuario := NuevoUsuario(nombre, email, password);
      var userId := usuarioDao.Insertar(nuevoUsuario);
      if userId.None? {
        assert false;
      } else {
        var usuarioInsertado := usuarioDao.GetById(userId.value);
        if usuarioInsertado.None? {
          assert false;
        } else {
          loginResult := Some(Success(usuarioInsertado.value));
          navigateToInicio := Some(true);
        }
      }
    }

    /** `resetNavigateToInicio`: the navigation request is consumed. */
    method ResetNavigateToInicio()
      modifies this
      ensures navigateToInicio == Some(false) && loginResult == old(loginResult)
    {
      navigateToInicio := Some(false);
    }
  }
}
