/** The registration screen: the checks its button runs before asking the view-model to
    register, the email pattern among them, and the session it saves afterwards. */
module Registro {
  import opened Wrappers
  import opened KotlinText
  import opened Entities
  import P = Preferences
  import UsuarioStore
  import LoginVm

  const MSG_CAMPOS: string := "Por favor, rellena todos los campos."
  const MSG_NOMBRE: string := "El nombre debe tener al menos 6 caracteres."
  const MSG_EMAIL: string := "Introduce un correo electrónico válido."
  const MSG_PASSWORD: string := "La contraseña debe tener al menos 6 caracteres."

  /** The shortest name and password accepted, in UTF-16 units. */
  const MIN_LENGTH: nat := 6

  // ---------------------------------------------------------------------------------
  // The email pattern `[a-zA-Z0-9._-]+@[a-z]+\.+[a-z]+`, matched against the whole text.

  /** `[a-zA-Z0-9._-]`. */
  predicate LocalChar(c: char) {
    ('a' <= c <= 'z') || ('A' <= c <= 'Z') || ('0' <= c <= '9') || c == '.' || c == '_' || c == '-'
  }

  /** `[a-z]`. */
  predicate Lower(c: char) {
    'a' <= c <= 'z'
  }

  predicate IsDot(c: char) {
    c == '.'
  }

  /** Every character of `s[lo..hi]` satisfies `p`. */
  predicate AllIn(s: string, lo: int, hi: int, p: char -> bool)
    requires 0 <= lo <= hi <= |s|
  {
    forall m :: lo <= m < hi ==> p(s[m])
  }

  /** The pattern read as the concatenation it is: a non-empty local part, "@", and a
      domain; the domain is a non-empty run of lowercase letters and a tail; the tail is
      a non-empty run of dots and a non-empty run of lowercase letters ending the text. */
  ghost predicate MatchesEmail(s: string) {
    exists i :: 0 < i < |s| && AllIn(s, 0, i, LocalChar) && s[i] == '@' && MatchesDomain(s[i + 1..])
  }

  ghost predicate MatchesDomain(d: string) {
    exists j :: 0 < j <= |d| && AllIn(d, 0, j, Lower) && MatchesTail(d[j..])
  }

  ghost predicate MatchesTail(e: string) {
    exists k :: 0 < k < |e| && AllIn(e, 0, k, IsDot) && AllIn(e, k, |e|, Lower)
  }

  /** The length of the longest prefix of `s` whose characters all satisfy `p`. */
  function Span(s: string, p: char -> bool): (n: nat)
    ensures n <= |s|
    ensures forall m :: 0 <= m < n ==> p(s[m])
    ensures n == |s| || !p(s[n])
  {
    if s != [] && p(s[0]) then
      var n := 1 + Span(s[1..], p);
      assert forall m :: 1 <= m < n ==> s[m] == s[1..][m - 1];
      n
    else 0
  }

  /** A prefix of exactly `n` characters satisfying `p`, followed by one that does not,
      is the span. */
  lemma {:induction false} SpanExact(s: string, p: char -> bool, n: nat)
    requires n <= |s|
    requires forall m :: 0 <= m < n ==> p(s[m])
    requires n == |s| || !p(s[n])
    ensures Span(s, p) == n
  {
    if n > 0 {
      SpanExact(s[1..], p, n - 1);
    }
  }

  /** The recogniser: each run of the pattern is taken greedily, which is exact here
      because no character belongs to two neighbouring runs. */
  function EmailValido(s: string): bool {
    var a := Span(s, LocalChar);
    a > 0 && a < |s| && s[a] == '@' && DomainValido(s[a + 1..])
  }

  function DomainValido(d: string): bool {
    var b := Span(d, Lower);
    b > 0 && TailValido(d[b..])
  }

  function TailValido(e: string): bool {
    var c := Span(e, IsDot);
    c > 0 && c < |e| && Span(e[c..], Lower) == |e| - c
  }

  lemma TailValidoIff(e: string)
    ensures TailValido(e) <==> MatchesTail(e)
  {
    var c := Span(e, IsDot);
    if TailValido(e) {
      var f := e[c..];
      assert forall m :: c <= m < |e| ==> e[m] == f[m - c];
      assert AllIn(e, 0, c, IsDot) && AllIn(e, c, |e|, Lower);
    }
    if MatchesTail(e) {
      var k :| 0 < k < |e| && AllIn(e, 0, k, IsDot) && AllIn(e, k, |e|, Lower);
      SpanExact(e, IsDot, k);
      var f := e[k..];
      assert forall m :: 0 <= m < |f| ==> f[m] == e[m + k];
      SpanExact(f, Lower, |f|);
    }
  }

  lemma DomainValidoIff(d: string)
    ensures DomainValido(d) <==> MatchesDomain(d)
  {
    var b := Span(d, Lower);
    TailValidoIff(d[b..]);
    if DomainValido(d) {
      assert AllIn(d, 0, b, Lower);
    }
    if MatchesDomain(d) {
      var j :| 0 < j <= |d| && AllIn(d, 0, j, Lower) && MatchesTail(d[j..]);
      if j < |d| {
        assert d[j] == d[j..][0];
        assert !Lower(d[j]);
      }
      SpanExact(d, Lower, j);
    }
  }

  /** The recogniser accepts exactly the texts the pattern matches. */
  lemma EmailValidoIff(s: string)
    ensures EmailValido(s) <==> MatchesEmail(s)
  {
    if EmailValido(s) {
      EmailValidoMatches(s);
    }
    if MatchesEmail(s) {
      MatchesEmailValido(s);
    }
  }

  lemma EmailValidoMatches(s: string)
    requires EmailValido(s)
    ensures MatchesEmail(s)
  {
    var a := Span(s, LocalChar);
    DomainValidoIff(s[a + 1..]);
    assert AllIn(s, 0, a, LocalChar);
    assert 0 < a < |s| && s[a] == '@' && MatchesDomain(s[a + 1..]);
  }

  lemma MatchesEmailValido(s: string)
    requires MatchesEmail(s)
    ensures EmailValido(s)
  {
    var i :| 0 < i < |s| && AllIn(s, 0, i, LocalChar) && s[i] == '@' && MatchesDomain(s[i + 1..]);
    SpanExact(s, LocalChar, i);
    DomainValidoIff(s[i + 1..]);
  }

  /** A valid email has one "@", and after it only lowercase letters and dots, so an
      uppercase letter in the domain is always refused. */
  lemma EmailDomainLowercase(s: string)
    requires EmailValido(s)
    ensures exists i :: (0 < i < |s| && s[i] == '@' &&
      (forall m :: 0 <= m < i ==> s[m] != '@') &&
      (forall m :: i < m < |s| ==> Lower(s[m]) || s[m] == '.'))
  {
    var a := Span(s, LocalChar);
    var d := s[a + 1..];
    var b := Span(d, Lower);
    var e := d[b..];
    var c := Span(e, IsDot);
    var f := e[c..];
    forall m | 0 <= m < a ensures s[m] != '@' {
      assert LocalChar(s[m]);
    }
    forall m | a < m < |s| ensures Lower(s[m]) || s[m] == '.' {
      var md := m - a - 1;
      assert s[m] == d[md];
      if md < b {
        assert Lower(d[md]);
      } else if md < b + c {
        assert d[md] == e[md - b];
      } else {
        assert d[md] == e[md - b] == f[md - b - c];
      }
    }
    assert 0 < a < |s| && s[a] == '@';
  }

  /** A valid address: a local part with a dot, one label, one dot, one label. */
  lemma AcceptsPlainAddress()
    ensures EmailValido("a.b@xy.es")
  {
    var s := "a.b@xy.es";
    SpanExact(s, LocalChar, 3);
    assert s[4..] == "xy.es";
    AcceptsPlainDomain();
  }

  lemma AcceptsPlainDomain()
    ensures DomainValido("xy.es")
  {
    SpanExact("xy.es", Lower, 2);
    assert "xy.es"[2..] == ".es";
    SpanExact(".es", IsDot, 1);
    assert ".es"[1..] == "es";
    SpanExact("es", Lower, 2);
  }

  /** After the dots the text must end in letters: a second dot-separated label is refused. */
  lemma RejectsSecondLabel()
    ensures !EmailValido("x@a.b.c")
  {
    var s := "x@a.b.c";
    SpanExact(s, LocalChar, 1);
    assert s[2..] == "a.b.c";
    SpanExact("a.b.c", Lower, 1);
    assert "a.b.c"[1..] == ".b.c";
    SpanExact(".b.c", IsDot, 1);
    assert ".b.c"[1..] == "b.c";
    SpanExact("b.c", Lower, 1);
  }

  /** The domain must be lowercase. */
  lemma RejectsUppercaseDomain()
    ensures !EmailValido("ana@Mail.com")
  {
    var s := "ana@Mail.com";
    SpanExact(s, LocalChar, 3);
    assert s[4..] == "Mail.com";
    SpanExact("Mail.com", Lower, 0);
  }

  /** A domain without a dot is refused. */
  lemma RejectsDotlessDomain()
    ensures !EmailValido("ana@mail")
  {
    var s := "ana@mail";
    SpanExact(s, LocalChar, 3);
    assert s[4..] == "mail";
    SpanExact("mail", Lower, 4);
    assert "mail"[4..] == "";
  }

  // ---------------------------------------------------------------------------------
  // The checks of the register button

  /** The checks in the order the button runs them: `None` when all pass, otherwise the
      message of the first one that fails. */
  function ValidarRegistro(nombre: string, email: string, password: string): Option<string> {
    if IsBlank(nombre) || IsBlank(email) || IsBlank(password) then Some(MSG_CAMPOS)
    else if Utf16Length(nombre) < MIN_LENGTH then Some(MSG_NOMBRE)
    else if !EmailValido(email) then Some(MSG_EMAIL)
    else if Utf16Length(password) < MIN_LENGTH then Some(MSG_PASSWORD)
    else None
  }

  /** Each message is reported exactly when its own check fails and every earlier one
      passes; the form is accepted exactly when every check passes. */
  lemma ValidarRegistroOrder(nombre: string, email: string, password: string)
    ensures var blank := IsBlank(nombre) || IsBlank(email) || IsBlank(password);
      && (ValidarRegistro(nombre, email, password) == Some(MSG_CAMPOS) <==> blank)
      && (ValidarRegistro(nombre, email, password) == Some(MSG_NOMBRE) <==>
            !blank && Utf16Length(nombre) < MIN_LENGTH)
      && (ValidarRegistro(nombre, email, password) == Some(MSG_EMAIL) <==>
            !blank && Utf16Length(nombre) >= MIN_LENGTH && !MatchesEmail(email))
      && (ValidarRegistro(nombre, email, password) == Some(MSG_PASSWORD) <==>
            !blank && Utf16Length(nombre) >= MIN_LENGTH && MatchesEmail(email) && Utf16Length(password) < MIN_LENGTH)
      && (ValidarRegistro(nombre, email, password) == None <==>
            !blank && Utf16Length(nombre) >= MIN_LENGTH && MatchesEmail(email) && Utf16Length(password) >= MIN_LENGTH)
  {
    EmailValidoIff(email);
  }

  /** A form the button accepts never meets the view-model's own blank-field refusal:
      registering it fails only on a taken email. */
  lemma AcceptedFormSkipsBlankCheck(t: UsuarioStore.UserTable, nombre: string, email: string, password: string)
    requires UsuarioStore.UserTableInv(t)
    requires ValidarRegistro(nombre, email, password) == None
    ensures LoginVm.RegistroSpec(t, nombre, email, password).0.Success? ||
            LoginVm.RegistroSpec(t, nombre, email, password).0 == LoginVm.Error(LoginVm.EMAIL_REGISTRADO)
    ensures LoginVm.RegistroSpec(t, nombre, email, password).0.Success? <==>
      forall x :: x in t.rows ==> x.email != email
  {
    LoginVm.RegistroSpecAdds(t, nombre, email, password);
  }

  // ---------------------------------------------------------------------------------
  // The session written after a registration

  /** The store after `guardarSesion(usuario)`. */
  function SesionGuardada(st: P.Store, u: Usuario): P.Store {
    P.WithString(P.WithInt(P.WithString(st, P.SESION_USUARIO, P.KEY_EMAIL, u.email),
                           P.SESION_USUARIO, P.KEY_USER_ID, u.id),
                 P.SESION_USUARIO, P.KEY_NOMBRE, u.nombre)
  }

  /** The saved session reads back as the user's email, id and name, and no other key
      or file changes. */
  lemma SesionGuardadaReadBack(st: P.Store, u: Usuario, name: string, key: string, default: int)
    ensures var st' := SesionGuardada(st, u);
      && P.StringAt(st', P.SESION_USUARIO, P.KEY_EMAIL) == Some(u.email)
      && P.IntAt(st', P.SESION_USUARIO, P.KEY_USER_ID, default) == u.id
      && P.StringAt(st', P.SESION_USUARIO, P.KEY_NOMBRE) == Some(u.nombre)
    ensures name != P.SESION_USUARIO || (key != P.KEY_EMAIL && key != P.KEY_USER_ID && key != P.KEY_NOMBRE) ==>
      P.StringAt(SesionGuardada(st, u), name, key) == P.StringAt(st, name, key) &&
      P.IntAt(SesionGuardada(st, u), name, key, default) == P.IntAt(st, name, key, default)
  {
  }

  class RegistroFragment {
    const viewModel: LoginVm.LoginViewModel
    const prefs: P.SharedPreferences
    /** The last message shown in a toast, if any. */
    var toast: Option<string>

    constructor (vm: LoginVm.LoginViewModel, sp: P.SharedPreferences)
      ensures viewModel == vm && prefs == sp && toast == None
    {
      viewModel := vm;
      prefs := sp;
      toast := None;
    }

    /** The register button: a failing check is shown and nothing else happens; when all
        pass, the view-model registers the form. */
    method OnRegistrar(nombre: string, email: string, password: string)
      requires viewModel.usuarioDao.Valid()
      modifies this, viewModel, viewModel.usuarioDao
      ensures viewModel.usuarioDao.Valid()
      ensures var check := ValidarRegistro(nombre, email, password);
        if check.Some? then
          toast == check && unchanged(viewModel, viewModel.usuarioDao)
        else
          var (r, t') := LoginVm.RegistroSpec(old(viewModel.usuarioDao.State()), nombre, email, password);
          && toast == old(toast) && viewModel.loginResult == Some(r) && viewModel.usuarioDao.State() == t'
          && viewModel.navigateToInicio == if r.Success? then Some(true) else old(viewModel.navigateToInicio)
    {
      var check := ValidarRegistro(nombre, email, password);
      if check.Some? {
        toast := check;
        return;
      }
      viewModel.InsertarUsuario(nombre, email, password);
    }

    /** `guardarSesion(usuario)`: the email, id and name go to "SesionUsuario". */
    method GuardarSesion(usuario: Usuario)
      modifies prefs
      ensures prefs.files == SesionGuardada(old(prefs.files), usuario)
    {
      prefs.PutString(P.SESION_USUARIO, P.KEY_EMAIL, usuario.email);
      prefs.PutInt(P.SESION_USUARIO, P.KEY_USER_ID, usuario.id);
      prefs.PutString(P.SESION_USUARIO, P.KEY_NOMBRE, usuario.nombre);
    }

    /** The observer of `loginResult`: a success saves the session, an error is shown. */
    method OnLoginResult(result: LoginVm.LoginResult)
      modifies this, prefs
      ensures result.Success? ==> prefs.files == SesionGuardada(old(prefs.files), result.usuario) && toast == old(toast)
      ensures result.Error? ==> prefs.files == old(prefs.files) && toast == Some(result.message)
    {
      match result
      case Success(usuario) => GuardarSesion(usuario);
      case Error(message) => toast := Some(message);
    }
  }
}
