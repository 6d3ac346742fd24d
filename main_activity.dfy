/** `MainActivity`: the session check at start-up, logout, the category tabs and the
    rule that locks the navigation drawer. */
module MainActivity {
  import opened Wrappers
  import P = Preferences
  import Inicio
  import LoginVm
  import Lists

  /** The navigation destinations the activity tells apart. */
  datatype Destination = Home | Liked | Saved | LoginScreen | RegistroScreen

  datatype DrawerLock = Unlocked | LockedClosed

  /** The menu entries of the navigation drawer. */
  datatype NavItem = NavHome | NavLiked | NavSaved | NavLogout

  /** The tabs `setupTabLayout` adds, in order. */
  const CATEGORIAS: seq<string> :=
    ["Todas", "Política", "Deportes", "Tecnología", "Salud", "Economía", "Ciencia", "Cultura", "Opinión"]

  /** `getInt("userId", -1).takeIf { it != -1 }`. */
  function UsuarioActual(st: P.Store): (r: Option<int>)
    ensures r == None <==> P.IntAt(st, P.SESION_USUARIO, P.KEY_USER_ID, P.NO_USER) == P.NO_USER
    ensures r.Some? ==> r.value == P.IntAt(st, P.SESION_USUARIO, P.KEY_USER_ID, P.NO_USER)
  {
    var id := P.IntAt(st, P.SESION_USUARIO, P.KEY_USER_ID, P.NO_USER);
    if id == P.NO_USER then None else Some(id)
  }

  /** Where `verificarSesionInicial` goes, how it leaves the drawer, and the user it
      takes as signed in. */
  function Arranque(st: P.Store): (r: (Destination, DrawerLock, Option<int>))
    ensures r.0 == LoginScreen <==> UsuarioActual(st) == None
    ensures r.0 == LoginScreen ==> r.1 == LockedClosed
    ensures r.0 != LoginScreen ==> r.0 == Home && r.1 == Unlocked && r.2 == UsuarioActual(st)
  {
    match UsuarioActual(st)
    case None => (LoginScreen, LockedClosed, None)
    case Some(id) => (Home, Unlocked, Some(id))
  }

  /** Logout removes the email only, so the stored user id survives it: the current-user
      lookup and the next start-up behave exactly as before the logout, and the app
      opens on the home screen again. */
  lemma LogoutKeepsUserId(st: P.Store)
    ensures var st' := P.Without(st, P.SESION_USUARIO, P.KEY_EMAIL);
      && P.StringAt(st', P.SESION_USUARIO, P.KEY_EMAIL) == None
      && UsuarioActual(st') == UsuarioActual(st)
      && Arranque(st') == Arranque(st)
  {
    P.ReadBack(st, P.SESION_USUARIO, P.KEY_EMAIL, "", 0, P.NO_USER);
    P.OtherKeysUnchanged(st, P.SESION_USUARIO, P.KEY_EMAIL, P.SESION_USUARIO, P.KEY_USER_ID, "", 0, P.NO_USER);
  }

  /** The drawer away from the home screen: locked exactly on login and registration. */
  function DrawerRule(d: Destination): (r: DrawerLock)
    requires d != Home
    ensures r == LockedClosed <==> d == LoginScreen || d == RegistroScreen
  {
    if d == LoginScreen || d == RegistroScreen then LockedClosed else Unlocked
  }

  /** The tabs after `setupTabLayout`: the categories when there were none, otherwise
      the tabs as they were. */
  function TabsAfterSetup(tabs: seq<string>): (r: seq<string>)
    ensures tabs == [] ==> r == CATEGORIAS && r[0] == Inicio.TODAS && |r| == 9
    ensures tabs != [] ==> r == tabs
  {
    if tabs == [] then CATEGORIAS else tabs
  }

  /** Setting the tabs up again changes nothing, however often it runs. */
  lemma SetupIdempotent(tabs: seq<string>)
    ensures TabsAfterSetup(TabsAfterSetup(tabs)) == TabsAfterSetup(tabs)
    ensures TabsAfterSetup(tabs) != []
  {
  }

  class MainActivity {
    const prefs: P.SharedPreferences
    const loginViewModel: LoginVm.LoginViewModel
    var currentUserId: Option<int>
    /** The current destination; `None` before the first navigation. */
    var destination: Option<Destination>
    var drawer: DrawerLock
    /** The texts of the tabs of `tabLayout`, in order. */
    var tabs: seq<string>
    /** Whether the tab layout and the floating button are visible. */
    var tabsVisible: bool

    constructor (p: P.SharedPreferences, vm: LoginVm.LoginViewModel)
      ensures prefs == p && loginViewModel == vm
      ensures currentUserId == None && destination == None && tabs == [] && drawer == Unlocked && !tabsVisible
    {
      prefs := p;
      loginViewModel := vm;
      currentUserId := None;
      destination := None;
      drawer := Unlocked;
      tabs := [];
      tabsVisible := false;
    }

    /** `obtenerIdUsuarioActual`: -1 means no current user; any other id is taken as is. */
    method ObtenerIdUsuarioActual()
      modifies this
      ensures currentUserId == UsuarioActual(prefs.files)
      ensures destination == old(destination) && drawer == old(drawer) && tabs == old(tabs) && tabsVisible == old(tabsVisible)
    {
      var id := prefs.GetInt(P.SESION_USUARIO, P.KEY_USER_ID, P.NO_USER);
      currentUserId := if id != P.NO_USER then Some(id) else None;
    }

    /** `verificarSesionInicial`: no stored user id leads to the login screen with the
        drawer locked; otherwise to the home screen, unlocked, with that user current. */
    method VerificarSesionInicial()
      modifies this
      ensures destination == Some(Arranque(prefs.files).0) && drawer == Arranque(prefs.files).1
      ensures Arranque(prefs.files).0 == Home ==> currentUserId == Arranque(prefs.files).2
      ensures Arranque(prefs.files).0 == LoginScreen ==> currentUserId == old(currentUserId)
      ensures tabs == old(tabs) && tabsVisible == old(tabsVisible)
    {
      var userId := prefs.GetInt(P.SESION_USUARIO, P.KEY_USER_ID, P.NO_USER);
      if userId == P.NO_USER {
        destination := Some(LoginScreen);
        drawer := LockedClosed;
      } else {
        currentUserId := Some(userId);
        destination := Some(Home);
        drawer := Unlocked;
      }
    }

    /** `cerrarSesion`: the email is removed from the session file (the user id stays),
        the navigation to the login screen runs the listener, which hides the tabs, the
        drawer is locked, and no user is current. */
    method CerrarSesion()
      modifies this, prefs
      ensures prefs.files == P.Without(old(prefs.files), P.SESION_USUARIO, P.KEY_EMAIL)
      ensures destination == Some(LoginScreen) && drawer == LockedClosed && currentUserId == None
      ensures tabs == old(tabs) && !tabsVisible
    {
      prefs.Remove(P.SESION_USUARIO, P.KEY_EMAIL);
      Navigate(LoginScreen);
      drawer := LockedClosed;
      currentUserId := None;
    }

    /** `setupTabLayout`: the nine categories are added, "Todas" first, only when there
        is no tab yet. */
    method SetupTabLayout()
      modifies this
      ensures tabs == TabsAfterSetup(old(tabs))
      ensures currentUserId == old(currentUserId) && destination == old(destination)
      ensures drawer == old(drawer) && tabsVisible == old(tabsVisible)
    {
      if |tabs| == 0 {
        var categorias := CATEGORIAS;
        for i := 0 to |categorias|
          invariant tabs == categorias[..i]
          invariant currentUserId == old(currentUserId) && destination == old(destination)
          invariant drawer == old(drawer) && tabsVisible == old(tabsVisible)
        {
          tabs := tabs + [categorias[i]];
        }
      }
    }

    /** The destination listener: on the home screen the tabs are shown and set up and
        the drawer is unlocked; elsewhere the tabs are hidden and the drawer follows
        `DrawerRule`. */
    method OnDestinationChanged(d: Destination)
      modifies this
      ensures currentUserId == old(currentUserId) && destination == old(destination)
      ensures tabsVisible <==> d == Home
      ensures d == Home ==> drawer == Unlocked && tabs == TabsAfterSetup(old(tabs))
      ensures d != Home ==> drawer == DrawerRule(d) && tabs == old(tabs)
    {
      if d == Home {
        if currentUserId.Some? {
          SetupTabLayout();
        }
        tabsVisible := true;
        drawer := Unlocked;
        SetupTabLayout();
      } else {
        tabsVisible := false;
        if d == LoginScreen || d == RegistroScreen {
          drawer := LockedClosed;
        } else {
          drawer := Unlocked;
        }
      }
    }

    /** `navController.navigate(d)`: the destination changes and the listener runs. */
    method Navigate(d: Destination)
      modifies this
      ensures destination == Some(d) && currentUserId == old(currentUserId)
      ensures tabsVisible <==> d == Home
      ensures d == Home ==> drawer == Unlocked && tabs == TabsAfterSetup(old(tabs))
      ensures d != Home ==> drawer == DrawerRule(d) && tabs == old(tabs)
    {
      destination := Some(d);
      OnDestinationChanged(d);
    }

    /** The drawer's item listener: the three screens are navigated to, logout ends the
        session. */
    method OnNavigationItemSelected(item: NavItem)
      modifies this, prefs
      ensures item == NavLogout ==>
        && prefs.files == P.Without(old(prefs.files), P.SESION_USUARIO, P.KEY_EMAIL)
        && destination == Some(LoginScreen) && drawer == LockedClosed && currentUserId == None
        && tabs == old(tabs) && !tabsVisible
      ensures item != NavLogout ==>
        && prefs.files == old(prefs.files) && currentUserId == old(currentUserId)
        && destination == Some(match item case NavHome => Home case NavLiked => Liked case _ => Saved)
        && drawer == Unlocked && (tabsVisible <==> item == NavHome)
        && tabs == if item == NavHome then TabsAfterSetup(old(tabs)) else old(tabs)
    {
      match item
      case NavHome => Navigate(Home);
      case NavLiked => Navigate(Liked);
      case NavSaved => Navigate(Saved);
      case NavLogout => CerrarSesion();
    }

    /** The observer of the activity's `navigateToInicio`: on true the current user is
        read back, the home screen is shown, and the request is consumed; on false
        nothing happens. */
    method OnNavigateToInicio(shouldNavigate: bool)
      modifies this, loginViewModel
      ensures shouldNavigate ==>
        && currentUserId == UsuarioActual(prefs.files) && destination == Some(Home)
        && drawer == Unlocked && tabsVisible && tabs == TabsAfterSetup(old(tabs))
        && loginViewModel.navigateToInicio == Some(false)
        && loginViewModel.loginResult == old(loginViewModel.loginResult)
      ensures !shouldNavigate ==>
        && currentUserId == old(currentUserId) && destination == old(destination) && tabs == old(tabs)
        && drawer == old(drawer) && tabsVisible == old(tabsVisible)
        && loginViewModel.navigateToInicio == old(loginViewModel.navigateToInicio)
        && loginViewModel.loginResult == old(loginViewModel.loginResult)
    {
      if shouldNavigate {
        ObtenerIdUsuarioActual();
        Navigate(Home);
        loginViewModel.ResetNavigateToInicio();
      }
    }

    /** The tab listener: while the home screen is shown, the chosen tab's text becomes
        its category and the list is refiltered. */
    method OnTabSelected(i: nat, inicio: Inicio.InicioFragment)
      requires i < |tabs|
      modifies inicio, inicio.adaptador
      ensures inicio.adaptador == old(inicio.adaptador) && inicio.attached == old(inicio.attached)
      ensures inicio.currentUserId == old(inicio.currentUserId)
      ensures destination == Some(Home) && !inicio.attached ==>
        inicio.adaptador.newsList == old(inicio.adaptador.newsList) && inicio.sinNoticiasVisible == old(inicio.sinNoticiasVisible)
      ensures destination == Some(Home) ==> inicio.categoriaActual == tabs[i]
      ensures destination == Some(Home) && inicio.attached ==>
        && inicio.sinNoticiasVisible == Some(Inicio.FiltrarLista(inicio.viewModel.repository.noticiaDao.rows, tabs[i]) == [])
        && inicio.adaptador.newsList == Lists.Reverse(Inicio.FiltrarLista(inicio.viewModel.repository.noticiaDao.rows, tabs[i]))
      ensures destination != Some(Home) ==>
        && inicio.categoriaActual == old(inicio.categoriaActual)
        && inicio.adaptador.newsList == old(inicio.adaptador.newsList)
        && inicio.sinNoticiasVisible == old(inicio.sinNoticiasVisible)
    {
      if destination == Some(Home) {
        inicio.FiltrarPorCategoriaDesdeActivity(tabs[i]);
      }
    }
  }
}
