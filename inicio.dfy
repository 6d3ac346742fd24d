/** `InicioFragment`: the home screen. Once a user is signed in it seeds that user's first
    four rows when they have none, shows every stored row newest first, filtered by the
    category chosen in the activity, and sends like and save presses to the table. */
module Inicio {
  import opened Wrappers
  import opened Lists
  import opened Entities
  import P = Preferences
  import NoticiaStore
  import NoticiasVm
  import Adaptador

  /** The category that filters nothing. */
  const TODAS: string := "Todas"

  /** The source link every seed row carries. */
  const EXAMPLE_URL: string := "https://example.com"

  function InCategoriaActual(categoria: string): Noticia -> bool {
    (n: Noticia) => n.categoria == categoria
  }

  /** `filtrarYActualizarLista`'s selection: "Todas" keeps the list as it is; any other
      category keeps exactly the rows with that category, in order. */
  function FiltrarLista(lista: seq<Noticia>, categoria: string): (r: seq<Noticia>)
    ensures forall n :: n in r <==> n in lista && (categoria == TODAS || n.categoria == categoria)
    ensures forall n :: multiset(r)[n] == (if categoria == TODAS || n.categoria == categoria then multiset(lista)[n] else 0)
    ensures IsSubsequence(r, lista)
    ensures categoria == TODAS ==> r == lista
  {
    if categoria == TODAS then
      ReflexiveSubsequence(lista);
      lista
    else
      FilterIsSubsequence(lista, InCategoriaActual(categoria));
      Filter(lista, InCategoriaActual(categoria))
  }

  /** Every list is a subsequence of itself: it is its own filter by "keep all". */
  lemma ReflexiveSubsequence(s: seq<Noticia>)
    ensures IsSubsequence(s, s)
  {
    FilterKeepsAll(s, (n: Noticia) => true);
    FilterIsSubsequence(s, (n: Noticia) => true);
  }

  /** Filtering again by the same category changes nothing, and the "no news" text is
      shown exactly when no row of the list has the chosen category. */
  lemma FiltrarListaIdempotent(lista: seq<Noticia>, categoria: string)
    ensures FiltrarLista(FiltrarLista(lista, categoria), categoria) == FiltrarLista(lista, categoria)
    ensures FiltrarLista(lista, categoria) == [] <==>
      forall n :: n in lista ==> categoria != TODAS && n.categoria != categoria
  {
    var r := FiltrarLista(lista, categoria);
    if categoria != TODAS {
      FilterKeepsAll(r, InCategoriaActual(categoria));
    }
    if r != [] {
      assert r[0] in r;
    }
  }

  /** One of the four rows `cargarNoticiasIniciales` stores. */
  function SeedRow(userId: int, titulo: string, resumen: string, imagen: Drawable, categoria: string): Noticia {
    Noticia(UNASSIGNED, userId, titulo, resumen, imagen, None, EXAMPLE_URL, categoria, false, false)
  }

  /** What the four starter rows say: title, opening of the summary, bundled image and
      category. The summaries are shortened to the opening of the app's text. */
  datatype SeedText = SeedText(titulo: string, resumen: string, imagen: Drawable, categoria: string)

  const SEED_TEXTS: seq<SeedText> := [
    SeedText("Transmitir electricidad sin cables ya no es ciencia ficción",
             "Transmitir electricidad sin cables parecía cosa de ciencia ficción",
             Noticia1Imagen, "Tecnología"),
    SeedText("La previsible derrota de Trump y cómo aprovecharla",
             "Apple desarrolla en China alrededor del 90% de su producción total",
             Noticia2Imagen, "Deportes"),
    SeedText("EE.UU. e Irán mantienen un diálogo en busca de un nuevo acuerdo nuclear",
             "Desde dos salas separadas en Mascate, la capital de Omán",
             Noticia1Imagen, "Política"),
    SeedText("La herramienta fitness con la que trabajar brazos",
             "Una buena esterilla deportiva, unas mancuernas ajustables",
             Noticia2Imagen, "Salud")]

  function SeedRowFor(userId: int): SeedText -> Noticia {
    (x: SeedText) => SeedRow(userId, x.titulo, x.resumen, x.imagen, x.categoria)
  }

  /** The four starter rows of `userId`, one per category, alternating the two bundled
      images; none has a key yet, a remote image, a like or a save. */
  function Seed(userId: int): (r: seq<Noticia>)
    ensures |r| == 4
    ensures forall i :: 0 <= i < 4 ==>
      && r[i].id == UNASSIGNED && r[i].owner == userId && !r[i].liked && !r[i].saved
      && r[i].imagenUrl == None && r[i].fuenteUrl == EXAMPLE_URL
      && r[i].categoria == SEED_TEXTS[i].categoria && r[i].imagenId == SEED_TEXTS[i].imagen
  {
    MapSeq(SEED_TEXTS, SeedRowFor(userId))
  }

  /** Every seed row is unassigned and is owned by `userId`. */
  lemma SeedRows(userId: int)
    ensures forall n :: n in Seed(userId) ==> n.id == UNASSIGNED && n.owner == userId
  {
    var s := Seed(userId);
    forall n | n in s ensures n.id == UNASSIGNED && n.owner == userId {
      var i :| 0 <= i < |s| && s[i] == n;
    }
  }

  /** `cargarNoticiasIniciales(userId)` on table `t`: when the user owns no row, the four
      seed rows go in (all or nothing, as the foreign key allows); otherwise nothing. */
  function CargarIniciales(t: NoticiaStore.Table, userId: int, users: set<int>): NoticiaStore.Table {
    if NoticiaStore.CountOwned(t.rows, userId) == 0 && OwnersExist(Seed(userId), users)
    then NoticiaStore.InsertAll(t, Seed(userId))
    else t
  }

  /** The seed rows satisfy the foreign key exactly when their owner is a user. */
  lemma SeedOwners(userId: int, users: set<int>)
    ensures OwnersExist(Seed(userId), users) <==> userId in users
    ensures forall n :: n in Seed(userId) ==> n.id == UNASSIGNED
  {
    var s := Seed(userId);
    SeedRows(userId);
    assert s[0] in s;
  }

  /** Seeding keeps the table well formed, and a user who already owns a row, or who is
      not a user, gets nothing. */
  lemma CargarInicialesSpec(t: NoticiaStore.Table, userId: int, users: set<int>)
    requires NoticiaStore.TableInv(t)
    ensures NoticiaStore.TableInv(CargarIniciales(t, userId, users))
    ensures NoticiaStore.CountOwned(t.rows, userId) != 0 || userId !in users ==> CargarIniciales(t, userId, users) == t
    ensures NoticiaStore.CountOwned(t.rows, userId) == 0 && userId in users ==>
      |CargarIniciales(t, userId, users).rows| == |t.rows| + 4
  {
    SeedOwners(userId, users);
    NoticiaStore.InsertAllInv(t, Seed(userId));
    if NoticiaStore.CountOwned(t.rows, userId) == 0 && userId in users {
      NoticiaStore.InsertAllGrows(t, Seed(userId));
    }
  }

  /** Seeding a user with no rows stores the four seed rows under the next four keys. */
  lemma CargarInicialesFresh(t: NoticiaStore.Table, userId: int, users: set<int>, i: nat, k: int)
    requires NoticiaStore.TableInv(t) && i < 4 && k == t.nextId + i
    requires NoticiaStore.CountOwned(t.rows, userId) == 0 && userId in users
    ensures NoticiaStore.StoredAt(CargarIniciales(t, userId, users), k, Seed(userId)[i].(id := k))
  {
    SeedOwners(userId, users);
    assert CargarIniciales(t, userId, users) == NoticiaStore.InsertAll(t, Seed(userId));
    NoticiaStore.InsertAllFresh(t, Seed(userId), i, k);
  }

  /** Seeding leaves every earlier row under its key. */
  lemma CargarInicialesKeeps(t: NoticiaStore.Table, userId: int, users: set<int>, k: int)
    requires NoticiaStore.TableInv(t) && k in NoticiaStore.Contents(t)
    ensures var c := NoticiaStore.Contents(CargarIniciales(t, userId, users));
      k in c && c[k] == NoticiaStore.Contents(t)[k]
  {
    SeedOwners(userId, users);
    if NoticiaStore.CountOwned(t.rows, userId) == 0 && userId in users {
      assert NoticiaStore.Contents(t)[k] in t.rows;
      NoticiaStore.InsertAllUntouched(t, Seed(userId), k);
    }
  }

  /** Seeding happens once: after it, the user owns a row, so running it again (the next
      time the screen opens) changes nothing. */
  lemma CargarInicialesOnce(t: NoticiaStore.Table, userId: int, users: set<int>)
    requires NoticiaStore.TableInv(t)
    ensures CargarIniciales(CargarIniciales(t, userId, users), userId, users) == CargarIniciales(t, userId, users)
  {
    CargarInicialesSpec(t, userId, users);
    var t' := CargarIniciales(t, userId, users);
    if t' != t {
      var k := t.nextId;
      CargarInicialesFresh(t, userId, users, 0, k);
      assert k in NoticiaStore.Contents(t');
      assert NoticiaStore.Contents(t')[k] in t'.rows;
      assert NoticiaStore.Contents(t')[k].owner == userId;
    }
  }

  /** Liking or saving a stored row whose owner is a user rewrites that row with its flag
      flipped and leaves every other key as it was. */
  lemma ToggleUpdatesRow(t: NoticiaStore.Table, n: Noticia, toggled: Noticia)
    requires NoticiaStore.TableInv(t) && n in t.rows
    requires toggled == Adaptador.ToggleLike(n) || toggled == Adaptador.ToggleSave(n)
    ensures var c := NoticiaStore.Contents(NoticiaStore.Update(t, toggled));
      && n.id in c && c[n.id] == toggled
      && (forall k :: k != n.id ==> (k in c <==> k in NoticiaStore.Contents(t)))
      && (forall k :: k != n.id && k in c ==> c[k] == NoticiaStore.Contents(t)[k])
  {
    KeyedTable.AsMapHit(t.rows, NoticiaId, n);
    NoticiaStore.UpdateSpec(t, toggled);
  }

  class InicioFragment {
    const viewModel: NoticiasVm.NoticiasViewModel
    /** The adapter `setupRecyclerView` creates. */
    var adaptador: Adaptador.AdaptadorNoticias
    /** Whether `noticiasViewModel` has been obtained (it stays null until a user id is read). */
    var attached: bool
    var categoriaActual: string
    var currentUserId: Option<int>
    /** Whether `textoSinNoticias` is visible, once the screen has set it. */
    var sinNoticiasVisible: Option<bool>

    ghost predicate Valid()
      reads this, viewModel, viewModel.repository, viewModel.repository.noticiaDao
    {
      viewModel.Valid()
    }

    constructor (vm: NoticiasVm.NoticiasViewModel)
      ensures viewModel == vm && fresh(adaptador) && adaptador.newsList == []
      ensures !attached && categoriaActual == TODAS && currentUserId == None && sinNoticiasVisible == None
    {
      viewModel := vm;
      adaptador := new Adaptador.AdaptadorNoticias([]);
      attached := false;
      categoriaActual := TODAS;
      currentUserId := None;
      sinNoticiasVisible := None;
    }

    /** `filtrarYActualizarLista(lista)`: the adapter shows the selection newest first, and
        the "no news" text is visible exactly when the selection is empty. */
    method FiltrarYActualizarLista(lista: seq<Noticia>)
      modifies this, adaptador
      ensures adaptador == old(adaptador) && attached == old(attached)
      ensures categoriaActual == old(categoriaActual) && currentUserId == old(currentUserId)
      ensures sinNoticiasVisible == Some(FiltrarLista(lista, categoriaActual) == [])
      ensures adaptador.newsList == Reverse(FiltrarLista(lista, categoriaActual))
    {
      var noticiasFiltradas := FiltrarLista(lista, categoriaActual);
      sinNoticiasVisible := Some(noticiasFiltradas == []);
      adaptador.ActualizarLista(noticiasFiltradas);
    }

    /** `filtrarPorCategoriaDesdeActivity(categoria)`: the category is remembered; the list
        is redrawn from the stored rows only once the view model is there. */
    method FiltrarPorCategoriaDesdeActivity(categoria: string)
      modifies this, adaptador
      ensures adaptador == old(adaptador) && attached == old(attached) && currentUserId == old(currentUserId)
      ensures categoriaActual == categoria
      ensures attached ==>
        && sinNoticiasVisible == Some(FiltrarLista(viewModel.repository.noticiaDao.rows, categoria) == [])
        && adaptador.newsList == Reverse(FiltrarLista(viewModel.repository.noticiaDao.rows, categoria))
      ensures !attached ==> sinNoticiasVisible == old(sinNoticiasVisible) && adaptador.newsList == old(adaptador.newsList)
    {
      categoriaActual := categoria;
      if attached {
        var lista := viewModel.Noticias();
        FiltrarYActualizarLista(lista);
      }
    }

    /** The observer registered by `observeNoticias`: each new value of `noticias` (every
        stored row) is filtered and shown. */
    method OnNoticiasChanged()
      requires attached
      modifies this, adaptador
      ensures adaptador == old(adaptador) && attached && categoriaActual == old(categoriaActual)
      ensures currentUserId == old(currentUserId)
      ensures sinNoticiasVisible == Some(FiltrarLista(viewModel.repository.noticiaDao.rows, categoriaActual) == [])
      ensures adaptador.newsList == Reverse(FiltrarLista(viewModel.repository.noticiaDao.rows, categoriaActual))
    {
      var lista := viewModel.Noticias();
      FiltrarYActualizarLista(lista);
    }

    /** `onViewCreated`: with no stored email, or no stored user id (the default -1),
        nothing happens. Otherwise the user id is remembered, a fresh empty adapter is set
        up, and that user's seed rows are stored if they own none. */
    method OnViewCreated(prefs: P.SharedPreferences, users: set<int>)
      requires Valid()
      modifies this, viewModel.repository.noticiaDao
      ensures Valid()
      ensures var email := P.StringAt(prefs.files, P.SESION_USUARIO, P.KEY_EMAIL);
        var userId := P.IntAt(prefs.files, P.SESION_USUARIO, P.KEY_USER_ID, P.NO_USER);
        if email.None? || userId == P.NO_USER then
          && adaptador == old(adaptador) && attached == old(attached) && currentUserId == old(currentUserId)
          && viewModel.repository.noticiaDao.State() == old(viewModel.repository.noticiaDao.State())
        else
          && currentUserId == Some(userId) && attached
          && fresh(adaptador) && adaptador.newsList == []
          && viewModel.repository.noticiaDao.State() ==
               CargarIniciales(old(viewModel.repository.noticiaDao.State()), userId, users)
      ensures categoriaActual == old(categoriaActual) && sinNoticiasVisible == old(sinNoticiasVisible)
    {
      var emailGuardado := prefs.GetString(P.SESION_USUARIO, P.KEY_EMAIL);
      if emailGuardado.None? {
        return;
      }
      var userId := prefs.GetInt(P.SESION_USUARIO, P.KEY_USER_ID, P.NO_USER);
      if userId != P.NO_USER {
        currentUserId := Some(userId);
        attached := true;
        adaptador := new Adaptador.AdaptadorNoticias([]);
        CargarNoticiasIniciales(userId, users);
      }
    }

    /** `cargarNoticiasIniciales(userId)`: the seed rows go in exactly when the user owns
        no stored row. */
    method CargarNoticiasIniciales(userId: int, users: set<int>)
      requires Valid()
      modifies viewModel.repository.noticiaDao
      ensures Valid()
      ensures viewModel.repository.noticiaDao.State() ==
        CargarIniciales(old(viewModel.repository.noticiaDao.State()), userId, users)
    {
      var count := viewModel.NoticiasLength(userId);
      if count == 0 {
        var ok := viewModel.repository.noticiaDao.InsertarNoticias(Seed(userId), users);
      }
    }

    /** The like callback of the adapter: the toggled copy of the row at `position` goes
        to `actualizarNoticia` once the view model is there. */
    method OnLikeClicked(position: nat, users: set<int>)
      requires Valid() && position < |adaptador.newsList|
      modifies viewModel.repository.noticiaDao
      ensures Valid()
      ensures var n := Adaptador.ToggleLike(adaptador.newsList[position]);
        var t := old(viewModel.repository.noticiaDao.State());
        viewModel.repository.noticiaDao.State() ==
          if attached && (n.id !in NoticiaStore.Contents(t) || n.owner in users) then NoticiaStore.Update(t, n) else t
    {
      var n := adaptador.OnLikeClicked(position);
      if attached {
        viewModel.ActualizarNoticia(n, users);
      }
    }

    /** The save callback of the adapter, like `OnLikeClicked` with the saved flag. */
    method OnSaveClicked(position: nat, users: set<int>)
      requires Valid() && position < |adaptador.newsList|
      modifies viewModel.repository.noticiaDao
      ensures Valid()
      ensures var n := Adaptador.ToggleSave(adaptador.newsList[position]);
        var t := old(viewModel.repository.noticiaDao.State());
        viewModel.repository.noticiaDao.State() ==
          if attached && (n.id !in NoticiaStore.Contents(t) || n.owner in users) then NoticiaStore.Update(t, n) else t
    {
      var n := adaptador.OnSaveClicked(position);
      if attached {
        viewModel.ActualizarNoticia(n, users);
      }
    }
  }
}
