/** The older news repository: every article of a reply becomes one row as it is, with
    no rewrite, no category and the first bundled image. */
module ApiRepository {
  import opened Wrappers
  import opened Lists
  import opened KotlinText
  import opened Entities
  import opened NewsSync
  import NoticiaStore
  import NewsApiRepository

  /** `searchNews` stores its rows for this user id whoever is signed in. */
  const SEARCH_OWNER: int := 1

  /** The row built for an article. Null text fields print as "null". */
  function PlainRow(a: Article, owner: int): Noticia {
    Noticia(UNASSIGNED, owner, NullableToString(a.title), NullableToString(a.description),
            Noticia1Imagen, a.urlToImage, NullableToString(a.url), "", false, false)
  }

  function PlainRowFor(owner: int): Article -> Noticia {
    (a: Article) => PlainRow(a, owner)
  }

  /** The `map` over the articles. */
  function PlainRows(arts: seq<Article>, owner: int): seq<Noticia> {
    MapSeq(arts, PlainRowFor(owner))
  }

  /** One row per article, in the same order, nothing dropped; each row copies its
      article's text, links and image URL, has no category, is neither liked nor saved,
      and belongs to `owner`. */
  lemma PlainRowsShape(arts: seq<Article>, owner: int)
    ensures |PlainRows(arts, owner)| == |arts|
    ensures forall i :: 0 <= i < |arts| ==>
      var n := PlainRows(arts, owner)[i];
      && n.titulo == NullableToString(arts[i].title)
      && n.resumen == NullableToString(arts[i].description)
      && n.imagenUrl == arts[i].urlToImage
      && n.fuenteUrl == NullableToString(arts[i].url)
      && n.categoria == "" && !n.liked && !n.saved && n.owner == owner
      && n.id == UNASSIGNED && n.imagenId == Noticia1Imagen
  {
  }

  /** The batch of one flow: empty when there is no body to read. */
  function Batch(outcome: NewsOutcome, owner: int): seq<Noticia> {
    if HasBody(outcome) then PlainRows(outcome.body.value, owner) else []
  }

  /** When every Gemini rewrite succeeds, the two revisions store the same number of rows
      in the same order, and row for row they agree on everything except the text, the
      category and the bundled image. */
  lemma RevisionsAgree(arts: seq<Article>, replies: seq<NewsApiRepository.GeminiReply>,
                       parse: string -> Option<NewsApiRepository.Enrichment>, idUsuario: int)
    requires |arts| == |replies|
    requires forall i :: 0 <= i < |replies| ==> NewsApiRepository.ProcesarArticuloGemini(replies[i], parse).Enriched?
    ensures |NewsApiRepository.EnrichAll(arts, replies, parse, idUsuario)| == |PlainRows(arts, idUsuario)|
    ensures forall i :: 0 <= i < |arts| ==>
      var e := NewsApiRepository.EnrichAll(arts, replies, parse, idUsuario)[i];
      var p := PlainRows(arts, idUsuario)[i];
      e.(titulo := p.titulo, resumen := p.resumen, categoria := p.categoria, imagenId := p.imagenId) == p
  {
    NewsApiRepository.EnrichAllKeepsAll(arts, replies, parse, idUsuario);
  }

  class NewsRepository {
    const noticiaDao: NoticiaStore.NoticiaDao

    constructor (dao: NoticiaStore.NoticiaDao)
      ensures noticiaDao == dao
    {
      noticiaDao := dao;
    }

    /** `getHeadlines(countryCode, pageNumber, idUsuario)` collected once: the rows belong
        to `idUsuario`. */
    method GetHeadlines(outcome: NewsOutcome, idUsuario: int, users: set<int>)
      returns (events: seq<Resource<seq<Noticia>>>)
      requires noticiaDao.Valid()
      modifies noticiaDao
      ensures noticiaDao.Valid()
      ensures events == Sync(outcome, Batch(outcome, idUsuario), users).events
      ensures var w := Sync(outcome, Batch(outcome, idUsuario), users).written;
        noticiaDao.State() == if w.Some? then NoticiaStore.InsertAll(old(noticiaDao.State()), w.value)
                              else old(noticiaDao.State())
    {
      events := Collect(noticiaDao, outcome, Batch(outcome, idUsuario), users);
    }

    /** `searchNews(searchQuery, pageNumber)` collected once: the rows belong to user 1. */
    method SearchNews(outcome: NewsOutcome, users: set<int>)
      returns (events: seq<Resource<seq<Noticia>>>)
      requires noticiaDao.Valid()
      modifies noticiaDao
      ensures noticiaDao.Valid()
      ensures events == Sync(outcome, Batch(outcome, SEARCH_OWNER), users).events
      ensures var w := Sync(outcome, Batch(outcome, SEARCH_OWNER), users).written;
        noticiaDao.State() == if w.Some? then NoticiaStore.InsertAll(old(noticiaDao.State()), w.value)
                              else old(noticiaDao.State())
    {
      events := Collect(noticiaDao, outcome, Batch(outcome, SEARCH_OWNER), users);
    }

    /** `getSavedNews`: the DAO's saved rows. */
    function GetSavedNews(): (r: seq<Noticia>)
      reads noticiaDao
      ensures forall n :: n in r <==> n in noticiaDao.rows && n.saved
      ensures IsSubsequence(r, noticiaDao.rows)
    {
      noticiaDao.GetGuardadas()
    }

    /** `updateNews`: the DAO's update; `ok` is false when the foreign key rejects it. */
    method UpdateNews(n: Noticia, users: set<int>) returns (ok: bool)
      requires noticiaDao.Valid()
      modifies noticiaDao
      ensures noticiaDao.Valid()
      ensures ok == (n.id !in NoticiaStore.Contents(old(noticiaDao.State())) || n.owner in users)
      ensures noticiaDao.State() == if ok then NoticiaStore.Update(old(noticiaDao.State()), n) else old(noticiaDao.State())
    {
      ok := noticiaDao.ActualizarNoticia(n, users);
    }

    /** `deleteNews`: the DAO's delete by key. */
    method DeleteNews(n: Noticia)
      requires noticiaDao.Valid()
      modifies noticiaDao
      ensures noticiaDao.Valid()
      ensures noticiaDao.State() == NoticiaStore.Delete(old(noticiaDao.State()), n)
    {
      noticiaDao.EliminarNoticia(n);
    }

    /** `getAllNews`: every row. */
    function GetAllNews(): (r: seq<Noticia>)
      reads noticiaDao
      ensures r == noticiaDao.rows
    {
      noticiaDao.GetTodas()
    }

    /** `isNewsDatabaseEmpty`: the global count is zero exactly when no row is stored. */
    function IsNewsDatabaseEmpty(): (r: bool)
      reads noticiaDao
      requires noticiaDao.Valid()
      ensures r <==> NoticiaStore.Contents(noticiaDao.State()) == map[]
      ensures r <==> noticiaDao.rows == []
    {
      NoticiaStore.EmptyIffNoRows(noticiaDao.State());
      noticiaDao.ContarNoticias() == 0
    }
  }
}
