/** `NoticiasViewModel`: loads pages of headlines through the enriching repository and
    counts pages, advancing only when a page was stored. */
module NoticiasVm {
  import opened Wrappers
  import opened Entities
  import opened NewsSync
  import Lists
  import NoticiaStore
  import NewsApiRepository

  type Events = seq<Resource<seq<Noticia>>>

  const FIRST_PAGE: int := 1

  /** The number of `Success` events. */
  function Successes(events: Events): (n: nat)
    ensures n <= |events|
  {
    if events == [] then 0
    else Successes(events[..|events| - 1]) + (if events[|events| - 1].Success? then 1 else 0)
  }

  /** The number of events that call `onComplete`: every `Success` and every `Error`. */
  function Completions(events: Events): (n: nat)
    ensures n <= |events|
  {
    if events == [] then 0
    else Completions(events[..|events| - 1]) + (if events[|events| - 1].Loading? then 0 else 1)
  }

  /** Every success completes, and `Loading` events complete nothing. */
  lemma {:induction false} SuccessesComplete(events: Events)
    ensures Successes(events) <= Completions(events)
    ensures (forall i :: 0 <= i < |events| ==> events[i].Loading?) ==> Completions(events) == 0
  {
    if events != [] {
      var init := events[..|events| - 1];
      SuccessesComplete(init);
      assert forall i :: 0 <= i < |init| ==> init[i] == events[i];
    }
  }

  /** For one headline flow the page advances by one exactly when a batch was stored,
      and `onComplete` runs once, except after a successful reply with no body, where it
      never runs. */
  lemma PageRule(outcome: NewsOutcome, batch: seq<Noticia>, users: set<int>)
    ensures var s := Sync(outcome, batch, users);
      && Successes(s.events) == (if s.written.Some? then 1 else 0)
      && Completions(s.events) == (if outcome.Responded? && outcome.successful && outcome.body.None? then 0 else 1)
  {
    var s := Sync(outcome, batch, users);
    SyncShape(outcome, batch, users);
    if |s.events| == 2 {
      assert s.events[..1] == [Loading];
    }
  }

  /** Counting one more event of a flow adds that event's share to both counts. */
  lemma CountsStep(events: Events, i: nat)
    requires i < |events|
    ensures Successes(events[..i + 1]) == Successes(events[..i]) + (if events[i].Success? then 1 else 0)
    ensures Completions(events[..i + 1]) == Completions(events[..i]) + (if events[i].Loading? then 0 else 1)
    ensures events[..i + 1] == events[..i] + [events[i]]
  {
    assert events[..i + 1][..i] == events[..i];
  }

  class NoticiasViewModel {
    const repository: NewsApiRepository.NewsRepository
    /** The page the next request asks for. */
    var pagina: int
    /** Every value `_headlines` has been given, oldest first. */
    var headlines: Events
    /** How many times an `onComplete` callback has been called. */
    var completed: nat

    ghost predicate Valid()
      reads this, repository, repository.noticiaDao
    {
      repository.noticiaDao.Valid()
    }

    constructor (repo: NewsApiRepository.NewsRepository)
      ensures repository == repo && pagina == FIRST_PAGE && headlines == [] && completed == 0
    {
      repository := repo;
      pagina := FIRST_PAGE;
      headlines := [];
      completed := 0;
    }

    /** `cargarNuevasNoticias(countryCode, idUsuario, onComplete)`. `fetch(p)` is the
        news API call for page `p`; the request asks for the current page. The view shows
        `Loading` before the request and then each event of the flow in turn; each
        `Success` moves to the next page and calls `onComplete`, each `Error` only calls it. */
    method CargarNuevasNoticias(fetch: int -> NewsOutcome, replies: seq<NewsApiRepository.GeminiReply>,
                                parse: string -> Option<NewsApiRepository.Enrichment>, idUsuario: int, users: set<int>)
      requires Valid()
      requires HasBody(fetch(pagina)) ==> |replies| == |fetch(pagina).body.value|
      modifies this, repository.noticiaDao
      ensures Valid()
      ensures var s := Sync(fetch(old(pagina)), NewsApiRepository.Batch(fetch(old(pagina)), replies, parse, idUsuario), users);
        && headlines == old(headlines) + [Loading] + s.events
        && pagina == old(pagina) + Successes(s.events)
        && completed == old(completed) + Completions(s.events)
        && repository.noticiaDao.State() ==
             if s.written.Some? then NoticiaStore.InsertAll(old(repository.noticiaDao.State()), s.written.value)
             else old(repository.noticiaDao.State())
    {
      headlines := headlines + [Loading];
      var events := repository.GetHeadlines(fetch(pagina), replies, parse, idUsuario, users);
      CollectHeadlines(events);
    }

    /** The collector of the headline flow: each event is shown in turn; a `Success`
        moves to the next page and calls `onComplete`, an `Error` only calls it. */
    method CollectHeadlines(events: Events)
      modifies this
      ensures headlines == old(headlines) + events
      ensures pagina == old(pagina) + Successes(events)
      ensures completed == old(completed) + Completions(events)
    {
      ghost var start := headlines;
      ghost var page0 := pagina;
      ghost var done0 := completed;
      var i := 0;
      while i < |events|
        invariant 0 <= i <= |events|
        invariant headlines == start + events[..i]
        invariant pagina == page0 + Successes(events[..i])
        invariant completed == done0 + Completions(events[..i])
      {
        var response := events[i];
        CountsStep(events, i);
        headlines := headlines + [response];
        if response.Success? {
          pagina := pagina + 1;
          completed := completed + 1;
        } else if response.Error? {
          completed := completed + 1;
        }
        i := i + 1;
      }
      assert events[..i] == events;
    }

    /** `actualizarNoticia`: the repository's update. */
    method ActualizarNoticia(n: Noticia, users: set<int>)
      requires Valid()
      modifies repository.noticiaDao
      ensures Valid()
      ensures var ok := n.id !in NoticiaStore.Contents(old(repository.noticiaDao.State())) || n.owner in users;
        repository.noticiaDao.State() ==
          if ok then NoticiaStore.Update(old(repository.noticiaDao.State()), n) else old(repository.noticiaDao.State())
    {
      var ok := repository.UpdateNews(n, users);
    }

    /** `eliminarNoticia`: the repository's delete. */
    method EliminarNoticia(n: Noticia)
      requires Valid()
      modifies repository.noticiaDao
      ensures Valid()
      ensures repository.noticiaDao.State() == NoticiaStore.Delete(old(repository.noticiaDao.State()), n)
    {
      repository.DeleteNews(n);
    }

    /** `noticiasLength(usuarioId)`: the DAO's count of that user's rows, never more than
        the rows stored. */
    function NoticiasLength(usuarioId: int): (r: nat)
      reads this, repository, repository.noticiaDao
      ensures r == repository.noticiaDao.ContarNoticiasPorUsuario(usuarioId)
      ensures r == |Lists.Filter(repository.noticiaDao.rows, OwnedBy(usuarioId))|
      ensures Valid() ==> r <= repository.noticiaDao.ContarNoticias()
      ensures r == 0 <==> forall n :: n in repository.noticiaDao.rows ==> n.owner != usuarioId
    {
      repository.noticiaDao.ContarNoticiasPorUsuario(usuarioId)
    }

    /** `noticias` / `todasLasNoticiasLocal`: every stored row. */
    function Noticias(): (r: seq<Noticia>)
      reads this, repository, repository.noticiaDao
      ensures r == repository.noticiaDao.rows
    {
      repository.GetAllNews()
    }

    /** `guardadas`: the saved rows of every user. */
    function Guardadas(): (r: seq<Noticia>)
      reads this, repository, repository.noticiaDao
      ensures forall n :: n in r <==> n in repository.noticiaDao.rows && n.saved
      ensures Lists.IsSubsequence(r, repository.noticiaDao.rows)
    {
      repository.GetSavedNews()
    }
  }
}
