/** What both revisions of the news repository share: the article fields they read,
    the outcome of one call to the news API, the events a headline flow emits, and the
    rule that decides which events are emitted and which batch is written. */
module NewsSync {
  import opened Wrappers
  import opened Entities
  import NoticiaStore

  /** The article fields the repositories read; any of them may be null in the reply. */
  datatype Article = Article(
    title: Option<string>,
    description: Option<string>,
    url: Option<string>,
    urlToImage: Option<string>)

  /** One call to the news API: either it threw (network failure, unreadable body), or
      it produced a response with its success flag, status message and nullable body. */
  datatype NewsOutcome =
    | Threw
    | Responded(successful: bool, message: string, body: Option<seq<Article>>)

  /** `Resource<T>`: the events of a headline flow. */
  datatype Resource<T> = Loading | Success(data: T) | Error(message: string)

  /** The events one collection of the flow emits, and the batch it handed to
      `insertarNoticias`, if any. */
  datatype SyncOutcome = SyncOutcome(events: seq<Resource<seq<Noticia>>>, written: Option<seq<Noticia>>)

  /** The message of the outer `catch`. */
  const GENERIC_ERROR: string := "Error de red o conversión de datos"

  /** A successful response that carries a body. */
  predicate HasBody(outcome: NewsOutcome) {
    outcome.Responded? && outcome.successful && outcome.body.Some?
  }

  /** One headline flow, given the batch the repository builds from the body's articles
      (ignored when there is none) and the user ids the foreign key accepts. `Loading` is
      emitted before the `try`; a failing insert (an owner that is not a user) throws
      inside the `try`, so the outer `catch` answers with the generic error. */
  function Sync(outcome: NewsOutcome, batch: seq<Noticia>, users: set<int>): SyncOutcome {
    match outcome
    case Threw => SyncOutcome([Loading, Error(GENERIC_ERROR)], None)
    case Responded(successful, message, body) =>
      if !successful then SyncOutcome([Loading, Error(message)], None)
      else if body.None? then SyncOutcome([Loading], None)
      else if OwnersExist(batch, users) then SyncOutcome([Loading, Success(batch)], Some(batch))
      else SyncOutcome([Loading, Error(GENERIC_ERROR)], None)
  }

  /** The shape of every flow: `Loading` comes first and only first, at most one further
      event follows, a `Success` is emitted exactly when the same batch was written, and
      a batch is written only for a successful response with a body whose owners are
      users. A failed response reports its own message, an exception the generic one. */
  lemma SyncShape(outcome: NewsOutcome, batch: seq<Noticia>, users: set<int>)
    ensures var s := Sync(outcome, batch, users);
      && 1 <= |s.events| <= 2 && s.events[0] == Loading
      && (forall i :: 0 < i < |s.events| ==> !s.events[i].Loading?)
      && (forall b :: Success(b) in s.events <==> s.written == Some(b))
      && (s.written.Some? <==> HasBody(outcome) && OwnersExist(batch, users))
      && (s.written.Some? ==> s.written.value == batch)
      && (s.events == [Loading] <==> outcome.Responded? && outcome.successful && outcome.body.None?)
      && (outcome.Responded? && !outcome.successful ==> s.events == [Loading, Error(outcome.message)])
      && (outcome.Threw? ==> s.events == [Loading, Error(GENERIC_ERROR)])
  {
  }

  /** The body of a headline flow once the batch is built: `Loading`, then the outcome's
      event. The batch goes to `insertarNoticias` before its `Success` is emitted, and
      the table changes by that insert and in no other way. */
  method Collect(dao: NoticiaStore.NoticiaDao, outcome: NewsOutcome, batch: seq<Noticia>, users: set<int>)
    returns (events: seq<Resource<seq<Noticia>>>)
    requires dao.Valid()
    modifies dao
    ensures dao.Valid()
    ensures events == Sync(outcome, batch, users).events
    ensures var w := Sync(outcome, batch, users).written;
      dao.State() == if w.Some? then NoticiaStore.InsertAll(old(dao.State()), w.value) else old(dao.State())
  {
    events := [Loading];
    match outcome
    case Threw =>
      events := events + [Error(GENERIC_ERROR)];
    case Responded(successful, message, body) =>
      if !successful {
        events := events + [Error(message)];
      } else if body.Some? {
        var ok := dao.InsertarNoticias(batch, users);
        if ok {
          events := events + [Success(batch)];
        } else {
          events := events + [Error(GENERIC_ERROR)];
        }
      }
  }
}
