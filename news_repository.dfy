/** The enriching news repository: headlines are fetched, each article is rewritten by
    the Gemini model (translated title and summary plus a category), the articles whose
    rewrite fails are dropped, and the rest are stored and emitted. */
module NewsApiRepository {
  import opened Wrappers
  import opened Lists
  import opened KotlinText
  import opened Entities
  import opened NewsSync
  import NoticiaStore

  // ---------------------------------------------------------------------------------
  // The Gemini reply, as far as `procesarArticuloGemini` reads it. Every level of the
  // reply is nullable.

  datatype Part = Part(text: Option<string>)
  datatype Content = Content(parts: Option<seq<Part>>)
  datatype Candidate = Candidate(content: Option<Content>)
  datatype GeminiBody = GeminiBody(candidates: Option<seq<Candidate>>)

  /** One `generarContenido(...).execute()`: it threw, or it answered with a success
      flag, an HTTP status code and a nullable body. */
  datatype GeminiReply =
    | GeminiThrew
    | GeminiResponse(successful: bool, code: int, body: Option<GeminiBody>)

  /** The three strings the model is asked to return. */
  datatype Enrichment = Enrichment(titulo: string, resumen: string, categoria: string)

  /** Why an article was not enriched: the call threw, the reply was not 2xx
      ("Error de Gemini: <code>"), there was no text ("Sin respuesta"), or the cleaned
      text did not parse as an object with the three keys. */
  datatype GeminiError = CallFailed | HttpError(code: int) | SinRespuesta | BadJson

  datatype GeminiResult = Enriched(value: Enrichment) | Failed(error: GeminiError)

  /** `body?.candidates?.firstOrNull()?.content?.parts?.firstOrNull()?.text`. */
  function FirstText(body: Option<GeminiBody>): Option<string> {
    if body.None? || body.value.candidates.None? || body.value.candidates.value == [] then None
    else
      var c := body.value.candidates.value[0];
      if c.content.None? || c.content.value.parts.None? || c.content.value.parts.value == [] then None
      else c.content.value.parts.value[0].text
  }

  // ---------------------------------------------------------------------------------
  // Fence cleaning

  const FENCE: string := "```"
  const FENCE_JSON: string := "```json"

  /** The reply text with every "```json" deleted, then every "```" deleted, then trimmed. */
  function CleanFence(t: string): string {
    Trim(DeleteAll(DeleteAll(t, FENCE_JSON), FENCE))
  }

  /** The number of leading backticks. */
  function Ticks(s: string): (n: nat)
    ensures n <= |s|
  {
    if s != [] && s[0] == '`' then 1 + Ticks(s[1..]) else 0
  }

  /** Deleting "```" from left to right leaves, of a leading run of backticks, its length
      modulo three. */
  lemma {:induction false} TicksAfterDelete(s: string)
    ensures Ticks(DeleteAll(s, FENCE)) == Ticks(s) % 3
    decreases |s|
  {
    if |s| < 3 {
    } else if s[..3] == FENCE {
      TicksOfFence(s);
      TicksAfterDelete(s[3..]);
      Mod3Shift(Ticks(s[3..]));
    } else if s[0] == '`' {
      TicksAfterDelete(s[1..]);
      TicksAfterTick(s);
    } else {
      assert DeleteAll(s, FENCE) == [s[0]] + DeleteAll(s[1..], FENCE);
    }
  }

  lemma SmallMod3(x: nat)
    requires x < 3
    ensures x % 3 == x
  {
  }

  lemma Mod3Shift(x: nat)
    ensures (3 + x) % 3 == x % 3
  {
  }

  /** A leading backtick adds one to the count of the rest. */
  lemma TicksCons(s: string)
    requires s != [] && s[0] == '`'
    ensures Ticks(s) == 1 + Ticks(s[1..])
  {
  }

  /** A leading fence is three of the leading backticks, and deleting it is the first step. */
  lemma TicksOfFence(s: string)
    requires |s| >= 3 && s[..3] == FENCE
    ensures Ticks(s) == 3 + Ticks(s[3..])
    ensures DeleteAll(s, FENCE) == DeleteAll(s[3..], FENCE)
  {
    var s1 := s[1..];
    var s2 := s1[1..];
    assert s[..3] == [s[0], s[1], s[2]];
    assert s1[0] == s[1] && s2[0] == s[2] && s2[1..] == s[3..];
    TicksCons(s);
    TicksCons(s1);
    TicksCons(s2);
  }

  /** A leading backtick that does not start a fence is kept, in front of whatever the
      rest leaves; the rest then starts with at most one backtick. */
  lemma TicksAfterTick(s: string)
    requires |s| >= 3 && s[..3] != FENCE && s[0] == '`'
    requires Ticks(DeleteAll(s[1..], FENCE)) == Ticks(s[1..]) % 3
    ensures Ticks(DeleteAll(s, FENCE)) == Ticks(s) % 3
  {
    var s1 := s[1..];
    var s2 := s1[1..];
    assert s[..3] == [s[0], s[1], s[2]];
    assert s1[0] == s[1] && s2[0] == s[2];
    var tail := Ticks(s1);
    assert tail <= 1 by {
      if s1[0] == '`' {
        TicksCons(s1);
        assert s2[0] != '`';
      }
    }
    SmallMod3(tail);
    SmallMod3(1 + tail);
    var rest := DeleteAll(s1, FENCE);
    assert Ticks(rest) == tail;
    var r := [s[0]] + rest;
    assert DeleteAll(s, FENCE) == r;
    assert r[1..] == rest;
    TicksCons(r);
    TicksCons(s);
  }

  /** After deleting every "```" from left to right, none is left: the deletions leave
      fewer than three backticks of each run, and separate runs stay separate. */
  lemma {:induction false} DeleteFenceClean(s: string)
    ensures !Occurs(DeleteAll(s, FENCE), FENCE)
    decreases |s|
  {
    var r := DeleteAll(s, FENCE);
    if |s| < 3 {
      assert |r| < 3;
    } else if s[..3] == FENCE {
      DeleteFenceClean(s[3..]);
    } else {
      var rest := DeleteAll(s[1..], FENCE);
      DeleteFenceClean(s[1..]);
      assert r == [s[0]] + rest;
      forall i | 0 <= i <= |r| ensures !OccursAt(r, FENCE, i) {
        if i == 0 {
          if s[0] == '`' && |rest| >= 2 && rest[0] == '`' {
            TicksAfterDelete(s[1..]);
            assert s[1..][1..] == s[2..];
            assert Ticks(s[1..]) <= 1;
            assert rest[1..][0] == rest[1];
            assert rest[1] != '`';
          }
        } else if i + 3 <= |r| {
          assert r[i..i + 3] == rest[i - 1..i + 2];
          assert !OccursAt(rest, FENCE, i - 1);
        }
      }
    }
  }

  /** An occurrence inside a slice is an occurrence in the whole string. */
  lemma OccursInSlice(s: string, pat: string, i: int, j: int)
    requires 0 <= i <= j <= |s| && Occurs(s[i..j], pat)
    ensures Occurs(s, pat)
  {
    var t := s[i..j];
    var k :| 0 <= k <= |t| && OccursAt(t, pat, k);
    assert forall m :: 0 <= m < |pat| ==> s[i + k + m] == t[k + m] == pat[m];
    assert s[i + k..i + k + |pat|] == pat;
    assert OccursAt(s, pat, i + k);
  }

  /** The cleaned text contains no triple backtick. */
  lemma CleanFenceNoFence(t: string)
    ensures !Occurs(CleanFence(t), FENCE)
  {
    var d := DeleteAll(DeleteAll(t, FENCE_JSON), FENCE);
    DeleteFenceClean(DeleteAll(t, FENCE_JSON));
    var i, j :| 0 <= i <= j <= |d| && CleanFence(t) == d[i..j];
    if Occurs(d[i..j], FENCE) {
      OccursInSlice(d, FENCE, i, j);
    }
  }

  /** Text free of "```" is free of "```json". */
  lemma NoFenceNoFenceJson(x: string)
    requires !Occurs(x, FENCE)
    ensures !Occurs(x, FENCE_JSON)
  {
    forall i | 0 <= i <= |x| ensures !OccursAt(x, FENCE_JSON, i) {
      if i + 7 <= |x| {
        assert x[i..i + 3] == x[i..i + 7][..3];
        assert !OccursAt(x, FENCE, i);
      }
    }
  }

  /** Cleaning twice is cleaning once. */
  lemma CleanFenceIdempotent(t: string)
    ensures CleanFence(CleanFence(t)) == CleanFence(t)
  {
    var x := CleanFence(t);
    CleanFenceNoFence(t);
    NoFenceNoFenceJson(x);
    DeleteAbsent(x, FENCE_JSON);
    DeleteAbsent(x, FENCE);
    TrimOfTrimmed(x);
  }

  // ---------------------------------------------------------------------------------
  // Enrichment of one article

  /** `procesarArticuloGemini`, given the reply to its request and the JSON reading of a
      text (`JSONObject(..)` and its three `getString`s, `None` when any of them throws).
      The answer is a rewrite exactly when the reply was a 2xx with a first text whose
      cleaned form parses; the parser only ever sees fence-free text. */
  function ProcesarArticuloGemini(reply: GeminiReply, parse: string -> Option<Enrichment>): (r: GeminiResult)
    ensures r.Enriched? <==>
      reply.GeminiResponse? && reply.successful && FirstText(reply.body).Some? &&
      parse(CleanFence(FirstText(reply.body).value)).Some?
    ensures r.Enriched? ==> r.value == parse(CleanFence(FirstText(reply.body).value)).value
    ensures r.Enriched? ==> exists t :: !Occurs(t, FENCE) && parse(t) == Some(r.value)
    ensures reply.GeminiThrew? ==> r == Failed(CallFailed)
    ensures reply.GeminiResponse? && !reply.successful ==> r == Failed(HttpError(reply.code))
    ensures reply.GeminiResponse? && reply.successful && FirstText(reply.body).None? ==> r == Failed(SinRespuesta)
    ensures (reply.GeminiResponse? && reply.successful && FirstText(reply.body).Some? &&
             parse(CleanFence(FirstText(reply.body).value)).None?) ==> r == Failed(BadJson)
  {
    match reply
    case GeminiThrew => Failed(CallFailed)
    case GeminiResponse(successful, code, body) =>
      if !successful then Failed(HttpError(code))
      else match FirstText(body)
        case None => Failed(SinRespuesta)
        case Some(text) =>
          CleanFenceNoFence(text);
          match parse(CleanFence(text))
          case None => Failed(BadJson)
          case Some(e) => Enriched(e)
  }

  /** The row built for an enriched article. */
  function EnrichedRow(a: Article, e: Enrichment, idUsuario: int): Noticia {
    Noticia(UNASSIGNED, idUsuario, e.titulo, e.resumen, PlaceholderImage, a.urlToImage,
            NullableToString(a.url), e.categoria, false, false)
  }

  /** The body of the `mapNotNull` lambda: the row, or null when the call failed. */
  function BuildRow(p: (Article, GeminiReply), parse: string -> Option<Enrichment>, idUsuario: int): Option<Noticia> {
    match ProcesarArticuloGemini(p.1, parse)
    case Enriched(e) => Some(EnrichedRow(p.0, e, idUsuario))
    case Failed(_) => None
  }

  function RowBuilder(parse: string -> Option<Enrichment>, idUsuario: int): ((Article, GeminiReply)) -> Option<Noticia> {
    (p: (Article, GeminiReply)) => BuildRow(p, parse, idUsuario)
  }

  /** The pairs whose reply yields a rewrite. */
  function Enriches(parse: string -> Option<Enrichment>): ((Article, GeminiReply)) -> bool {
    (p: (Article, GeminiReply)) => ProcesarArticuloGemini(p.1, parse).Enriched?
  }

  /** The batch built from the articles; `replies[i]` answers the request for article `i`. */
  function EnrichAll(arts: seq<Article>, replies: seq<GeminiReply>, parse: string -> Option<Enrichment>, idUsuario: int): seq<Noticia>
    requires |arts| == |replies|
  {
    MapNotNull(Zip(arts, replies), RowBuilder(parse, idUsuario))
  }

  /** Row owner, flags, image and key are fixed by the repository, the remote image and
      source link come from an article, and there are never more rows than articles. */
  lemma EnrichAllRows(arts: seq<Article>, replies: seq<GeminiReply>, parse: string -> Option<Enrichment>, idUsuario: int)
    requires |arts| == |replies|
    ensures |EnrichAll(arts, replies, parse, idUsuario)| <= |arts|
    ensures forall n :: n in EnrichAll(arts, replies, parse, idUsuario) ==>
      n.owner == idUsuario && !n.liked && !n.saved && n.imagenId == PlaceholderImage && n.id == UNASSIGNED &&
      exists a :: a in arts && n.imagenUrl == a.urlToImage && n.fuenteUrl == NullableToString(a.url)
  {
    var z := Zip(arts, replies);
    var r := EnrichAll(arts, replies, parse, idUsuario);
    forall n | n in r
      ensures n.owner == idUsuario && !n.liked && !n.saved && n.imagenId == PlaceholderImage && n.id == UNASSIGNED
      ensures exists a :: a in arts && n.imagenUrl == a.urlToImage && n.fuenteUrl == NullableToString(a.url)
    {
      var p :| p in z && RowBuilder(parse, idUsuario)(p) == Some(n);
      var i :| 0 <= i < |z| && z[i] == p;
      assert p.0 == arts[i];
      BuiltRowShape(p, parse, idUsuario, n);
    }
  }

  /** A built row carries the repository's fixed fields and the article's links. */
  lemma BuiltRowShape(p: (Article, GeminiReply), parse: string -> Option<Enrichment>, idUsuario: int, n: Noticia)
    requires BuildRow(p, parse, idUsuario) == Some(n)
    ensures n.owner == idUsuario && !n.liked && !n.saved && n.imagenId == PlaceholderImage && n.id == UNASSIGNED
    ensures n.imagenUrl == p.0.urlToImage && n.fuenteUrl == NullableToString(p.0.url)
  {
  }

  /** The rows are, in order, the rows of the articles whose rewrite succeeded. */
  lemma EnrichAllOrder(arts: seq<Article>, replies: seq<GeminiReply>, parse: string -> Option<Enrichment>, idUsuario: int)
    requires |arts| == |replies|
    ensures var kept := Filter(Zip(arts, replies), Enriches(parse));
      && IsSubsequence(kept, Zip(arts, replies))
      && |EnrichAll(arts, replies, parse, idUsuario)| == |kept|
      && forall j :: 0 <= j < |kept| ==>
           ProcesarArticuloGemini(kept[j].1, parse).Enriched? &&
           EnrichAll(arts, replies, parse, idUsuario)[j] ==
             EnrichedRow(kept[j].0, ProcesarArticuloGemini(kept[j].1, parse).value, idUsuario)
  {
    var z := Zip(arts, replies);
    var f := RowBuilder(parse, idUsuario);
    MapNotNullIsFilterThenMap(z, f);
    FilterIsSubsequence(z, Enriches(parse));
    assert Filter(z, Enriches(parse)) == Filter(z, Defined(f)) by {
      FilterSamePredicate(z, Enriches(parse), Defined(f));
    }
  }

  /** Two predicates that agree on every element filter alike. */
  lemma {:induction false} FilterSamePredicate<T(!new)>(s: seq<T>, p: T -> bool, q: T -> bool)
    requires forall x :: x in s ==> p(x) == q(x)
    ensures Filter(s, p) == Filter(s, q)
  {
    if s != [] {
      FilterSamePredicate(s[1..], p, q);
    }
  }

  /** An article whose rewrite fails is dropped, so the batch is shorter than the list. */
  lemma EnrichAllDrops(arts: seq<Article>, replies: seq<GeminiReply>, parse: string -> Option<Enrichment>, idUsuario: int, k: nat)
    requires |arts| == |replies| && k < |arts|
    requires ProcesarArticuloGemini(replies[k], parse).Failed?
    ensures |EnrichAll(arts, replies, parse, idUsuario)| < |arts|
  {
    var z := Zip(arts, replies);
    var f := RowBuilder(parse, idUsuario);
    MapNotNullIsFilterThenMap(z, f);
    assert !Defined(f)(z[k]);
    FilterDrops(z, Defined(f), k);
  }

  /** When every rewrite succeeds, article `i` becomes row `i`. */
  lemma EnrichAllKeepsAll(arts: seq<Article>, replies: seq<GeminiReply>, parse: string -> Option<Enrichment>, idUsuario: int)
    requires |arts| == |replies|
    requires forall i :: 0 <= i < |replies| ==> ProcesarArticuloGemini(replies[i], parse).Enriched?
    ensures |EnrichAll(arts, replies, parse, idUsuario)| == |arts|
    ensures forall i :: 0 <= i < |arts| ==>
      EnrichAll(arts, replies, parse, idUsuario)[i] ==
        EnrichedRow(arts[i], ProcesarArticuloGemini(replies[i], parse).value, idUsuario)
  {
    var z := Zip(arts, replies);
    var f := RowBuilder(parse, idUsuario);
    MapNotNullIsFilterThenMap(z, f);
    forall x | x in z ensures Defined(f)(x) {
      var i :| 0 <= i < |z| && z[i] == x;
    }
    FilterKeepsAll(z, Defined(f));
  }

  // ---------------------------------------------------------------------------------
  // The repository

  /** The batch `getHeadlines` builds: empty when there is no body to read. */
  function Batch(outcome: NewsOutcome, replies: seq<GeminiReply>, parse: string -> Option<Enrichment>, idUsuario: int): seq<Noticia>
    requires HasBody(outcome) ==> |replies| == |outcome.body.value|
  {
    if HasBody(outcome) then EnrichAll(outcome.body.value, replies, parse, idUsuario) else []
  }

  class NewsRepository {
    const noticiaDao: NoticiaStore.NoticiaDao

    constructor (dao: NoticiaStore.NoticiaDao)
      ensures noticiaDao == dao
    {
      noticiaDao := dao;
    }

    /** `getHeadlines(countryCode, pageNumber, idUsuario)` collected once. `outcome` is
        the news API call, `replies` the Gemini call made for each article, `parse` the
        JSON reading and `users` the user ids in the database. The table changes only
        by the insert of the emitted batch, and that insert comes before the `Success`. */
    method GetHeadlines(outcome: NewsOutcome, replies: seq<GeminiReply>, parse: string -> Option<Enrichment>,
                        idUsuario: int, users: set<int>) returns (events: seq<Resource<seq<Noticia>>>)
      requires noticiaDao.Valid()
      requires HasBody(outcome) ==> |replies| == |outcome.body.value|
      modifies noticiaDao
      ensures noticiaDao.Valid()
      ensures events == Sync(outcome, Batch(outcome, replies, parse, idUsuario), users).events
      ensures var w := Sync(outcome, Batch(outcome, replies, parse, idUsuario), users).written;
        noticiaDao.State() == if w.Some? then NoticiaStore.InsertAll(old(noticiaDao.State()), w.value)
                              else old(noticiaDao.State())
    {
      events := Collect(noticiaDao, outcome, Batch(outcome, replies, parse, idUsuario), users);
    }

    /** `getSavedNews`: the DAO's saved rows. */
    function GetSavedNews(): (r: seq<Noticia>)
      reads noticiaDao
      ensures forall n :: n in r <==> n in noticiaDao.rows && n.saved
      ensures IsSubsequence(r, noticiaDao.rows)
    {
      noticiaDao.GetGuardadas()
    }

    /** `updateNews`: the DAO's update; `ok` is false when the foreign key rejects it. */
    method UpdateNews(n: Noticia, users: set<int>) returns (ok: bool)
      requires noticiaDao.Valid()
      modifies noticiaDao
      ensures noticiaDao.Valid()
      ensures ok == (n.id !in NoticiaStore.Contents(old(noticiaDao.State())) || n.owner in users)
      ensures noticiaDao.State() == if ok then NoticiaStore.Update(old(noticiaDao.State()), n) else old(noticiaDao.State())
    {
      ok := noticiaDao.ActualizarNoticia(n, users);
    }

    /** `deleteNews`: the DAO's delete by key. */
    method DeleteNews(n: Noticia)
      requires noticiaDao.Valid()
      modifies noticiaDao
      ensures noticiaDao.Valid()
      ensures noticiaDao.State() == NoticiaStore.Delete(old(noticiaDao.State()), n)
    {
      noticiaDao.EliminarNoticia(n);
    }

    /** `getAllNews`: every row. */
    function GetAllNews(): (r: seq<Noticia>)
      reads noticiaDao
      ensures r == noticiaDao.rows
    {
      noticiaDao.GetTodas()
    }

    /** `isNewsDatabaseEmpty`: the table holds no key at all. */
    function IsNewsDatabaseEmpty(): (r: bool)
      reads noticiaDao
      requires noticiaDao.Valid()
      ensures r <==> NoticiaStore.Contents(noticiaDao.State()) == map[]
      ensures r <==> noticiaDao.rows == []
    {
      NoticiaStore.EmptyIffNoRows(noticiaDao.State());
      noticiaDao.ContarNoticias() == 0
    }
  }
}
