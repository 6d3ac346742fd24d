# SummaryNews, modelled in Dafny

SummaryNews is an Android news reader. After signing in, a user sees headlines fetched from
a news API. The newer repository has each headline rewritten and categorised by a Gemini
model. The user can like and save rows, filter the home list by category, list their saved
rows, and read statistics on their likes. This project models the deterministic core of
the app and proves what that core promises:

- **The `noticias` table** (`NoticiaEntity`, `NoticiaDao`). The state is the rows in key
  order plus the AUTOINCREMENT counter, read by key through a map.
  - A row with id 0 gets the next key.
  - `insertarNoticias` replaces on a key conflict.
  - Update and delete act by key.
  - The foreign key to `usuarios` and its `ON DELETE CASCADE` are modelled too.
  - The DAO is a class whose methods change its fields.
- **The `usuarios` table** (`UsuarioDao`). Insertion gives a fresh key, and the model has
  the lookups by credentials, by email and by id, plus `LIMIT 1`.
- **The headline flow in both repository revisions.**
  - The events (`Loading`, `Success(rows)`, `Error(message)`) are a sequence, and so is the
    batch written to the table.
  - Inputs abstract the network: the news API outcome, one Gemini reply per article, and a
    JSON parse function.
  - The Gemini reply's fence cleaner is modelled as a pure string function.
- **`NoticiasViewModel`**: the page counter and the `onComplete` rule of the collector.
- **`LoginViewModel`**: sign-in and registration against the user table.
- **The registration screen**: the ordered validation chain, with a hand-written
  recogniser for its email pattern and a proof that it accepts exactly what the pattern
  matches, plus the session the screen saves.
- **The list logic of the home, saved and liked screens and of the news adapter**: the
  category filter, the per-user filters, the like statistics, the toggled copies and the
  reversed list.
- **`MainActivity` and `SesionManager`**: the session logic over `SharedPreferences`,
  modelled as a map of named files of typed values.

Modules follow the source files. `KeyedTable`, `Lists`, `KotlinText`, `Wrappers` and
`Preferences` are shared helpers for keyed rows, list operations, the Kotlin string
functions the app uses, `Option`, and Android preferences.

Input and output are parameters:

| Real-world input | Parameter |
|---|---|
| News API call | `NewsOutcome` (threw, or responded with a success flag, message and nullable body) |
| Gemini call per article | `GeminiReply` |
| `org.json` reading | `parse: string -> Option<Enrichment>` |
| User ids the foreign key accepts | `users: set<int>` |

Observer delivery (LiveData, Flow) is modelled as a method that the observer's owner calls.

## Model

| member | source | states |
|---|---|---|
| Entities.CascadeDelete | app/src/main/java/com/example/summarynews/db/NoticiaEntity.kt:9-13 | Deleting a user keeps exactly the rows of the other users, in order, and the foreign key still holds for the remaining users |
| Entities.CascadeDeleteByKey | app/src/main/java/com/example/summarynews/db/NoticiaEntity.kt:13 | Seen by key, the cascade drops every key of the deleted user's rows and keeps every other key with its row |
| KeyedTable.UpsertSpec | app/src/main/java/com/example/summarynews/db/NoticiaDao.kt:76-82 | A REPLACE insert maps the row's key to the row and keeps every other key's row; keys stay strictly increasing |
| KeyedTable.ReplaceSpec | app/src/main/java/com/example/summarynews/db/NoticiaDao.kt:84-89 | An update by key replaces the row with that key if there is one and otherwise changes nothing |
| KeyedTable.RemoveSpec | app/src/main/java/com/example/summarynews/db/NoticiaDao.kt:54-59 | A delete by key removes exactly that key; every other key keeps its row |
| NoticiaStore.InsertOne | app/src/main/java/com/example/summarynews/db/NoticiaDao.kt:76-82 | Reference definition of one REPLACE insert into the keyed table (id 0 takes the counter value); its behaviour is stated by `InsertOneSpec` and `InsertOneCounter` |
| NoticiaStore.InsertAll | app/src/main/java/com/example/summarynews/db/NoticiaDao.kt:76-82 | Reference definition of the batch insert as one insert per row, in list order; its behaviour is stated by `InsertAllInv`, `InsertAllUntouched`, `InsertAllLastWins`, `InsertAllGrows`, `InsertAllFresh` and `InsertAllOwners` |
| NoticiaStore.InsertOneSpec | app/src/main/java/com/example/summarynews/db/NoticiaDao.kt:76-82 | One insert stores the row under its own id, or under the next counter value when its id is 0, replacing any row there; everything else is unchanged; an id-0 row gets a key no row had |
| NoticiaStore.InsertOneCounter | app/src/main/java/com/example/summarynews/db/NoticiaEntity.kt:17 | Inserting an unassigned row moves the AUTOINCREMENT counter on by exactly one |
| NoticiaStore.InsertAllInv | app/src/main/java/com/example/summarynews/db/NoticiaDao.kt:76-82 | After a batch insert, keys are still unique and ordered, no row is unassigned, and the counter never goes back |
| NoticiaStore.InsertAllUntouched | app/src/main/java/com/example/summarynews/db/NoticiaDao.kt:76-82 | A stored row whose key no batch row names is still stored, unchanged, after the batch |
| NoticiaStore.InsertAllLastWins | app/src/main/java/com/example/summarynews/db/NoticiaDao.kt:76-82 | A batch row with an explicit key ends up stored under that key, fully replacing the old row, unless a later batch row has the same key |
| NoticiaStore.InsertAllGrows | app/src/main/java/com/example/summarynews/db/NoticiaEntity.kt:17 | A batch of n unassigned rows adds exactly n rows and moves the counter on by n |
| NoticiaStore.InsertAllFresh | app/src/main/java/com/example/summarynews/db/NoticiaEntity.kt:17 | In a batch of unassigned rows, row i is stored under counter + i, with that id |
| NoticiaStore.InsertAllOwners | app/src/main/java/com/example/summarynews/db/NoticiaEntity.kt:9-12 | Inserting rows owned by users keeps every row's owner a user |
| NoticiaStore.Update | app/src/main/java/com/example/summarynews/db/NoticiaDao.kt:84-89 | Reference definition of `UPDATE ... WHERE id = n.id`; stated by `UpdateSpec` and `UpdateOwners` |
| NoticiaStore.UpdateSpec | app/src/main/java/com/example/summarynews/db/NoticiaDao.kt:84-89 | An update replaces the row with the given key and nothing else; with no row under that key the table is unchanged |
| NoticiaStore.UpdateOwners | app/src/main/java/com/example/summarynews/db/NoticiaEntity.kt:9-12 | An update whose row is owned by a user keeps the foreign key |
| NoticiaStore.Delete | app/src/main/java/com/example/summarynews/db/NoticiaDao.kt:54-59 | Reference definition of delete by key; stated by `DeleteSpec` |
| NoticiaStore.DeleteSpec | app/src/main/java/com/example/summarynews/db/NoticiaDao.kt:54-59 | A delete removes only the given key; deleting an absent key leaves the table unchanged |
| NoticiaStore.CountOwned | app/src/main/java/com/example/summarynews/db/NoticiaDao.kt:68-74 | The per-user count equals the number of rows the user owns, each row counted as often as it occurs (the `Filter` by owner). So it is at most the number of rows, zero exactly when the user owns no row, and all of them exactly when the user owns every row |
| NoticiaStore.EmptyIffNoRows | app/src/main/java/com/example/summarynews/db/NoticiaDao.kt:61-66 | The table has no key exactly when it has no row |
| NoticiaStore.NoticiaDao.GetTodas | app/src/main/java/com/example/summarynews/db/NoticiaDao.kt:17-30 | Every row of every user, in key order, with no owner filter |
| NoticiaStore.NoticiaDao.GetGuardadas | app/src/main/java/com/example/summarynews/db/NoticiaDao.kt:33-44 | Exactly the saved rows of all users, in key order |
| NoticiaStore.NoticiaDao.GetPorCategoria | app/src/main/java/com/example/summarynews/db/NoticiaDao.kt:46-52 | Exactly the rows whose category equals the argument, in key order |
| NoticiaStore.NoticiaDao.ContarNoticias | app/src/main/java/com/example/summarynews/db/NoticiaDao.kt:61-66 | The total count is the number of distinct stored keys |
| NoticiaStore.NoticiaDao.ContarNoticiasPorUsuario | app/src/main/java/com/example/summarynews/db/NoticiaDao.kt:68-74 | The count equals the number of stored rows the user owns; it never exceeds the total and is zero exactly when the user owns no row |
| NoticiaStore.NoticiaDao.InsertarNoticias | app/src/main/java/com/example/summarynews/db/NoticiaDao.kt:76-82 | The batch is inserted row after row with REPLACE when every owner is a user; otherwise the insert fails and nothing is written |
| NoticiaStore.NoticiaDao.ActualizarNoticia | app/src/main/java/com/example/summarynews/db/NoticiaDao.kt:84-89 | The row with the given key is replaced; it fails and changes nothing only when that row exists and the new owner is not a user |
| NoticiaStore.NoticiaDao.EliminarNoticia | app/src/main/java/com/example/summarynews/db/NoticiaDao.kt:54-59 | The table afterwards is the table without the given key |
| UsuarioStore.AddUserSpec | app/src/main/java/com/example/summarynews/db/UsuarioDao.kt:22-23 | Storing a user under a free key adds exactly that user under that key and one row |
| UsuarioStore.InsertUserSpec | app/src/main/java/com/example/summarynews/db/UsuarioDao.kt:22-23 | An insert fails only on an explicit, already-taken id; otherwise it adds exactly one user under a key no user had (the counter for id 0) and returns that key |
| UsuarioStore.UsuarioDao.Insertar | app/src/main/java/com/example/summarynews/db/UsuarioDao.kt:17-23 | Adds one user and returns the new row id (the old counter for an unassigned user); fails and changes nothing on a taken id |
| UsuarioStore.UsuarioDao.Login | app/src/main/java/com/example/summarynews/db/UsuarioDao.kt:25-33 | Returns a stored user whose email and password both equal the arguments; null exactly when no user has both |
| UsuarioStore.UsuarioDao.GetByEmail | app/src/main/java/com/example/summarynews/db/UsuarioDao.kt:43-49 | Returns a stored user with that email; null exactly when none has it (emails need not be unique) |
| UsuarioStore.UsuarioDao.GetById | app/src/main/java/com/example/summarynews/db/UsuarioDao.kt:51-57 | Returns the user stored under that id, or null when the id is not a key |
| UsuarioStore.UsuarioDao.ObtenerPrimerUsuario | app/src/main/java/com/example/summarynews/db/UsuarioDao.kt:35-41 | Null exactly when the table is empty; otherwise a stored user with the smallest key |
| NewsSync.Sync | app/src/main/java/com/example/summarynews/newsAPI/NewsRepository.kt:25-64 | Reference definition of the events `getHeadlines` emits and the batch it writes for one reply outcome; stated by `SyncShape`, and `Collect` is proved against it |
| NewsSync.SyncShape | app/src/main/java/com/example/summarynews/newsAPI/NewsRepository.kt:25-63 | `Loading` is emitted first, and only first; at most one more event follows. `Success(b)` is emitted exactly when `b` was written, and a batch is written exactly for a successful reply with a body whose owners are users. A null body emits only `Loading`, a failed reply gives `Error(message)`, and an exception gives the generic error |
| NewsSync.Collect | app/src/main/java/com/example/summarynews/newsAPI/NewsRepository.kt:26-62 | Emits the events of the flow; the table changes by the insert of the written batch, made before `Success` is emitted, and in no other way |
| NewsApiRepository.Ticks | app/src/main/java/com/example/summarynews/newsAPI/NewsRepository.kt:116-119 | The number of leading backticks, never more than the text's length |
| NewsApiRepository.TicksAfterDelete | app/src/main/java/com/example/summarynews/newsAPI/NewsRepository.kt:118 | Deleting every triple backtick leaves a leading run of backticks whose length is the original run's length mod 3 |
| NewsApiRepository.DeleteFenceClean | app/src/main/java/com/example/summarynews/newsAPI/NewsRepository.kt:118 | After all triple backticks are deleted left to right, no triple backtick is left |
| NewsApiRepository.CleanFence | app/src/main/java/com/example/summarynews/newsAPI/NewsRepository.kt:116-119 | Reference definition of the cleaning of the reply text (remove "```json", then "```", then trim); stated by `CleanFenceNoFence`, `NoFenceNoFenceJson` and `CleanFenceIdempotent` |
| NewsApiRepository.CleanFenceNoFence | app/src/main/java/com/example/summarynews/newsAPI/NewsRepository.kt:116-119 | The cleaned reply text contains no triple backtick |
| NewsApiRepository.NoFenceNoFenceJson | app/src/main/java/com/example/summarynews/newsAPI/NewsRepository.kt:117-118 | Text free of "```" is also free of "```json", so the first deletion has nothing left to do on cleaned text |
| NewsApiRepository.CleanFenceIdempotent | app/src/main/java/com/example/summarynews/newsAPI/NewsRepository.kt:116-119 | Cleaning twice gives the same text as cleaning once |
| NewsApiRepository.ProcesarArticuloGemini | app/src/main/java/com/example/summarynews/newsAPI/NewsRepository.kt:112-131 | A rewrite is returned exactly when the reply is a 2xx with a first candidate text whose cleaned form parses, and it is the parse of that cleaned first text. A thrown call, a non-2xx code (kept in the error), a missing text and a text that does not parse are the four separate failures. The parser only sees fence-free text |
| NewsApiRepository.BuildRow | app/src/main/java/com/example/summarynews/newsAPI/NewsRepository.kt:33-52 | Reference definition of the `mapNotNull` lambda: a row from an enriched article, null otherwise; stated by `BuiltRowShape` |
| NewsApiRepository.EnrichAll | app/src/main/java/com/example/summarynews/newsAPI/NewsRepository.kt:32-53 | Reference definition of the batch the Gemini revision builds; stated by `EnrichAllRows`, `EnrichAllOrder`, `EnrichAllDrops` and `EnrichAllKeepsAll` |
| NewsApiRepository.EnrichAllRows | app/src/main/java/com/example/summarynews/newsAPI/NewsRepository.kt:32-53 | Never more rows than articles. Every row belongs to `idUsuario`, is neither liked nor saved, has the placeholder image and no key, and takes its image URL and link from an article |
| NewsApiRepository.BuiltRowShape | app/src/main/java/com/example/summarynews/newsAPI/NewsRepository.kt:38-48 | A row built from an enriched article has the repository's fixed owner, flags, image and key, and that article's image URL and link |
| NewsApiRepository.EnrichAllOrder | app/src/main/java/com/example/summarynews/newsAPI/NewsRepository.kt:32-53 | The rows are, in order, those of the articles whose rewrite succeeded, each built from its article and its rewrite |
| NewsApiRepository.EnrichAllDrops | app/src/main/java/com/example/summarynews/newsAPI/NewsRepository.kt:49-52 | An article whose rewrite fails is dropped, so the batch is shorter than the article list |
| NewsApiRepository.EnrichAllKeepsAll | app/src/main/java/com/example/summarynews/newsAPI/NewsRepository.kt:32-53 | When every rewrite succeeds, article i becomes row i |
| NewsApiRepository.NewsRepository.GetHeadlines | app/src/main/java/com/example/summarynews/newsAPI/NewsRepository.kt:25-64 | The flow emits exactly the events of the sync rule over the enriched batch; the table changes only by that batch's insert |
| NewsApiRepository.NewsRepository.GetSavedNews | app/src/main/java/com/example/summarynews/newsAPI/NewsRepository.kt:68 | Exactly the saved rows of the table, in key order |
| NewsApiRepository.NewsRepository.UpdateNews | app/src/main/java/com/example/summarynews/newsAPI/NewsRepository.kt:71-73 | The DAO update with its foreign-key failure case |
| NewsApiRepository.NewsRepository.DeleteNews | app/src/main/java/com/example/summarynews/newsAPI/NewsRepository.kt:76-78 | The DAO delete by key |
| NewsApiRepository.NewsRepository.GetAllNews | app/src/main/java/com/example/summarynews/newsAPI/NewsRepository.kt:81 | Every stored row |
| NewsApiRepository.NewsRepository.IsNewsDatabaseEmpty | app/src/main/java/com/example/summarynews/newsAPI/NewsRepository.kt:84-86 | True exactly when the table holds no row |
| ApiRepository.PlainRow | app/src/main/java/com/example/summarynews/api/NewsRepository.kt:25-35 | Reference definition of the row built from one article; stated by `PlainRowsShape` |
| ApiRepository.PlainRows | app/src/main/java/com/example/summarynews/api/NewsRepository.kt:24-36 | Reference definition of the `map` over the articles; stated by `PlainRowsShape` and `RevisionsAgree` |
| ApiRepository.PlainRowsShape | app/src/main/java/com/example/summarynews/api/NewsRepository.kt:24-36 | One row per article, in order, nothing dropped. Each row copies its article's title, description, link and image URL, has category "", is neither liked nor saved, and belongs to the given owner |
| ApiRepository.RevisionsAgree | app/src/main/java/com/example/summarynews/api/NewsRepository.kt:24-36 | When every rewrite succeeds, both revisions store the same number of rows in the same order, differing row by row only in text, category and bundled image |
| ApiRepository.NewsRepository.GetHeadlines | app/src/main/java/com/example/summarynews/api/NewsRepository.kt:18-46 | Emits the sync rule's events over the rows of all articles, owned by `idUsuario`; the table changes only by the insert of the `Success` batch |
| ApiRepository.NewsRepository.SearchNews | app/src/main/java/com/example/summarynews/api/NewsRepository.kt:48-76 | The same flow, with every row owned by user 1 whoever asks |
| ApiRepository.NewsRepository.GetSavedNews | app/src/main/java/com/example/summarynews/api/NewsRepository.kt:80 | Exactly the saved rows of the table, in key order |
| ApiRepository.NewsRepository.UpdateNews | app/src/main/java/com/example/summarynews/api/NewsRepository.kt:83-85 | The DAO update with its foreign-key failure case |
| ApiRepository.NewsRepository.DeleteNews | app/src/main/java/com/example/summarynews/api/NewsRepository.kt:88-90 | The DAO delete by key |
| ApiRepository.NewsRepository.GetAllNews | app/src/main/java/com/example/summarynews/api/NewsRepository.kt:93 | Every stored row |
| ApiRepository.NewsRepository.IsNewsDatabaseEmpty | app/src/main/java/com/example/summarynews/api/NewsRepository.kt:96-98 | The global count is zero exactly when no row, and no key, is stored |
| NoticiasVm.Successes | app/src/main/java/com/example/summarynews/ui/noticias/NoticiasViewModel.kt:52-54 | The number of `Success` events never exceeds the number of events |
| NoticiasVm.Completions | app/src/main/java/com/example/summarynews/ui/noticias/NoticiasViewModel.kt:52-58 | The number of events that call `onComplete` never exceeds the number of events |
| NoticiasVm.SuccessesComplete | app/src/main/java/com/example/summarynews/ui/noticias/NoticiasViewModel.kt:52-58 | Every success also completes, and events that are all `Loading` complete nothing |
| NoticiasVm.PageRule | app/src/main/java/com/example/summarynews/ui/noticias/NoticiasViewModel.kt:52-58 | Per flow, the page advances by one exactly when a batch was stored. `onComplete` runs once, except after a successful reply with no body, where it never runs |
| NoticiasVm.NoticiasViewModel.constructor | app/src/main/java/com/example/summarynews/ui/noticias/NoticiasViewModel.kt:32 | The page counter starts at 1, with nothing shown and no completion yet |
| NoticiasVm.NoticiasViewModel.CargarNuevasNoticias | app/src/main/java/com/example/summarynews/ui/noticias/NoticiasViewModel.kt:45-61 | Shows `Loading` first, then requests the current page and shows each event of the flow. The page advances once per `Success`, `onComplete` runs once per `Success` or `Error`, and the table changes only by the written batch |
| NoticiasVm.NoticiasViewModel.CollectHeadlines | app/src/main/java/com/example/summarynews/ui/noticias/NoticiasViewModel.kt:50-59 | After the collector, the shown values are the old ones followed by the events. The page advances by the number of successes, and the completion count grows by the number of successes and errors |
| NoticiasVm.NoticiasViewModel.ActualizarNoticia | app/src/main/java/com/example/summarynews/ui/noticias/NoticiasViewModel.kt:70-72 | The repository update, failing only on the foreign key |
| NoticiasVm.NoticiasViewModel.EliminarNoticia | app/src/main/java/com/example/summarynews/ui/noticias/NoticiasViewModel.kt:80-82 | The repository delete by key |
| NoticiasVm.NoticiasViewModel.NoticiasLength | app/src/main/java/com/example/summarynews/ui/noticias/NoticiasViewModel.kt:91-93 | Equals the DAO's per-user count, which is the number of stored rows the user owns: at most the total, and zero exactly when the user owns no row |
| NoticiasVm.NoticiasViewModel.Noticias | app/src/main/java/com/example/summarynews/ui/noticias/NoticiasViewModel.kt:29-30 | `noticias` is every stored row of every user |
| NoticiasVm.NoticiasViewModel.Guardadas | app/src/main/java/com/example/summarynews/ui/noticias/NoticiasViewModel.kt:28 | `guardadas` is exactly the saved rows of every user, in key order |
| LoginVm.LoginSpec | app/src/main/java/com/example/summarynews/ui/registro/LoginViewModel.kt:43-59 | Reference definition of the sign-in outcome; stated by `LoginSpecIff` and `RegisterThenLogin`, and `LoginViewModel.Login` is proved against it |
| LoginVm.RegistroSpec | app/src/main/java/com/example/summarynews/ui/registro/LoginViewModel.kt:78-105 | Reference definition of the registration outcome and new table; stated by `RegistroSpecAdds` and `RegisterTwiceFails`, and `LoginViewModel.InsertarUsuario` is proved against it |
| LoginVm.LoginSpecIff | app/src/main/java/com/example/summarynews/ui/registro/LoginViewModel.kt:43-59 | Sign-in succeeds exactly when neither field is blank and a user has both the email and the password; it reports such a user. Otherwise it reports the blank-field message or "Credenciales incorrectas." |
| LoginVm.RegistroSpecAdds | app/src/main/java/com/example/summarynews/ui/registro/LoginViewModel.kt:78-105 | Registration fails, with the table unchanged, exactly when a field is blank or the email is taken. Otherwise it adds exactly one user with the form's fields, under a new key, and reports that user |
| LoginVm.RegisterThenLogin | app/src/main/java/com/example/summarynews/ui/registro/LoginViewModel.kt:51-55 | Signing in right after a registration with the same email and password reports the user just registered |
| LoginVm.RegisterTwiceFails | app/src/main/java/com/example/summarynews/ui/registro/LoginViewModel.kt:86-90 | A second registration with the same email is refused, with "Este email ya está registrado" when its fields are not blank |
| LoginVm.LoginViewModel.Login | app/src/main/java/com/example/summarynews/ui/registro/LoginViewModel.kt:43-64 | Posts the sign-in result and sets the navigation flag only on success, leaving it unchanged otherwise; the table is only read |
| LoginVm.LoginViewModel.InsertarUsuario | app/src/main/java/com/example/summarynews/ui/registro/LoginViewModel.kt:78-110 | Posts the registration result and leaves the table as the registration rule says. It sets the navigation flag only on success; the read-back after the insert always finds the new user |
| LoginVm.LoginViewModel.ResetNavigateToInicio | app/src/main/java/com/example/summarynews/ui/registro/LoginViewModel.kt:118-120 | The navigation flag becomes false and the result is untouched |
| Registro.Span | app/src/main/java/com/example/summarynews/ui/registro/RegistroFragment.kt:74 | The greedy run of one character class of the pattern: every character in it is in the class, and the next one, if any, is not |
| Registro.SpanExact | app/src/main/java/com/example/summarynews/ui/registro/RegistroFragment.kt:74 | A run of class characters followed by a non-class character (or the end) has exactly that span |
| Registro.TailValidoIff | app/src/main/java/com/example/summarynews/ui/registro/RegistroFragment.kt:74 | The recogniser of `\.+[a-z]+` at the end accepts exactly what that part of the pattern matches |
| Registro.DomainValidoIff | app/src/main/java/com/example/summarynews/ui/registro/RegistroFragment.kt:74 | The recogniser of `[a-z]+\.+[a-z]+` accepts exactly what that part of the pattern matches |
| Registro.EmailValido | app/src/main/java/com/example/summarynews/ui/registro/RegistroFragment.kt:74-75 | The greedy recogniser for the email pattern; shown equal to the whole-string regex match by `EmailValidoIff` |
| Registro.EmailValidoIff | app/src/main/java/com/example/summarynews/ui/registro/RegistroFragment.kt:74-75 | The recogniser accepts a text exactly when the whole text matches `[a-zA-Z0-9._-]+@[a-z]+\.+[a-z]+` |
| Registro.EmailValidoMatches | app/src/main/java/com/example/summarynews/ui/registro/RegistroFragment.kt:74-75 | Every text the recogniser accepts matches the pattern |
| Registro.MatchesEmailValido | app/src/main/java/com/example/summarynews/ui/registro/RegistroFragment.kt:74-75 | Every text the pattern matches is accepted |
| Registro.EmailDomainLowercase | app/src/main/java/com/example/summarynews/ui/registro/RegistroFragment.kt:74 | An accepted email has exactly one "@", and after it only lowercase letters and dots |
| Registro.AcceptsPlainAddress | app/src/main/java/com/example/summarynews/ui/registro/RegistroFragment.kt:74-75 | "a.b@xy.es" is accepted |
| Registro.RejectsSecondLabel | app/src/main/java/com/example/summarynews/ui/registro/RegistroFragment.kt:74-75 | "x@a.b.c" is refused: only one run of dots may follow the domain's first label |
| Registro.RejectsUppercaseDomain | app/src/main/java/com/example/summarynews/ui/registro/RegistroFragment.kt:74-75 | "ana@Mail.com" is refused |
| Registro.RejectsDotlessDomain | app/src/main/java/com/example/summarynews/ui/registro/RegistroFragment.kt:74-75 | "ana@mail" is refused |
| Registro.ValidarRegistro | app/src/main/java/com/example/summarynews/ui/registro/RegistroFragment.kt:64-85 | Reference definition of the form checks; their order and outcomes are stated by `ValidarRegistroOrder` and `AcceptedFormSkipsBlankCheck` |
| Registro.ValidarRegistroOrder | app/src/main/java/com/example/summarynews/ui/registro/RegistroFragment.kt:64-85 | The checks run as blank, name length, email pattern, password length. Each message is reported exactly when its check fails and every earlier one passes, and the form is accepted exactly when all pass |
| Registro.AcceptedFormSkipsBlankCheck | app/src/main/java/com/example/summarynews/ui/registro/RegistroFragment.kt:85 | A form the button accepts never hits the view-model's blank-field refusal; it fails only on a taken email, and succeeds exactly when the email is new |
| Registro.SesionGuardadaReadBack | app/src/main/java/com/example/summarynews/ui/registro/RegistroFragment.kt:136-143 | After the session is saved, "SesionUsuario" reads back the user's email, id and name, and no other key or file changes |
| Registro.RegistroFragment.OnRegistrar | app/src/main/java/com/example/summarynews/ui/registro/RegistroFragment.kt:59-86 | A failing check shows its message and leaves the view-model and the table untouched. When all checks pass, the view-model registers the form: it posts the registration result, the table becomes the registration rule's, and the navigation flag is set to true exactly on success (otherwise it is kept) |
| Registro.RegistroFragment.GuardarSesion | app/src/main/java/com/example/summarynews/ui/registro/RegistroFragment.kt:136-143 | Writes the user's email, id and name to "SesionUsuario" |
| Registro.RegistroFragment.OnLoginResult | app/src/main/java/com/example/summarynews/ui/registro/RegistroFragment.kt:108-118 | A success saves the session, and an error shows its message and writes nothing |
| Inicio.FiltrarLista | app/src/main/java/com/example/summarynews/ui/inicio/InicioFragment.kt:156-161 | "Todas" keeps the list unchanged; any other category keeps exactly the rows with an equal category, each as often as in the list, in order |
| Inicio.FiltrarListaIdempotent | app/src/main/java/com/example/summarynews/ui/inicio/InicioFragment.kt:156-164 | Filtering again changes nothing, and the selection is empty exactly when the category is not "Todas" and no row has it |
| Inicio.Seed | app/src/main/java/com/example/summarynews/ui/inicio/InicioFragment.kt:67-118 | Four seed rows, all owned by the user, unassigned, not liked, not saved, with no remote image and the example link, with the four categories and images |
| Inicio.SeedOwners | app/src/main/java/com/example/summarynews/ui/inicio/InicioFragment.kt:67-119 | The seed rows satisfy the foreign key exactly when their owner is a user |
| Inicio.CargarIniciales | app/src/main/java/com/example/summarynews/ui/inicio/InicioFragment.kt:63-122 | Reference definition of seeding the four rows when the user owns none; stated by `CargarInicialesSpec`, `CargarInicialesFresh`, `CargarInicialesKeeps` and `CargarInicialesOnce` |
| Inicio.CargarInicialesSpec | app/src/main/java/com/example/summarynews/ui/inicio/InicioFragment.kt:63-122 | Seeding keeps the table well formed. It adds exactly four rows when the user owns none and is a user, and changes nothing otherwise |
| Inicio.CargarInicialesFresh | app/src/main/java/com/example/summarynews/ui/inicio/InicioFragment.kt:63-122 | A seeded user's i-th seed row is stored under the counter + i |
| Inicio.CargarInicialesKeeps | app/src/main/java/com/example/summarynews/ui/inicio/InicioFragment.kt:63-122 | Seeding leaves every earlier row under its key |
| Inicio.CargarInicialesOnce | app/src/main/java/com/example/summarynews/ui/inicio/InicioFragment.kt:63-122 | Seeding twice is seeding once |
| Inicio.ToggleUpdatesRow | app/src/main/java/com/example/summarynews/ui/inicio/InicioFragment.kt:127-132 | Liking or saving a stored row rewrites that key with the toggled copy and leaves every other key as it was |
| Inicio.InicioFragment.constructor | app/src/main/java/com/example/summarynews/ui/inicio/InicioFragment.kt:25-29 | The category starts as "Todas", with no user and no view model yet |
| Inicio.InicioFragment.FiltrarYActualizarLista | app/src/main/java/com/example/summarynews/ui/inicio/InicioFragment.kt:156-167 | The adapter shows the selection reversed, and the "no news" text is visible exactly when the selection is empty |
| Inicio.InicioFragment.FiltrarPorCategoriaDesdeActivity | app/src/main/java/com/example/summarynews/ui/inicio/InicioFragment.kt:149-154 | The category is stored, and the stored rows are refiltered only once the view model exists |
| Inicio.InicioFragment.OnNoticiasChanged | app/src/main/java/com/example/summarynews/ui/inicio/InicioFragment.kt:138-142 | Each new value of `noticias` (every stored row, no owner filter) is filtered and shown |
| Inicio.InicioFragment.OnViewCreated | app/src/main/java/com/example/summarynews/ui/inicio/InicioFragment.kt:39-61 | With no stored email or a user id of -1, nothing is loaded. Otherwise the user becomes current, an empty adapter is set up, and the seeding rule runs |
| Inicio.InicioFragment.CargarNoticiasIniciales | app/src/main/java/com/example/summarynews/ui/inicio/InicioFragment.kt:63-122 | The table afterwards is the seeding rule applied to the table before |
| Inicio.InicioFragment.OnLikeClicked | app/src/main/java/com/example/summarynews/ui/inicio/InicioFragment.kt:127-129 | The liked-toggled copy of the pressed row goes to the update, once the view model exists |
| Inicio.InicioFragment.OnSaveClicked | app/src/main/java/com/example/summarynews/ui/inicio/InicioFragment.kt:130-132 | The saved-toggled copy of the pressed row goes to the update, once the view model exists |
| Adaptador.ElegirImagen | app/src/main/java/com/example/summarynews/ui/noticias/AdaptadorNoticias.kt:98-106 | The remote image is used exactly when the URL is neither null nor empty; otherwise the row's bundled image is used |
| Adaptador.ToggleLike | app/src/main/java/com/example/summarynews/ui/noticias/AdaptadorNoticias.kt:156-157 | Reference definition of the copy with `liked` flipped; stated by `TogglesSpec` |
| Adaptador.ToggleSave | app/src/main/java/com/example/summarynews/ui/noticias/AdaptadorNoticias.kt:196-197 | Reference definition of the copy with `saved` flipped; stated by `TogglesSpec` |
| Adaptador.TogglesSpec | app/src/main/java/com/example/summarynews/ui/noticias/AdaptadorNoticias.kt:155-198 | Each button's copy flips its own flag and keeps every other field, the other flag included. Pressing twice restores the row, the two toggles commute, and neither changes the image |
| Adaptador.ReverseMembers | app/src/main/java/com/example/summarynews/ui/noticias/AdaptadorNoticias.kt:229 | The reversed list holds the same rows |
| Adaptador.AdaptadorNoticias.constructor | app/src/main/java/com/example/summarynews/ui/noticias/AdaptadorNoticias.kt:30-34 | The adapter shows the list it was created with |
| Adaptador.AdaptadorNoticias.ActualizarLista | app/src/main/java/com/example/summarynews/ui/noticias/AdaptadorNoticias.kt:228-231 | The stored list is the new one reversed: position i shows element n-1-i, with the same rows |
| Adaptador.AdaptadorNoticias.GetItemCount | app/src/main/java/com/example/summarynews/ui/noticias/AdaptadorNoticias.kt:217-219 | The item count is the stored list's length |
| Adaptador.AdaptadorNoticias.Bind | app/src/main/java/com/example/summarynews/ui/noticias/AdaptadorNoticias.kt:70-75 | Position i binds the i-th stored row and that row's image choice |
| Adaptador.AdaptadorNoticias.OnLikeClicked | app/src/main/java/com/example/summarynews/ui/noticias/AdaptadorNoticias.kt:155-158 | The row handed on has the same key, its `liked` negated, and every other field equal |
| Adaptador.AdaptadorNoticias.OnSaveClicked | app/src/main/java/com/example/summarynews/ui/noticias/AdaptadorNoticias.kt:195-198 | The row handed on has the same key, its `saved` negated, and every other field equal |
| Guardados.UsuarioIdActual | app/src/main/java/com/example/summarynews/ui/guardados/GuardadosFragment.kt:47 | With no stored user id the current user is -1 |
| Guardados.NoticiasGuardadas | app/src/main/java/com/example/summarynews/ui/guardados/GuardadosFragment.kt:99 | Exactly the saved rows owned by the current user, each as often as in the list, in list order |
| Guardados.Pantalla | app/src/main/java/com/example/summarynews/ui/guardados/GuardadosFragment.kt:99-104 | Reference definition of what the saved screen shows (the reversed selection and the empty-text flag); stated by `PantallaSpec` |
| Guardados.PantallaSpec | app/src/main/java/com/example/summarynews/ui/guardados/GuardadosFragment.kt:99-104 | The screen shows exactly the user's saved rows, and the empty text exactly when the user saved none |
| Guardados.SinSesionNadaGuardado | app/src/main/java/com/example/summarynews/ui/guardados/GuardadosFragment.kt:47 | With the -1 default, which no user has, nothing is shown from a table that keeps its foreign key |
| Guardados.DesguardarQuita | app/src/main/java/com/example/summarynews/ui/guardados/GuardadosFragment.kt:74-79 | After un-saving a stored saved row, no row with its key passes the filter on reload, and every other row passes as before |
| MeGusta.NoticiasLikes | app/src/main/java/com/example/summarynews/ui/meGusta/MeGustaFragment.kt:86 | Exactly the liked rows owned by the current user, each as often as in the list, in list order |
| MeGusta.Count | app/src/main/java/com/example/summarynews/ui/meGusta/MeGustaFragment.kt:93-94 | A category's count is zero exactly when it does not occur, and at most the list's length |
| MeGusta.Distinct | app/src/main/java/com/example/summarynews/ui/meGusta/MeGustaFragment.kt:93-94 | The grouping keys are the list's categories, each exactly once |
| MeGusta.Pairs | app/src/main/java/com/example/summarynews/ui/meGusta/MeGustaFragment.kt:94-95 | Each key is paired with its number of occurrences, in key order |
| MeGusta.SumEachCount | app/src/main/java/com/example/summarynews/ui/meGusta/MeGustaFragment.kt:93-95 | The counts per distinct category add up to the length of the list |
| MeGusta.Insert | app/src/main/java/com/example/summarynews/ui/meGusta/MeGustaFragment.kt:96 | One insertion step adds exactly the new pair, as a multiset, and its likes to the sum |
| MeGusta.InsertSorted | app/src/main/java/com/example/summarynews/ui/meGusta/MeGustaFragment.kt:96 | One insertion step keeps a list sorted from most to fewest likes |
| MeGusta.InsertKeysDistinct | app/src/main/java/com/example/summarynews/ui/meGusta/MeGustaFragment.kt:96 | Inserting a new category keeps categories distinct |
| MeGusta.SortByLikesDesc | app/src/main/java/com/example/summarynews/ui/meGusta/MeGustaFragment.kt:96 | The sort is a permutation of the pairs, sorted from most to fewest likes, with the same sum |
| MeGusta.SortKeysDistinct | app/src/main/java/com/example/summarynews/ui/meGusta/MeGustaFragment.kt:96 | Sorting never repeats a category |
| MeGusta.EachCountSpec | app/src/main/java/com/example/summarynews/ui/meGusta/MeGustaFragment.kt:93-95 | One pair per category of the rows, with its number of rows (at least one), adding up to the number of rows |
| MeGusta.LikesPorCategoria | app/src/main/java/com/example/summarynews/ui/meGusta/MeGustaFragment.kt:93-96 | Reference definition of `groupingBy`/`eachCount`/`sortedByDescending` over the liked rows; stated by `LikesPorCategoriaSpec` and `LikesEmptyIff` |
| MeGusta.TotalTexto | app/src/main/java/com/example/summarynews/ui/meGusta/MeGustaFragment.kt:89-90 | The total line: the number of liked rows of the user, which `NoticiasLikes` fixes by membership, multiplicity and order |
| MeGusta.Linea | app/src/main/java/com/example/summarynews/ui/meGusta/MeGustaFragment.kt:100-112 | The most/least line for an entry, "Ninguna" when absent; stated by `MasMenosLikesSpec` |
| MeGusta.MasLikes | app/src/main/java/com/example/summarynews/ui/meGusta/MeGustaFragment.kt:99 | Reference definition of `firstOrNull`; stated by `MasMenosLikesSpec` and `SortedExtremes` |
| MeGusta.MenosLikes | app/src/main/java/com/example/summarynews/ui/meGusta/MeGustaFragment.kt:107 | Reference definition of `lastOrNull`; stated by `MasMenosLikesSpec` and `SortedExtremes` |
| MeGusta.LikesPorCategoriaSpec | app/src/main/java/com/example/summarynews/ui/meGusta/MeGustaFragment.kt:86-96 | Each category of a liked row appears exactly once, with its count (at least one), the list is non-increasing by count, and the counts sum to the total likes |
| MeGusta.MasMenosLikesSpec | app/src/main/java/com/example/summarynews/ui/meGusta/MeGustaFragment.kt:99-112 | The first entry has no fewer likes than any other and the last none more. Both are absent, and both lines read "Ninguna", exactly when the user liked nothing |
| MeGusta.LikesEmptyIff | app/src/main/java/com/example/summarynews/ui/meGusta/MeGustaFragment.kt:86-96 | The statistics are empty exactly when the user liked no row |
| MeGusta.SortedExtremes | app/src/main/java/com/example/summarynews/ui/meGusta/MeGustaFragment.kt:99-107 | In a list sorted by likes, the first has the most and the last the fewest |
| MainActivity.UsuarioActual | app/src/main/java/com/example/summarynews/MainActivity.kt:122-125 | A stored -1 (or no stored id) means no current user; any other id is taken as is |
| MainActivity.Arranque | app/src/main/java/com/example/summarynews/MainActivity.kt:127-139 | The app starts on the login screen, with the drawer locked, exactly when there is no current user. Otherwise it starts on the home screen, unlocked, with that user |
| MainActivity.LogoutKeepsUserId | app/src/main/java/com/example/summarynews/MainActivity.kt:141-147 | Logout removes the email but not the user id, so the current-user lookup and the next start-up behave as before the logout |
| MainActivity.DrawerRule | app/src/main/java/com/example/summarynews/MainActivity.kt:102-109 | Away from home, the drawer is locked exactly on the login and registration screens |
| MainActivity.TabsAfterSetup | app/src/main/java/com/example/summarynews/MainActivity.kt:157-162 | With no tabs, the nine categories are added with "Todas" first; otherwise the tabs are kept |
| MainActivity.SetupIdempotent | app/src/main/java/com/example/summarynews/MainActivity.kt:157-162 | Setting the tabs up again changes nothing, and afterwards there is always a tab |
| MainActivity.MainActivity.ObtenerIdUsuarioActual | app/src/main/java/com/example/summarynews/MainActivity.kt:122-125 | The current user becomes the stored id, or none for -1; nothing else changes |
| MainActivity.MainActivity.VerificarSesionInicial | app/src/main/java/com/example/summarynews/MainActivity.kt:127-139 | Navigates and sets the drawer as the start-up rule says, and sets the current user only on the home branch |
| MainActivity.MainActivity.CerrarSesion | app/src/main/java/com/example/summarynews/MainActivity.kt:141-155 | Removes only the email from "SesionUsuario". The navigation to the login screen runs the destination listener, so the tabs are hidden and kept as they were; the drawer ends locked and the current user is cleared |
| MainActivity.MainActivity.SetupTabLayout | app/src/main/java/com/example/summarynews/MainActivity.kt:157-177 | The tab loop leaves the tabs as the set-up rule says, and nothing else changes |
| MainActivity.MainActivity.OnDestinationChanged | app/src/main/java/com/example/summarynews/MainActivity.kt:90-111 | Tabs are visible exactly at home. At home the drawer is unlocked and the tabs are set up; elsewhere the drawer follows the lock rule and the tabs are kept |
| MainActivity.MainActivity.Navigate | app/src/main/java/com/example/summarynews/MainActivity.kt:90-111 | The destination changes and the destination listener's effects follow |
| MainActivity.MainActivity.OnNavigationItemSelected | app/src/main/java/com/example/summarynews/MainActivity.kt:71-88 | The three screen items navigate without touching the session. Through the listener the drawer is unlocked, the tabs are visible exactly for home, and they are set up there and kept elsewhere. The logout item ends the session, locks the drawer, hides the tabs and keeps them |
| MainActivity.MainActivity.OnNavigateToInicio | app/src/main/java/com/example/summarynews/MainActivity.kt:113-119 | The observer body: on true the current user is read back from "SesionUsuario", the home screen is shown, and the request is consumed. On false nothing happens: user, destination, drawer, tabs, their visibility and both view-model fields are kept |
| MainActivity.MainActivity.OnTabSelected | app/src/main/java/com/example/summarynews/MainActivity.kt:164-171 | On the home screen, the chosen tab's text becomes the home list's category. Once the view model is there, the adapter shows the stored rows of that category newest first, with the "no news" text exactly when there are none; before that, the list and the text are kept. Elsewhere the category, the list and the text are kept. The adapter, the fragment's user and its attachment never change |
| Preferences.ReadBack | app/src/main/java/com/example/summarynews/db/SesionManager.kt:11-24 | A written string or integer reads back as written, and a removed key reads as null or the default |
| Preferences.OtherKeysUnchanged | app/src/main/java/com/example/summarynews/db/SesionManager.kt:11-24 | A write or removal changes no other key of any file |
| SesionManager.GuardarSesion | app/src/main/java/com/example/summarynews/db/SesionManager.kt:11-14 | The email is written to "sesion_pref" |
| SesionManager.ObtenerEmail | app/src/main/java/com/example/summarynews/db/SesionManager.kt:16-19 | Returns the email stored in "sesion_pref", or null when there is none; it is the store's `EmailIn`, which `SaveReadClear` and `SessionFilesAreSeparate` are stated over |
| SesionManager.CerrarSesion | app/src/main/java/com/example/summarynews/db/SesionManager.kt:21-24 | The email key of "sesion_pref" is removed |
| SesionManager.SaveReadClear | app/src/main/java/com/example/summarynews/db/SesionManager.kt:11-24 | Reading after a save gives the saved email, a later save overwrites an earlier one, and after clearing there is none |
| SesionManager.SessionFilesAreSeparate | app/src/main/java/com/example/summarynews/db/SesionManager.kt:8 | No write to "SesionUsuario", the file the login and registration screens use, changes what `obtenerEmail` returns |

## Left out

- Integer width: ids, counts and page numbers are unbounded integers. `Int` and `Long` overflow and the `Long`-to-`Int` conversion of the new user id are not modelled, since no reachable state comes near them.
- Coroutines, `Flow`, `flowOn`, dispatchers, `viewModelScope` and LiveData delivery: a flow is the finite sequence of events one collection emits. An observer's callback is a method its owner calls with the new value; threading and timing are not modelled.
- The HTTP clients and wire types (Retrofit, `NewsAPI`, `GeminiApi`, `GeminiService`, both `NewsResponse` files): a call's outcome is an input. The Gemini replies are a sequence with one reply per article, in article order.
- `org.json` parsing: it is the `parse` parameter, which returns the three strings or nothing, since it is a foreign library.
- The Gemini prompt text and the API key: the length limits and the category list are requests to the model, not checks in code, so no contract mentions them.
- Exceptions in general: each place the app throws and catches is a failure value. That covers a foreign-key violation, an insert on a taken user id and a failed Gemini call. "Error al registrar" and "Error al iniciar sesión" cannot arise in the model, because the user table's lookups and inserts cannot throw once the checks before them pass.
- Seeding through `noticiasViewModel?.insertarNoticias`, which `NoticiasViewModel` does not declare, is modelled as the DAO insert. `noticiasLength()`, called with no argument, is modelled as the per-user count for the signed-in user. A seeding insert that the foreign key rejects writes nothing.
- Naming: the entity declares `userId` and no `imagenURL`, while the DAO, repositories and screens use `usuarioId` and `imagenURL`. The model has one row type, with `owner` and an optional `imagenUrl`.
- `NoticiaStore.NoticiaDao.InsertarNoticias`: Room runs the batch in one transaction. The model inserts row after row, writing nothing when any owner is not a user.
- Seed summaries: the seed rows' summaries are shortened to the opening words of the app's text. Titles, categories, images and links are kept.
- `Resource`, `Article` and the Gemini reply classes are not part of this model's sources. Their shapes follow how the repositories read them.
- `MeGusta.SortByLikesDesc`: it does not state that pairs with equal counts keep their order, although `sortedByDescending` is stable. It states only the permutation, the order by count and the sum.
- `MainActivity.MainActivity.OnNavigateToInicio`: no screen triggers this observer in the app as written. The login and registration screens each use their own fragment-scoped `LoginViewModel` and navigate from their own observers, while the activity observes a separate, activity-scoped instance whose `navigateToInicio` nothing sets. So the activity's current user is not refreshed after a sign-in or sign-up; the model states only what the observer body would do.
- `MainActivity.MainActivity.OnDestinationChanged`: the `NoticiasViewModel` the listener creates for the current user is not modelled, because the factory and `ViewModelProvider` only build objects. Calling the listener when it is registered is not modelled either.
- UI: layout inflation, Glide's loading, toasts (only the last message is kept), the Snackbar, intents, the link's click handler, the heart and bookmark icons and colours, `onSupportNavigateUp`, `onBackPressed` and the options menu.
- `LikesPorCategoriaAdapter`, `AdaptadorCategorias`, `ListaNoticiasFragment`, `HomeFragment`, `AjustesFragment` and the two unused view models: pure UI.
- `LoginFragment`: its session write is the same one `Registro.RegistroFragment.GuardarSesion` models.
- `AppDatabase`, `NoticiasViewModelFactory` and the factory in `MainActivity`: a synchronized singleton and reflective construction.
- Room's SQL engine: only the DAO contracts are modelled, over rows kept in key order.
- `getString` and `getInt` on a key holding a value of the other type throw `ClassCastException` on Android. The model reads such a key as absent.
