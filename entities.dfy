/** The two Room entities of the database: a news row owned by a user, and a user
    account. Both keys are `INTEGER PRIMARY KEY AUTOINCREMENT` columns. */
module Entities {
  import opened Wrappers
  import opened Lists
  import KeyedTable

  /** The drawable resources a row can name. Their integer ids are generated at build
      time, so the model keeps only which resource it is. */
  datatype Drawable = Noticia1Imagen | Noticia2Imagen | PlaceholderImage

  /** A row of `noticias`. `owner` is the user column (declared `userId` on the entity
      and read as `usuarioId` everywhere else); `imagenUrl` is the nullable remote image. */
  datatype Noticia = Noticia(
    id: int,
    owner: int,
    titulo: string,
    resumen: string,
    imagenId: Drawable,
    imagenUrl: Option<string>,
    fuenteUrl: string,
    categoria: string,
    liked: bool,
    saved: bool)

  /** A row of `usuarios`. */
  datatype Usuario = Usuario(id: int, nombre: string, email: string, password: string)

  /** The default id of a fresh entity. Room binds it as NULL (`nullif(?, 0)`), so the
      database chooses the key; no stored row ever has this id. */
  const UNASSIGNED: int := 0

  function NoticiaId(n: Noticia): int { n.id }

  function UsuarioId(u: Usuario): int { u.id }

  /** The foreign key `noticias.userId -> usuarios.id`: every row's owner is a user id. */
  predicate OwnersExist(rows: seq<Noticia>, users: set<int>) {
    forall n :: n in rows ==> n.owner in users
  }

  function OwnedBy(uid: int): Noticia -> bool {
    (n: Noticia) => n.owner == uid
  }

  function NotOwnedBy(uid: int): Noticia -> bool {
    (n: Noticia) => n.owner != uid
  }

  /** `ON DELETE CASCADE`: deleting user `uid` removes exactly that user's news, keeps the
      other rows in order, and leaves the foreign key satisfied for the remaining users. */
  function CascadeDelete(rows: seq<Noticia>, uid: int): (r: seq<Noticia>)
    ensures forall n :: n in r <==> n in rows && n.owner != uid
    ensures IsSubsequence(r, rows)
    ensures forall users :: OwnersExist(rows, users) ==> OwnersExist(r, users - {uid})
  {
    FilterIsSubsequence(rows, NotOwnedBy(uid));
    Filter(rows, NotOwnedBy(uid))
  }

  /** Read through the key, the cascade keeps every other user's row under its own key
      and drops every row of `uid`. */
  lemma CascadeDeleteByKey(rows: seq<Noticia>, uid: int)
    requires KeyedTable.Ordered(rows, NoticiaId)
    ensures KeyedTable.Ordered(CascadeDelete(rows, uid), NoticiaId)
    ensures forall k :: k in KeyedTable.AsMap(CascadeDelete(rows, uid), NoticiaId) <==>
      k in KeyedTable.AsMap(rows, NoticiaId) && KeyedTable.AsMap(rows, NoticiaId)[k].owner != uid
    ensures forall k :: k in KeyedTable.AsMap(CascadeDelete(rows, uid), NoticiaId) ==>
      KeyedTable.AsMap(CascadeDelete(rows, uid), NoticiaId)[k] == KeyedTable.AsMap(rows, NoticiaId)[k]
  {
    KeyedTable.FilterSpec(rows, NoticiaId, NotOwnedBy(uid));
  }
}
