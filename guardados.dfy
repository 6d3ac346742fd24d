/** `GuardadosFragment`: the saved rows of the signed-in user, newest first, with a
    "no news" text when there are none. */
module Guardados {
  import opened Wrappers
  import opened Lists
  import opened Entities
  import P = Preferences
  import KeyedTable
  import NoticiaStore
  import Adaptador

  /** `usuarioIdActual`: the stored user id, or -1 when none is stored. */
  function UsuarioIdActual(st: P.Store): (r: int)
    ensures P.KEY_USER_ID !in P.FileOf(st, P.SESION_USUARIO) ==> r == P.NO_USER
  {
    P.IntAt(st, P.SESION_USUARIO, P.KEY_USER_ID, P.NO_USER)
  }

  function GuardadaPor(usuario: int): Noticia -> bool {
    (n: Noticia) => n.saved && n.owner == usuario
  }

  /** The filter of `cargarNoticiasGuardadas`: the saved rows owned by `usuario`, in the
      order of the list. */
  function NoticiasGuardadas(lista: seq<Noticia>, usuario: int): (r: seq<Noticia>)
    ensures forall n :: n in r <==> n in lista && n.saved && n.owner == usuario
    ensures forall n :: multiset(r)[n] == if n.saved && n.owner == usuario then multiset(lista)[n] else 0
    ensures IsSubsequence(r, lista)
  {
    FilterIsSubsequence(lista, GuardadaPor(usuario));
    Filter(lista, GuardadaPor(usuario))
  }

  /** What the screen shows for a value of `noticias`: the adapter's rows (the selection
      reversed) and whether the "no news" text is visible. */
  function Pantalla(lista: seq<Noticia>, usuario: int): (seq<Noticia>, bool) {
    var g := NoticiasGuardadas(lista, usuario);
    (Reverse(g), g == [])
  }

  /** The screen shows exactly the user's saved rows, and the "no news" text exactly when
      the user has saved none. */
  lemma PantallaSpec(lista: seq<Noticia>, usuario: int)
    ensures forall n :: n in Pantalla(lista, usuario).0 <==> n in lista && n.saved && n.owner == usuario
    ensures Pantalla(lista, usuario).1 <==> forall n :: n in lista ==> !(n.saved && n.owner == usuario)
  {
    var g := NoticiasGuardadas(lista, usuario);
    Adaptador.ReverseMembers(g);
    if g != [] {
      assert g[0] in g;
    }
  }

  /** With no session the id is -1, which no user has, so on a table that keeps its
      foreign key nothing is shown. */
  lemma SinSesionNadaGuardado(lista: seq<Noticia>, users: set<int>)
    requires OwnersExist(lista, users) && P.NO_USER !in users
    ensures NoticiasGuardadas(lista, P.NO_USER) == []
  {
  }

  /** Un-saving a stored saved row: once the table is updated with the toggled copy, no
      row under that key passes the filter on the next load, and every other row passes
      exactly as before. */
  lemma DesguardarQuita(t: NoticiaStore.Table, n: Noticia, usuario: int)
    requires NoticiaStore.TableInv(t) && n in t.rows && n.saved
    ensures var t' := NoticiaStore.Update(t, Adaptador.ToggleSave(n));
      && (forall x :: x in NoticiasGuardadas(t'.rows, usuario) ==> x.id != n.id)
      && (forall x :: x in t.rows && x.id != n.id ==>
            (x in NoticiasGuardadas(t'.rows, usuario) <==> x in NoticiasGuardadas(t.rows, usuario)))
  {
    var m := Adaptador.ToggleSave(n);
    var t' := NoticiaStore.Update(t, m);
    KeyedTable.AsMapHit(t.rows, NoticiaId, n);
    NoticiaStore.UpdateSpec(t, m);
    forall x | x in t'.rows && x.id == n.id ensures !x.saved {
      KeyedTable.AsMapHit(t'.rows, NoticiaId, x);
    }
    forall x | x in t.rows && x.id != n.id ensures x in t'.rows {
      KeyedTable.AsMapHit(t.rows, NoticiaId, x);
      assert NoticiaStore.Contents(t')[x.id] == x;
    }
    forall x | x in t'.rows && x.id != n.id ensures x in t.rows {
      KeyedTable.AsMapHit(t'.rows, NoticiaId, x);
    }
  }
}
