/** `AdaptadorNoticias`: the list behind the news `RecyclerView`. It shows the newest
    row first, picks each row's image, and hands a toggled copy of a row to its like and
    save callbacks. */
module Adaptador {
  import opened Wrappers
  import opened Lists
  import opened Entities

  /** Where a row's picture comes from: its remote URL (through Glide), or the bundled
      drawable it names. */
  datatype ImageSource = Remote(url: string) | Bundled(drawable: Drawable)

  /** `configuracionCargarImagenes`: the remote image exactly when the URL is neither null
      nor empty, the bundled one otherwise. */
  function ElegirImagen(n: Noticia): (r: ImageSource)
    ensures r.Remote? <==> n.imagenUrl.Some? && n.imagenUrl.value != ""
    ensures r.Remote? ==> r.url == n.imagenUrl.value
    ensures r.Bundled? ==> r.drawable == n.imagenId
  {
    if n.imagenUrl.Some? && n.imagenUrl.value != "" then Remote(n.imagenUrl.value)
    else Bundled(n.imagenId)
  }

  /** The copy the like button hands to `onLikeClicked`. */
  function ToggleLike(n: Noticia): Noticia {
    n.(liked := !n.liked)
  }

  /** The copy the save button hands to `onSaveClicked`. */
  function ToggleSave(n: Noticia): Noticia {
    n.(saved := !n.saved)
  }

  /** Each button flips its own flag and nothing else, so the copy keeps the row's key and
      owner (the update it triggers hits the same row); pressing twice restores the row,
      and the two buttons commute. */
  lemma TogglesSpec(n: Noticia)
    ensures ToggleLike(n).liked == !n.liked && ToggleLike(n).(liked := n.liked) == n
    ensures ToggleSave(n).saved == !n.saved && ToggleSave(n).(saved := n.saved) == n
    ensures ToggleLike(ToggleLike(n)) == n && ToggleSave(ToggleSave(n)) == n
    ensures ToggleLike(ToggleSave(n)) == ToggleSave(ToggleLike(n))
    ensures ElegirImagen(ToggleLike(n)) == ElegirImagen(n) && ElegirImagen(ToggleSave(n)) == ElegirImagen(n)
  {
  }

  /** A reversed list holds the same rows. */
  lemma ReverseMembers<T>(s: seq<T>)
    ensures forall x :: x in Reverse(s) <==> x in s
  {
    forall x ensures x in Reverse(s) <==> x in s {
      if x in s {
        var i :| 0 <= i < |s| && s[i] == x;
        ReverseAt(s, |s| - 1 - i);
      }
      if x in Reverse(s) {
        var k :| 0 <= k < |Reverse(s)| && Reverse(s)[k] == x;
        ReverseAt(s, k);
      }
    }
  }

  class AdaptadorNoticias {
    /** `newsList`: what the rows show, top to bottom. */
    var newsList: seq<Noticia>

    constructor (initial: seq<Noticia>)
      ensures newsList == initial
    {
      newsList := initial;
    }

    /** `actualizarLista(nuevaLista)`: the new list is shown last element first. */
    method ActualizarLista(nuevaLista: seq<Noticia>)
      modifies this
      ensures newsList == Reverse(nuevaLista)
      ensures forall i :: 0 <= i < |nuevaLista| ==> newsList[i] == nuevaLista[|nuevaLista| - 1 - i]
      ensures forall n :: n in newsList <==> n in nuevaLista
    {
      newsList := Reverse(nuevaLista);
      forall i | 0 <= i < |nuevaLista| ensures newsList[i] == nuevaLista[|nuevaLista| - 1 - i] {
        ReverseAt(nuevaLista, i);
      }
      ReverseMembers(nuevaLista);
    }

    /** `getItemCount`. */
    function GetItemCount(): (r: nat)
      reads this
      ensures r == |newsList|
    {
      |newsList|
    }

    /** The row `onBindViewHolder(holder, position)` binds, and the image it loads. */
    function Bind(position: nat): (r: (Noticia, ImageSource))
      reads this
      requires position < |newsList|
      ensures r.0 == newsList[position] && r.1 == ElegirImagen(newsList[position])
    {
      (newsList[position], ElegirImagen(newsList[position]))
    }

    /** What the like button of row `position` hands to `onLikeClicked`. The adapter's own
        list is not changed; the new row comes back through the observed query. */
    function OnLikeClicked(position: nat): (r: Noticia)
      reads this
      requires position < |newsList|
      ensures r.id == newsList[position].id && r.liked == !newsList[position].liked
      ensures r.(liked := newsList[position].liked) == newsList[position]
    {
      ToggleLike(newsList[position])
    }

    /** What the save button of row `position` hands to `onSaveClicked`. */
    function OnSaveClicked(position: nat): (r: Noticia)
      reads this
      requires position < |newsList|
      ensures r.id == newsList[position].id && r.saved == !newsList[position].saved
      ensures r.(saved := newsList[position].saved) == newsList[position]
    {
      ToggleSave(newsList[position])
    }
  }
}
