/** `MeGustaFragment`: statistics over the rows the signed-in user liked — the total,
    the likes per category from most to fewest, and the most and least liked category. */
module MeGusta {
  import opened Wrappers
  import opened Lists
  import opened KotlinText
  import opened Entities

  /** `Pair<String, Int>`: a category and its number of likes. */
  type CategoriaLikes = (string, nat)

  function LikedBy(usuario: int): Noticia -> bool {
    (n: Noticia) => n.liked && n.owner == usuario
  }

  /** The filter of `observarEstadisticas`: the liked rows owned by `usuario`, in order. */
  function NoticiasLikes(lista: seq<Noticia>, usuario: int): (r: seq<Noticia>)
    ensures forall n :: n in r <==> n in lista && n.liked && n.owner == usuario
    ensures forall n :: multiset(r)[n] == if n.liked && n.owner == usuario then multiset(lista)[n] else 0
    ensures IsSubsequence(r, lista)
  {
    FilterIsSubsequence(lista, LikedBy(usuario));
    Filter(lista, LikedBy(usuario))
  }

  function CategoriaDe(n: Noticia): string {
    n.categoria
  }

  /** The number of times `c` occurs in `s`. */
  function Count(s: seq<string>, c: string): (r: nat)
    ensures r == 0 <==> c !in s
    ensures r <= |s|
  {
    if s == [] then 0
    else Count(s[..|s| - 1], c) + (if s[|s| - 1] == c then 1 else 0)
  }

  /** The distinct elements of `s`, in order of first appearance (the key order of the
      `LinkedHashMap` that `groupingBy` fills). */
  function Distinct(s: seq<string>): (r: seq<string>)
    ensures forall c :: c in r <==> c in s
    ensures forall i, j :: 0 <= i < j < |r| ==> r[i] != r[j]
  {
    if s == [] then []
    else
      var d := Distinct(s[..|s| - 1]);
      assert forall c :: c in s <==> c in s[..|s| - 1] || c == s[|s| - 1] by {
        assert s == s[..|s| - 1] + [s[|s| - 1]];
      }
      if s[|s| - 1] in d then d else d + [s[|s| - 1]]
  }

  /** Each key of `d` with its number of occurrences in `s`, in the order of `d`. */
  function Pairs(d: seq<string>, s: seq<string>): (r: seq<CategoriaLikes>)
    ensures |r| == |d|
    ensures forall i :: 0 <= i < |d| ==> r[i] == (d[i], Count(s, d[i]))
  {
    if d == [] then [] else Pairs(d[..|d| - 1], s) + [(d[|d| - 1], Count(s, d[|d| - 1]))]
  }

  /** `groupingBy { it.categoria }.eachCount().toList()`. */
  function EachCount(ns: seq<Noticia>): seq<CategoriaLikes> {
    var cats := MapSeq(ns, CategoriaDe);
    Pairs(Distinct(cats), cats)
  }

  /** The sum of the counts of a list of pairs. */
  function SumLikes(p: seq<CategoriaLikes>): nat {
    if p == [] then 0 else p[0].1 + SumLikes(p[1..])
  }

  lemma {:induction false} SumLikesAppend(p: seq<CategoriaLikes>, x: CategoriaLikes)
    ensures SumLikes(p + [x]) == SumLikes(p) + x.1
  {
    if p != [] {
      assert (p + [x])[1..] == p[1..] + [x];
      SumLikesAppend(p[1..], x);
    }
  }

  ghost predicate KeysDistinct(p: seq<CategoriaLikes>) {
    forall i, j :: 0 <= i < j < |p| ==> p[i].0 != p[j].0
  }

  /** One more element `x` adds one to the total counted over the distinct keys `d`
      when `x` is one of them, and nothing otherwise. */
  lemma {:induction false} SumPairsSnoc(d: seq<string>, s: seq<string>, x: string)
    requires forall i, j :: 0 <= i < j < |d| ==> d[i] != d[j]
    ensures SumLikes(Pairs(d, s + [x])) == SumLikes(Pairs(d, s)) + (if x in d then 1 else 0)
  {
    if d != [] {
      var d0 := d[..|d| - 1];
      var c := d[|d| - 1];
      SumPairsSnoc(d0, s, x);
      SumLikesAppend(Pairs(d0, s + [x]), (c, Count(s + [x], c)));
      SumLikesAppend(Pairs(d0, s), (c, Count(s, c)));
      assert (s + [x])[..|s + [x]| - 1] == s;
      assert c !in d0 by {
        forall i | 0 <= i < |d0| ensures d0[i] != c {
          assert d0[i] == d[i];
        }
      }
      assert x in d <==> x in d0 || x == c by {
        assert d == d0 + [c];
      }
    }
  }

  /** The counts per distinct key add up to the length of the list. */
  lemma {:induction false} SumEachCount(s: seq<string>)
    ensures SumLikes(Pairs(Distinct(s), s)) == |s|
  {
    if s != [] {
      var s0 := s[..|s| - 1];
      var x := s[|s| - 1];
      assert s == s0 + [x];
      var d0 := Distinct(s0);
      SumEachCount(s0);
      SumPairsSnoc(d0, s0, x);
      if x !in d0 {
        assert Distinct(s) == d0 + [x];
        assert Pairs(d0 + [x], s)[..|d0|] == Pairs(d0, s);
        assert Pairs(d0 + [x], s) == Pairs(d0, s) + [(x, Count(s, x))];
        SumLikesAppend(Pairs(d0, s), (x, Count(s, x)));
        assert Count(s0, x) == 0;
      }
    }
  }

  /** Inserting `x` before the first pair with no more likes keeps a list sorted from
      most to fewest likes. */
  function Insert(x: CategoriaLikes, s: seq<CategoriaLikes>): (r: seq<CategoriaLikes>)
    ensures multiset(r) == multiset(s) + multiset{x}
    ensures |r| == |s| + 1
    ensures forall y :: y in r <==> y == x || y in s
    ensures SumLikes(r) == SumLikes(s) + x.1
  {
    if s == [] || s[0].1 <= x.1 then
      assert ([x] + s)[1..] == s;
      [x] + s
    else
      var t := Insert(x, s[1..]);
      assert s == [s[0]] + s[1..];
      assert ([s[0]] + t)[1..] == t;
      [s[0]] + t
  }

  ghost predicate SortedDesc(p: seq<CategoriaLikes>) {
    forall i, j :: 0 <= i < j < |p| ==> p[i].1 >= p[j].1
  }

  lemma {:induction false} InsertSorted(x: CategoriaLikes, s: seq<CategoriaLikes>)
    requires SortedDesc(s)
    ensures SortedDesc(Insert(x, s))
  {
    if s == [] || s[0].1 <= x.1 {
      forall j | 0 <= j < |s| ensures x.1 >= s[j].1 {
        if j > 0 {
          assert s[0].1 >= s[j].1;
        }
      }
      ConsSorted(x, s);
    } else {
      InsertSorted(x, s[1..]);
      var t := Insert(x, s[1..]);
      forall j | 0 <= j < |t| ensures s[0].1 >= t[j].1 {
        var y := t[j];
        assert y in t;
        if y != x {
          var k :| 0 <= k < |s[1..]| && s[1..][k] == y;
          assert s[k + 1] == y;
        }
      }
      ConsSorted(s[0], t);
    }
  }

  /** A sorted list stays sorted under a head with at least as many likes as each of its
      elements. */
  lemma ConsSorted(h: CategoriaLikes, t: seq<CategoriaLikes>)
    requires SortedDesc(t)
    requires forall j :: 0 <= j < |t| ==> h.1 >= t[j].1
    ensures SortedDesc([h] + t)
  {
    var p := [h] + t;
    forall i, j | 0 <= i < j < |p| ensures p[i].1 >= p[j].1 {
      assert p[j] == t[j - 1];
      if i > 0 {
        assert p[i] == t[i - 1];
      }
    }
  }

  lemma {:induction false} InsertKeysDistinct(x: CategoriaLikes, s: seq<CategoriaLikes>)
    requires KeysDistinct(s) && forall y :: y in s ==> y.0 != x.0
    ensures KeysDistinct(Insert(x, s))
  {
    if s == [] || s[0].1 <= x.1 {
      assert forall j :: 0 < j < |[x] + s| ==> ([x] + s)[j] in s;
    } else {
      forall i, j | 0 <= i < j < |s[1..]| ensures s[1..][i].0 != s[1..][j].0 {
        assert s[1..][i] == s[i + 1] && s[1..][j] == s[j + 1];
      }
      InsertKeysDistinct(x, s[1..]);
      var t := Insert(x, s[1..]);
      forall y | y in t ensures s[0].0 != y.0 {
        if y != x {
          var k :| 0 <= k < |s[1..]| && s[1..][k] == y;
          assert s[k + 1] == y;
        }
      }
      assert forall j :: 0 < j < |[s[0]] + t| ==> ([s[0]] + t)[j] in t;
    }
  }

  /** `sortedByDescending { count }`, as an insertion sort: the same pairs, from most to
      fewest likes. */
  function SortByLikesDesc(s: seq<CategoriaLikes>): (r: seq<CategoriaLikes>)
    ensures multiset(r) == multiset(s)
    ensures |r| == |s|
    ensures forall y :: y in r <==> y in s
    ensures SortedDesc(r)
    ensures SumLikes(r) == SumLikes(s)
  {
    if s == [] then []
    else
      var t := SortByLikesDesc(s[1..]);
      InsertSorted(s[0], t);
      HeadTail(s);
      Insert(s[0], t)
  }

  /** A non-empty list is its head followed by its tail. */
  lemma HeadTail(s: seq<CategoriaLikes>)
    requires s != []
    ensures multiset(s) == multiset(s[1..]) + multiset{s[0]}
    ensures forall y :: y in s <==> y == s[0] || y in s[1..]
  {
    assert s == [s[0]] + s[1..];
  }

  /** Sorting never puts a category twice. */
  lemma {:induction false} SortKeysDistinct(s: seq<CategoriaLikes>)
    requires KeysDistinct(s)
    ensures KeysDistinct(SortByLikesDesc(s))
  {
    if s != [] {
      forall i, j | 0 <= i < j < |s[1..]| ensures s[1..][i].0 != s[1..][j].0 {
        assert s[1..][i] == s[i + 1] && s[1..][j] == s[j + 1];
      }
      SortKeysDistinct(s[1..]);
      var t := SortByLikesDesc(s[1..]);
      forall y | y in t ensures y.0 != s[0].0 {
        var k :| 0 <= k < |s[1..]| && s[1..][k] == y;
        assert s[k + 1] == y;
      }
      InsertKeysDistinct(s[0], t);
    }
  }

  /** `likesPorCategoria`. */
  function LikesPorCategoria(lista: seq<Noticia>, usuario: int): seq<CategoriaLikes> {
    SortByLikesDesc(EachCount(NoticiasLikes(lista, usuario)))
  }

  /** A category occurs among the categories of `ns` exactly when some row has it. */
  lemma CategoriasDe(ns: seq<Noticia>, c: string)
    ensures c in MapSeq(ns, CategoriaDe) <==> exists n :: n in ns && n.categoria == c
  {
    var cats := MapSeq(ns, CategoriaDe);
    if c in cats {
      var i :| 0 <= i < |cats| && cats[i] == c;
      assert ns[i] in ns;
    }
    if exists n :: n in ns && n.categoria == c {
      var n :| n in ns && n.categoria == c;
      var i :| 0 <= i < |ns| && ns[i] == n;
      assert cats[i] == c;
    }
  }

  /** `eachCount`: one pair per category of `ns`, with the number of rows in it (at
      least one), adding up to the number of rows. */
  lemma EachCountSpec(ns: seq<Noticia>)
    ensures var p := EachCount(ns);
      var cats := MapSeq(ns, CategoriaDe);
      && KeysDistinct(p)
      && (forall k :: k in p ==> k.1 >= 1 && k.1 == Count(cats, k.0))
      && (forall k :: k in p ==> k.0 in cats)
      && (forall c :: c in cats ==> (c, Count(cats, c)) in p)
      && SumLikes(p) == |ns|
  {
    var cats := MapSeq(ns, CategoriaDe);
    var d := Distinct(cats);
    var p := Pairs(d, cats);
    SumEachCount(cats);
    forall k | k in p ensures k.1 >= 1 && k.1 == Count(cats, k.0) && k.0 in cats {
      var i :| 0 <= i < |p| && p[i] == k;
    }
    forall c | c in cats ensures (c, Count(cats, c)) in p {
      var i :| 0 <= i < |d| && d[i] == c;
      assert p[i] == (c, Count(cats, c));
    }
  }

  /** The per-category statistics: each category of a liked row appears exactly once,
      with its number of liked rows (at least one), from most to fewest likes, and the
      counts add up to the total. */
  lemma LikesPorCategoriaSpec(lista: seq<Noticia>, usuario: int)
    ensures var l := LikesPorCategoria(lista, usuario);
      var liked := NoticiasLikes(lista, usuario);
      var cats := MapSeq(liked, CategoriaDe);
      && KeysDistinct(l)
      && SortedDesc(l)
      && SumLikes(l) == |liked|
      && (forall k :: k in l ==> k.1 >= 1 && k.1 == Count(cats, k.0))
      && (forall k :: k in l ==> exists n :: n in liked && n.categoria == k.0)
      && (forall n :: n in liked ==> (n.categoria, Count(cats, n.categoria)) in l)
  {
    var liked := NoticiasLikes(lista, usuario);
    var cats := MapSeq(liked, CategoriaDe);
    var p := EachCount(liked);
    EachCountSpec(liked);
    SortKeysDistinct(p);
    forall k | k in LikesPorCategoria(lista, usuario) ensures exists n :: n in liked && n.categoria == k.0 {
      CategoriasDe(liked, k.0);
    }
    forall n | n in liked ensures (n.categoria, Count(cats, n.categoria)) in LikesPorCategoria(lista, usuario) {
      CategoriasDe(liked, n.categoria);
    }
  }

  /** The text of `totalLikes`. */
  function TotalTexto(lista: seq<Noticia>, usuario: int): string {
    "Total de likes dados: " + IntToString(|NoticiasLikes(lista, usuario)|)
  }

  const MAS_LIKES: string := "Categoría que más te gusta: "
  const MENOS_LIKES: string := "Categoría que menos te gusta: "
  const NINGUNA: string := "Ninguna"

  /** One statistic line: the category and its likes, or "Ninguna" when there is none. */
  function Linea(prefijo: string, entrada: Option<CategoriaLikes>): string {
    match entrada
    case None => prefijo + NINGUNA
    case Some((c, n)) => prefijo + c + " (" + IntToString(n) + " likes)"
  }

  /** `firstOrNull()` and `lastOrNull()` of the statistics. */
  function MasLikes(l: seq<CategoriaLikes>): Option<CategoriaLikes> {
    if l == [] then None else Some(l[0])
  }

  function MenosLikes(l: seq<CategoriaLikes>): Option<CategoriaLikes> {
    if l == [] then None else Some(l[|l| - 1])
  }

  /** The most liked category has no fewer likes than any other, and the least liked no
      more; both are absent (the lines read "Ninguna") exactly when the user liked
      nothing. */
  lemma MasMenosLikesSpec(lista: seq<Noticia>, usuario: int)
    ensures var l := LikesPorCategoria(lista, usuario);
      && (MasLikes(l).None? <==> NoticiasLikes(lista, usuario) == [])
      && (MenosLikes(l).None? <==> NoticiasLikes(lista, usuario) == [])
      && (MasLikes(l).Some? ==> MasLikes(l).value in l && forall k :: k in l ==> MasLikes(l).value.1 >= k.1)
      && (MenosLikes(l).Some? ==> MenosLikes(l).value in l && forall k :: k in l ==> MenosLikes(l).value.1 <= k.1)
      && (NoticiasLikes(lista, usuario) == [] ==>
            Linea(MAS_LIKES, MasLikes(l)) == MAS_LIKES + NINGUNA &&
            Linea(MENOS_LIKES, MenosLikes(l)) == MENOS_LIKES + NINGUNA)
  {
    var l := LikesPorCategoria(lista, usuario);
    LikesEmptyIff(lista, usuario);
    if l != [] {
      SortedExtremes(l);
    }
  }

  /** There are statistics exactly when the user liked something. */
  lemma LikesEmptyIff(lista: seq<Noticia>, usuario: int)
    ensures LikesPorCategoria(lista, usuario) == [] <==> NoticiasLikes(lista, usuario) == []
  {
    var l := LikesPorCategoria(lista, usuario);
    var liked := NoticiasLikes(lista, usuario);
    LikesPorCategoriaSpec(lista, usuario);
    if liked != [] {
      assert liked[0] in liked;
    }
    if l != [] {
      assert l[0] in l;
    }
  }

  /** In a list sorted from most to fewest likes, the first pair has the most likes and the
      last the fewest. */
  lemma SortedExtremes(l: seq<CategoriaLikes>)
    requires SortedDesc(l) && l != []
    ensures forall k :: k in l ==> l[0].1 >= k.1 && l[|l| - 1].1 <= k.1
  {
    forall k | k in l ensures l[0].1 >= k.1 && l[|l| - 1].1 <= k.1 {
      var i :| 0 <= i < |l| && l[i] == k;
    }
  }
}
