/** The Kotlin collection functions the app relies on: `filter`, `mapNotNull`,
    `firstOrNull { }` and `reversed`, with their meaning stated once. */
module Lists {
  import opened Wrappers

  /** `a` is obtained from `b` by deleting elements, keeping the order of the rest. */
  ghost predicate IsSubsequence<T>(a: seq<T>, b: seq<T>)
    decreases |b|
  {
    a == [] || (b != [] && ((a[0] == b[0] && IsSubsequence(a[1..], b[1..])) || IsSubsequence(a, b[1..])))
  }

  /** `s.filter(p)`: the elements of `s` satisfying `p`, in their original order. */
  function Filter<T(!new)>(s: seq<T>, p: T -> bool): (r: seq<T>)
    ensures |r| <= |s|
    ensures forall x :: x in r <==> x in s && p(x)
    ensures forall i :: 0 <= i < |r| ==> p(r[i])
    ensures forall x :: multiset(r)[x] == if p(x) then multiset(s)[x] else 0
  {
    if s == [] then []
    else
      var rest := Filter(s[1..], p);
      assert forall x :: x in s <==> x == s[0] || x in s[1..];
      assert s == [s[0]] + s[1..];
      assert multiset(s) == multiset{s[0]} + multiset(s[1..]);
      if p(s[0]) then [s[0]] + rest else rest
  }

  lemma {:induction false} FilterIsSubsequence<T(!new)>(s: seq<T>, p: T -> bool)
    ensures IsSubsequence(Filter(s, p), s)
  {
    if s != [] {
      FilterIsSubsequence(s[1..], p);
      var rest := Filter(s[1..], p);
      if p(s[0]) {
        assert Filter(s, p) == [s[0]] + rest;
        assert ([s[0]] + rest)[1..] == rest;
      } else {
        assert Filter(s, p) == rest;
        SubsequenceOfTail(rest, s);
      }
    }
  }

  lemma {:induction false} SubsequenceOfTail<T>(a: seq<T>, b: seq<T>)
    requires b != [] && IsSubsequence(a, b[1..])
    ensures IsSubsequence(a, b)
  {
  }

  /** A filter that rejects nothing returns its input. */
  lemma {:induction false} FilterKeepsAll<T(!new)>(s: seq<T>, p: T -> bool)
    requires forall x :: x in s ==> p(x)
    ensures Filter(s, p) == s
  {
    if s != [] {
      assert s[0] in s;
      assert forall x :: x in s[1..] ==> x in s;
      FilterKeepsAll(s[1..], p);
      assert [s[0]] + s[1..] == s;
    }
  }

  /** A filter drops at least every element it rejects: one rejected element makes the result shorter. */
  lemma {:induction false} FilterDrops<T(!new)>(s: seq<T>, p: T -> bool, k: nat)
    requires k < |s| && !p(s[k])
    ensures |Filter(s, p)| < |s|
  {
    if k > 0 {
      FilterDrops(s[1..], p, k - 1);
    }
  }

  /** A filter's result is as long as its input exactly when nothing is rejected. */
  lemma FilterFullIff<T(!new)>(s: seq<T>, p: T -> bool)
    ensures |Filter(s, p)| == |s| <==> forall x :: x in s ==> p(x)
  {
    if forall x :: x in s ==> p(x) {
      FilterKeepsAll(s, p);
    } else {
      var x :| x in s && !p(x);
      var k :| 0 <= k < |s| && s[k] == x;
      FilterDrops(s, p, k);
    }
  }

  /** `p` as a predicate on the elements for which `f` yields a value. */
  function Defined<A, B>(f: A -> Option<B>): A -> bool {
    x => f(x).Some?
  }

  /** `s.mapNotNull(f)`: the non-null images under `f`, in the order of `s`. */
  function MapNotNull<A, B>(s: seq<A>, f: A -> Option<B>): (r: seq<B>)
    ensures |r| <= |s|
    ensures forall y :: y in r ==> exists x :: x in s && f(x) == Some(y)
  {
    if s == [] then []
    else
      var rest := MapNotNull(s[1..], f);
      assert forall x :: x in s[1..] ==> x in s;
      match f(s[0])
      case Some(y) => [y] + rest
      case None => rest
  }

  /** `mapNotNull` keeps exactly the elements for which `f` is defined, in order:
      the j-th result is the image of the j-th element that survives. */
  lemma {:induction false} MapNotNullIsFilterThenMap<A(!new), B>(s: seq<A>, f: A -> Option<B>)
    ensures |MapNotNull(s, f)| == |Filter(s, Defined(f))|
    ensures forall j :: 0 <= j < |MapNotNull(s, f)| ==>
      f(Filter(s, Defined(f))[j]) == Some(MapNotNull(s, f)[j])
  {
    if s != [] {
      MapNotNullIsFilterThenMap(s[1..], f);
      var kept := Filter(s[1..], Defined(f));
      var rest := MapNotNull(s[1..], f);
      if f(s[0]).Some? {
        assert Defined(f)(s[0]);
        assert Filter(s, Defined(f)) == [s[0]] + kept;
        assert MapNotNull(s, f) == [f(s[0]).value] + rest;
        forall j | 0 <= j < |MapNotNull(s, f)|
          ensures f(Filter(s, Defined(f))[j]) == Some(MapNotNull(s, f)[j])
        {
          if j > 0 {
            assert Filter(s, Defined(f))[j] == kept[j - 1];
            assert MapNotNull(s, f)[j] == rest[j - 1];
          }
        }
      } else {
        assert !Defined(f)(s[0]);
        assert Filter(s, Defined(f)) == kept;
        assert MapNotNull(s, f) == rest;
      }
    }
  }

  /** `s.map(f)`. */
  function MapSeq<A, B>(s: seq<A>, f: A -> B): (r: seq<B>)
    ensures |r| == |s|
    ensures forall i :: 0 <= i < |s| ==> r[i] == f(s[i])
  {
    seq(|s|, i requires 0 <= i < |s| => f(s[i]))
  }

  /** The pairs of equal positions of two equally long lists. */
  function Zip<A, B>(a: seq<A>, b: seq<B>): (r: seq<(A, B)>)
    requires |a| == |b|
    ensures |r| == |a|
    ensures forall i :: 0 <= i < |a| ==> r[i] == (a[i], b[i])
  {
    seq(|a|, i requires 0 <= i < |a| => (a[i], b[i]))
  }

  /** `s.firstOrNull(p)`: the earliest element satisfying `p`, or null. */
  function FirstWhere<T(!new)>(s: seq<T>, p: T -> bool): (r: Option<T>)
    ensures r.None? <==> forall x :: x in s ==> !p(x)
    ensures r.Some? ==> exists i :: 0 <= i < |s| && s[i] == r.value && p(s[i]) &&
                          forall j :: 0 <= j < i ==> !p(s[j])
  {
    if s == [] then None
    else if p(s[0]) then Some(s[0])
    else
      var r := FirstWhere(s[1..], p);
      assert forall x :: x in s <==> x == s[0] || x in s[1..];
      if r.Some? then
        ghost var i :| 0 <= i < |s[1..]| && s[1..][i] == r.value && p(s[1..][i]) &&
                     forall j :: 0 <= j < i ==> !p(s[1..][j]);
        assert s[i + 1] == r.value;
        assert forall j :: 0 <= j < i + 1 ==> !p(s[j]) by {
          forall j | 0 <= j < i + 1 ensures !p(s[j]) {
            if j > 0 { assert s[j] == s[1..][j - 1]; }
          }
        }
        r
      else r
  }

  /** `list.reversed()`. */
  function Reverse<T>(s: seq<T>): (r: seq<T>)
    ensures |r| == |s|
  {
    if s == [] then [] else Reverse(s[1..]) + [s[0]]
  }

  /** Position `k` of the reversed list shows element `|s| - 1 - k` of the original. */
  lemma {:induction false} ReverseAt<T>(s: seq<T>, k: nat)
    requires k < |s|
    ensures Reverse(s)[k] == s[|s| - 1 - k]
  {
    if k < |s| - 1 {
      ReverseAt(s[1..], k);
    }
  }

  /** Reversing twice gives back the list. */
  lemma {:induction false} ReverseInvolutive<T>(s: seq<T>)
    ensures Reverse(Reverse(s)) == s
  {
    forall k | 0 <= k < |s| ensures Reverse(Reverse(s))[k] == s[k] {
      ReverseAt(Reverse(s), k);
      ReverseAt(s, |s| - 1 - k);
    }
  }
}
