/**
 * The LINQ operators the controllers use on lists: `Where` (filter, keeping order),
 * `Count(predicate)`, `FirstOrDefault(predicate)` and `Select`.
 */
module Linq {
  import opened Wrappers

  /** `s.Where(p).ToList()` */
  function Where<T(==)>(s: seq<T>, p: T -> bool): (r: seq<T>)
    ensures |r| <= |s|
    ensures forall k :: 0 <= k < |r| ==> p(r[k]) && r[k] in s
    ensures forall k :: 0 <= k < |s| && p(s[k]) ==> s[k] in r
  {
    if s == [] then []
    else if p(s[0]) then [s[0]] + Where(s[1..], p)
    else Where(s[1..], p)
  }

  /** `s.Count(p)` */
  function Count<T>(s: seq<T>, p: T -> bool): (n: nat)
    ensures n <= |s|
  {
    if s == [] then 0 else (if p(s[0]) then 1 else 0) + Count(s[1..], p)
  }

  /** `a` is `b` with some elements left out, the rest in their order. */
  predicate IsSubsequence<T(==)>(a: seq<T>, b: seq<T>)
    decreases |b|
  {
    if a == [] then true
    else if b == [] then false
    else if a[0] == b[0] then IsSubsequence(a[1..], b[1..])
    else IsSubsequence(a, b[1..])
  }

  /** Filtering keeps the kept elements in their original order. */
  lemma {:induction false} WhereIsSubsequence<T>(s: seq<T>, p: T -> bool)
    ensures IsSubsequence(Where(s, p), s)
    decreases |s|
  {
    if s != [] {
      WhereIsSubsequence(s[1..], p);
      if p(s[0]) {
        assert ([s[0]] + Where(s[1..], p))[1..] == Where(s[1..], p);
      } else if Where(s[1..], p) != [] {
        var w := Where(s[1..], p);
        assert w[0] in w;
        assert w[0] != s[0];
      }
    }
  }

  /** Dropping the head of the longer list keeps a subsequence a subsequence. */
  lemma SkipHead<T>(a: seq<T>, b: seq<T>)
    requires b != [] && IsSubsequence(a, b[1..])
    ensures IsSubsequence(a, b)
    decreases |b|, 0
  {
    if a != [] && a[0] == b[0] {
      SubsequenceOfTail(a, b[1..]);
    }
  }

  /** A list with its head dropped is still a subsequence of what the list was drawn from. */
  lemma {:induction false} SubsequenceOfTail<T>(a: seq<T>, b: seq<T>)
    requires a != [] && IsSubsequence(a, b)
    ensures IsSubsequence(a[1..], b)
    decreases |b|, 1
  {
    if b != [] {
      if a[0] == b[0] {
        if a[1..] != [] {
          SkipHead(a[1..], b);
        }
      } else {
        SubsequenceOfTail(a, b[1..]);
        if a[1..] != [] {
          SkipHead(a[1..], b);
        }
      }
    }
  }

  /** Every list is a subsequence of itself. */
  lemma {:induction false} SubsequenceOfItself<T>(s: seq<T>)
    ensures IsSubsequence(s, s)
    decreases |s|
  {
    if s != [] {
      SubsequenceOfItself(s[1..]);
    }
  }

  /** Counting and filtering agree. */
  lemma {:induction false} CountIsWhereLength<T>(s: seq<T>, p: T -> bool)
    ensures Count(s, p) == |Where(s, p)|
    decreases |s|
  {
    if s != [] {
      CountIsWhereLength(s[1..], p);
    }
  }

  /**
   * `s.FirstOrDefault(p)`, as the position of the first element that satisfies `p`;
   * `None` is the `null` of no match.
   */
  function FirstWith<T>(s: seq<T>, p: T -> bool): (r: Option<nat>)
    ensures r.Some? ==> r.value < |s| && p(s[r.value])
    ensures r.Some? ==> forall j :: 0 <= j < r.value ==> !p(s[j])
    ensures r.None? <==> forall j :: 0 <= j < |s| ==> !p(s[j])
  {
    if s == [] then None
    else if p(s[0]) then Some(0)
    else
      match FirstWith(s[1..], p)
      case None => None
      case Some(k) => Some(k + 1)
  }

  /** Counting over a list with one more element at the end. */
  lemma {:induction false} CountSnoc<T>(s: seq<T>, x: T, p: T -> bool)
    ensures Count(s + [x], p) == Count(s, p) + (if p(x) then 1 else 0)
    decreases |s|
  {
    if s == [] {
      assert s + [x] == [x];
    } else {
      assert (s + [x])[1..] == s[1..] + [x];
      CountSnoc(s[1..], x, p);
    }
  }

  /** `s.Select(f)`: `f` of each element, in order. */
  function Select<A, B>(s: seq<A>, f: A -> B): (r: seq<B>)
    ensures |r| == |s|
  {
    if s == [] then [] else Select(s[..|s| - 1], f) + [f(s[|s| - 1])]
  }

  /** Element `k` of a projection is the projection of element `k`. */
  lemma {:induction false} SelectAt<A, B>(s: seq<A>, f: A -> B, k: nat)
    requires k < |s|
    ensures Select(s, f)[k] == f(s[k])
    decreases |s|
  {
    if k < |s| - 1 {
      SelectAt(s[..|s| - 1], f, k);
    }
  }
}
