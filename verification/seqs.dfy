/** Generic list operations with the semantics of Python slices and list comprehensions. */
module Seqs {

  /** `s[:n]`: the first `n` elements, or all of them when there are fewer. */
  function Take<T>(s: seq<T>, n: nat): (r: seq<T>)
    ensures |r| <= n && |r| <= |s|
    ensures |r| == n || r == s
    ensures r == s[..|r|]
  {
    if |s| <= n then s else s[..n]
  }

  lemma TakeAll<T>(s: seq<T>)
    ensures s[..|s|] == s
  {
  }

  /** `[x for x in s if p(x)]`. */
  function Filter<T>(s: seq<T>, p: T -> bool): (r: seq<T>)
    ensures |r| <= |s|
    ensures forall k :: 0 <= k < |r| ==> r[k] in s && p(r[k])
    ensures forall k :: 0 <= k < |s| && p(s[k]) ==> s[k] in r
  {
    if s == [] then []
    else (if p(s[0]) then [s[0]] else []) + Filter(s[1..], p)
  }

  /** A filter distributes over concatenation, that is, it keeps the original order. */
  lemma {:induction false} FilterAppend<T>(a: seq<T>, b: seq<T>, p: T -> bool)
    ensures Filter(a + b, p) == Filter(a, p) + Filter(b, p)
  {
    if a == [] {
      assert a + b == b;
    } else {
      assert (a + b)[1..] == a[1..] + b;
      FilterAppend(a[1..], b, p);
    }
  }

  /** Two complementary filters split a list: every element lands in exactly one of them. */
  lemma {:induction false} FilterPartition<T>(s: seq<T>, p: T -> bool, q: T -> bool)
    requires forall x :: q(x) <==> !p(x)
    ensures |Filter(s, p)| + |Filter(s, q)| == |s|
    ensures multiset(Filter(s, p)) + multiset(Filter(s, q)) == multiset(s)
  {
    if s != [] {
      FilterPartition(s[1..], p, q);
      assert s == [s[0]] + s[1..];
    }
  }

  /** `s.count(x)`. */
  function Count<T(==)>(s: seq<T>, x: T): (n: nat)
    ensures n <= |s|
    ensures n == 0 <==> x !in s
  {
    if s == [] then 0
    else (if s[0] == x then 1 else 0) + Count(s[1..], x)
  }

  lemma {:induction false} CountAppend<T>(a: seq<T>, b: seq<T>, x: T)
    ensures Count(a + b, x) == Count(a, x) + Count(b, x)
  {
    if a == [] {
      assert a + b == b;
    } else {
      assert (a + b)[1..] == a[1..] + b;
      CountAppend(a[1..], b, x);
    }
  }

  /** One more element counted: the step of a counting loop. */
  lemma CountSnoc<T>(s: seq<T>, i: nat, x: T)
    requires i < |s|
    ensures Count(s[..i + 1], x) == Count(s[..i], x) + if s[i] == x then 1 else 0
  {
    assert s[..i + 1] == s[..i] + [s[i]];
    CountAppend(s[..i], [s[i]], x);
  }

  /** `s.index(x)`: the position of the first occurrence of `x`. */
  function IndexOf<T(==)>(s: seq<T>, x: T): (i: nat)
    requires x in s
    ensures i < |s| && s[i] == x && x !in s[..i]
  {
    if s[0] == x then 0
    else
      assert s == [s[0]] + s[1..];
      1 + IndexOf(s[1..], x)
  }

  /** `[f(x) for x in s if keep(x)]`, written as the loop that appends to a list builds it. */
  function FilterMap<A, B>(s: seq<A>, keep: A -> bool, f: A -> B): (r: seq<B>)
    ensures |r| <= |s|
  {
    if s == [] then []
    else
      var init := FilterMap(s[..|s| - 1], keep, f);
      if keep(s[|s| - 1]) then init + [f(s[|s| - 1])] else init
  }

  /** One more step of the loop that builds the list. */
  lemma FilterMapSnoc<A, B>(s: seq<A>, i: nat, keep: A -> bool, f: A -> B)
    requires i < |s|
    ensures FilterMap(s[..i + 1], keep, f)
         == if keep(s[i]) then FilterMap(s[..i], keep, f) + [f(s[i])] else FilterMap(s[..i], keep, f)
  {
    assert s[..i + 1][..i] == s[..i];
  }

  /** The loop step in the form a loop invariant uses: the list built so far, extended with
      the image of a kept element, or left alone for a dropped one. */
  lemma FilterMapStep<A, B>(s: seq<A>, i: nat, keep: A -> bool, f: A -> B, acc: seq<B>, y: B)
    requires i < |s| && acc == FilterMap(s[..i], keep, f)
    ensures keep(s[i]) && y == f(s[i]) ==> acc + [y] == FilterMap(s[..i + 1], keep, f)
    ensures !keep(s[i]) ==> acc == FilterMap(s[..i + 1], keep, f)
  {
    FilterMapSnoc(s, i, keep, f);
  }

  /** Every kept element contributes its image, and every element of the result is the
      image of a kept element. */
  lemma {:induction false} FilterMapSelects<A, B>(s: seq<A>, keep: A -> bool, f: A -> B)
    ensures forall k :: 0 <= k < |s| && keep(s[k]) ==> f(s[k]) in FilterMap(s, keep, f)
    ensures forall y :: y in FilterMap(s, keep, f) ==> exists k :: 0 <= k < |s| && keep(s[k]) && y == f(s[k])
  {
    if s != [] {
      var init := s[..|s| - 1];
      FilterMapSelects(init, keep, f);
      assert forall k :: 0 <= k < |init| ==> init[k] == s[k];
    }
  }

  /** When every element is kept, the result is the image of the whole list, in order. */
  lemma {:induction false} FilterMapKeepsAll<A, B>(s: seq<A>, keep: A -> bool, f: A -> B)
    requires forall k :: 0 <= k < |s| ==> keep(s[k])
    ensures |FilterMap(s, keep, f)| == |s|
    ensures forall k :: 0 <= k < |s| ==> FilterMap(s, keep, f)[k] == f(s[k])
  {
    if s != [] {
      var init := s[..|s| - 1];
      FilterMapKeepsAll(init, keep, f);
      assert forall k :: 0 <= k < |init| ==> init[k] == s[k];
    }
  }
}
