/** The java.util collection and stream operations the engine uses, over
    Dafny sequences: filter(...).findFirst(), filter(...).limit(n) and
    List.remove(Object). */
module Seqs {
  import opened Wrappers

  /** r keeps some elements of s in their original order. */
  ghost predicate IsSubsequence<T>(r: seq<T>, s: seq<T>)
    decreases |s|
  {
    r == [] ||
    (s != [] &&
     ((r[|r| - 1] == s[|s| - 1] && IsSubsequence(r[..|r| - 1], s[..|s| - 1])) ||
      IsSubsequence(r, s[..|s| - 1])))
  }

  /** A prefix of an order-preserving selection is one too. */
  lemma {:induction false} SubsequencePrefix<T>(r: seq<T>, s: seq<T>, n: nat)
    requires IsSubsequence(r, s) && n <= |r|
    ensures IsSubsequence(r[..n], s)
    decreases |s|
  {
    if n == 0 {
    } else if n == |r| {
      assert r[..n] == r;
    } else if r[|r| - 1] == s[|s| - 1] && IsSubsequence(r[..|r| - 1], s[..|s| - 1]) {
      SubsequencePrefix(r[..|r| - 1], s[..|s| - 1], n);
      assert r[..|r| - 1][..n] == r[..n];
    } else {
      SubsequencePrefix(r, s[..|s| - 1], n);
    }
  }

  /** Stream.filter(p).findFirst(): the earliest element satisfying p, or
      nothing when no element does. */
  function FindFirst<T>(s: seq<T>, p: T -> bool): (r: Option<T>)
    ensures r.None? <==> forall i :: 0 <= i < |s| ==> !p(s[i])
    ensures r.Some? ==> exists i :: 0 <= i < |s| && s[i] == r.value && p(s[i]) && forall j :: 0 <= j < i ==> !p(s[j])
  {
    if s == [] then None
    else
      var r := FindFirst(s[..|s| - 1], p);
      if r.Some? then r
      else if p(s[|s| - 1]) then Some(s[|s| - 1])
      else None
  }

  /** Extending the searched prefix by one element keeps an earlier find. */
  lemma FindFirstStep<T>(s: seq<T>, j: nat, p: T -> bool)
    requires j < |s|
    ensures FindFirst(s[..j + 1], p) == if FindFirst(s[..j], p).Some? then FindFirst(s[..j], p) else if p(s[j]) then Some(s[j]) else None
  {
    assert s[..j + 1][..j] == s[..j];
  }

  /** Stream.filter(p) collected: exactly the elements of s that satisfy p,
      in the order of s, each as often as it occurs in s. */
  function Filter<T(!new)>(s: seq<T>, p: T -> bool): (r: seq<T>)
    ensures |r| <= |s|
    ensures forall i :: 0 <= i < |r| ==> p(r[i]) && r[i] in s
    ensures forall i :: 0 <= i < |s| && p(s[i]) ==> s[i] in r
    ensures IsSubsequence(r, s)
    ensures forall x :: multiset(r)[x] == if p(x) then multiset(s)[x] else 0
  {
    if s == [] then []
    else
      var init, last := s[..|s| - 1], s[|s| - 1];
      var f := Filter(init, p);
      var r := if p(last) then f + [last] else f;
      FilterSnoc(s, p, f, r);
      FilterSnocCount(s, p, f, r);
      r
  }

  /** One more element extends the filtered sequence of the ones before it. */
  lemma FilterSnoc<T>(s: seq<T>, p: T -> bool, f: seq<T>, r: seq<T>)
    requires s != []
    requires var init := s[..|s| - 1]; |f| <= |init| && IsSubsequence(f, init)
    requires forall i :: 0 <= i < |f| ==> p(f[i]) && f[i] in s[..|s| - 1]
    requires forall i :: 0 <= i < |s| - 1 && p(s[i]) ==> s[i] in f
    requires r == if p(s[|s| - 1]) then f + [s[|s| - 1]] else f
    ensures
      && |r| <= |s|
      && (forall i :: 0 <= i < |r| ==> p(r[i]) && r[i] in s)
      && (forall i :: 0 <= i < |s| && p(s[i]) ==> s[i] in r)
      && IsSubsequence(r, s)
  {
    var init, last := s[..|s| - 1], s[|s| - 1];
    assert forall i :: 0 <= i < |s| - 1 ==> s[i] == init[i];
    if p(last) {
      assert r[..|r| - 1] == f;
    }
  }

  /** ... and keeps the count of every element that satisfies p. */
  lemma FilterSnocCount<T(!new)>(s: seq<T>, p: T -> bool, f: seq<T>, r: seq<T>)
    requires s != []
    requires forall x :: multiset(f)[x] == if p(x) then multiset(s[..|s| - 1])[x] else 0
    requires r == if p(s[|s| - 1]) then f + [s[|s| - 1]] else f
    ensures forall x :: multiset(r)[x] == if p(x) then multiset(s)[x] else 0
  {
    var init, last := s[..|s| - 1], s[|s| - 1];
    assert s == init + [last];
    assert multiset(s) == multiset(init) + multiset{last};
    if p(last) {
      assert multiset(r) == multiset(f) + multiset{last};
    }
  }

  /** Stream.limit(n): the first n elements, or all of them when fewer. */
  function Take<T>(s: seq<T>, n: nat): (r: seq<T>)
    ensures |r| == if n < |s| then n else |s|
    ensures r <= s
  {
    if n < |s| then s[..n] else s
  }

  /** The first n elements of s that satisfy p: a subsequence of s, all
      satisfying p, and every such element of s once fewer than n are
      found. */
  lemma TakeFiltered<T(!new)>(s: seq<T>, p: T -> bool, n: nat)
    ensures var r := Take(Filter(s, p), n);
      && IsSubsequence(r, s)
      && (forall i :: 0 <= i < |r| ==> p(r[i]))
      && (|r| < n ==> forall i :: 0 <= i < |s| && p(s[i]) ==> s[i] in r)
  {
    var all := Filter(s, p);
    var r := Take(all, n);
    SubsequencePrefix(all, s, |r|);
    assert r == all[..|r|];
  }

  /** List.remove(Object): drops the first element equal to x, if any. */
  function RemoveFirst<T(==)>(s: seq<T>, x: T): (r: seq<T>)
    ensures x !in s ==> r == s
    ensures x in s ==> |r| == |s| - 1
  {
    if s == [] then []
    else if s[0] == x then s[1..]
    else [s[0]] + RemoveFirst(s[1..], x)
  }

  /** When x first occurs at index i, removing it leaves everything before
      and after i in order. */
  lemma {:induction false} RemoveFirstAt<T>(s: seq<T>, x: T, i: nat)
    requires i < |s| && s[i] == x && x !in s[..i]
    ensures RemoveFirst(s, x) == s[..i] + s[i + 1..]
  {
    if i > 0 {
      assert s[1..][..i - 1] == s[1..i];
      assert x !in s[1..][..i - 1];
      RemoveFirstAt(s[1..], x, i - 1);
      assert s[1..][i..] == s[i + 1..];
    }
  }
}
