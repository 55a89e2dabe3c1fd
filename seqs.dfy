/** Sequence utilities shared by the model: JavaScript's Array.prototype.filter,
    subsequences, duplicate-freedom and the removal of a first occurrence
    (Array.prototype.splice at the index found by indexOf). */
module Seqs {

  datatype Option<+T> = None | Some(value: T)

  /** r is obtained from s by deleting some of its elements, keeping the order of the rest. */
  ghost predicate IsSubsequence<T>(r: seq<T>, s: seq<T>)
    decreases |s|
  {
    if s == [] then r == []
    else (r != [] && r[0] == s[0] && IsSubsequence(r[1..], s[1..])) || IsSubsequence(r, s[1..])
  }

  /** No element occurs twice. */
  predicate NoDup<T(==)>(s: seq<T>) {
    forall i, j :: 0 <= i < j < |s| ==> s[i] != s[j]
  }

  /** The elements of s that satisfy p, in their order in s (Array.prototype.filter). */
  function Filter<T(==)>(s: seq<T>, p: T -> bool): (r: seq<T>)
    ensures |r| <= |s|
    ensures forall i :: 0 <= i < |r| ==> r[i] in s && p(r[i])
    ensures forall i :: 0 <= i < |s| && p(s[i]) ==> s[i] in r
  {
    if s == [] then []
    else if p(s[0]) then [s[0]] + Filter(s[1..], p)
    else Filter(s[1..], p)
  }

  /** s with every occurrence of x removed (a filter on inequality). */
  function RemoveAll<T(==)>(s: seq<T>, x: T): seq<T> {
    Filter(s, y => y != x)
  }

  /** RemoveAll drops every copy of x, keeps every copy of anything else, and keeps their order. */
  lemma RemoveAllSpec<T>(s: seq<T>, x: T)
    ensures x !in RemoveAll(s, x)
    ensures forall y :: y != x ==> multiset(RemoveAll(s, x))[y] == multiset(s)[y]
    ensures IsSubsequence(RemoveAll(s, x), s)
  {
    forall y | y != x ensures multiset(RemoveAll(s, x))[y] == multiset(s)[y] {
      FilterCount(s, z => z != x, y);
    }
    FilterCount(s, z => z != x, x);
    FilterIsSubsequence(s, z => z != x);
  }

  lemma RemoveAllNoDup<T>(s: seq<T>, x: T)
    requires NoDup(s)
    ensures NoDup(RemoveAll(s, x))
  {
    FilterNoDup(s, y => y != x);
  }

  /** s with its first occurrence of x removed; s itself when x does not occur. */
  function RemoveFirst<T(==)>(s: seq<T>, x: T): seq<T> {
    if s == [] then []
    else if s[0] == x then s[1..]
    else [s[0]] + RemoveFirst(s[1..], x)
  }

  lemma {:induction false} FilterIsSubsequence<T>(s: seq<T>, p: T -> bool)
    ensures IsSubsequence(Filter(s, p), s)
  {
    if s != [] {
      FilterIsSubsequence(s[1..], p);
      if p(s[0]) {
        assert Filter(s, p)[1..] == Filter(s[1..], p);
      }
    }
  }

  /** Filter keeps every occurrence of an element satisfying p and drops every other. */
  lemma {:induction false} FilterCount<T>(s: seq<T>, p: T -> bool, x: T)
    ensures multiset(Filter(s, p))[x] == if p(x) then multiset(s)[x] else 0
  {
    if s != [] {
      FilterCount(s[1..], p, x);
      assert s == [s[0]] + s[1..];
    }
  }

  /** Filtering a duplicate-free sequence leaves it duplicate-free. */
  lemma {:induction false} FilterNoDup<T>(s: seq<T>, p: T -> bool)
    requires NoDup(s)
    ensures NoDup(Filter(s, p))
  {
    if s != [] {
      NoDupTail(s);
      FilterNoDup(s[1..], p);
      if p(s[0]) {
        NoDupCons(s[0], Filter(s[1..], p));
      }
    }
  }

  lemma NoDupTail<T>(s: seq<T>)
    requires NoDup(s) && s != []
    ensures NoDup(s[1..]) && s[0] !in s[1..]
  {
  }

  lemma NoDupCons<T>(x: T, s: seq<T>)
    requires NoDup(s) && x !in s
    ensures NoDup([x] + s)
  {
  }

  /** The splice that removes the element at the first index k holding x is RemoveFirst. */
  lemma {:induction false} RemoveFirstAt<T>(s: seq<T>, x: T, k: nat)
    requires k < |s| && s[k] == x && x !in s[..k]
    ensures RemoveFirst(s, x) == s[..k] + s[k + 1..]
  {
    if k > 0 {
      assert s[0] in s[..k];
      assert s[1..][..k - 1] == s[1..k];
      RemoveFirstAt(s[1..], x, k - 1);
      assert s[..k] == [s[0]] + s[1..k];
    }
  }

  /** Removing a first occurrence takes exactly one copy of x away and changes no other count. */
  lemma {:induction false} RemoveFirstCount<T>(s: seq<T>, x: T)
    ensures multiset(RemoveFirst(s, x)) == if x in s then multiset(s) - multiset{x} else multiset(s)
  {
    if s != [] {
      RemoveFirstCount(s[1..], x);
      assert s == [s[0]] + s[1..];
    }
  }

  lemma {:induction false} RemoveFirstNoDup<T>(s: seq<T>, x: T)
    requires NoDup(s)
    ensures NoDup(RemoveFirst(s, x)) && x !in RemoveFirst(s, x)
    ensures forall i :: 0 <= i < |s| && s[i] != x ==> s[i] in RemoveFirst(s, x)
    ensures forall i :: 0 <= i < |RemoveFirst(s, x)| ==> RemoveFirst(s, x)[i] in s
  {
    if s != [] {
      NoDupTail(s);
      RemoveFirstNoDup(s[1..], x);
      if s[0] != x {
        NoDupCons(s[0], RemoveFirst(s[1..], x));
      }
    }
  }

  /** On a duplicate-free sequence, removing the first occurrence removes every occurrence. */
  lemma {:induction false} RemoveFirstIsFilter<T>(s: seq<T>, x: T)
    requires NoDup(s)
    ensures RemoveFirst(s, x) == RemoveAll(s, x)
  {
    if s != [] {
      NoDupTail(s);
      RemoveFirstIsFilter(s[1..], x);
      if s[0] == x {
        FilterAllKept(s[1..], y => y != x);
      }
    }
  }

  lemma NoDupSnoc<T>(s: seq<T>, x: T)
    requires NoDup(s) && x !in s
    ensures NoDup(s + [x])
  {
  }

  /** Array.prototype.indexOf: the first index holding x, or -1 when there is none. */
  method IndexOf<T(==)>(s: seq<T>, x: T) returns (idx: int)
    ensures idx == -1 <==> x !in s
    ensures idx != -1 ==> 0 <= idx < |s| && s[idx] == x && x !in s[..idx]
  {
    idx := 0;
    while idx < |s|
      invariant 0 <= idx <= |s|
      invariant x !in s[..idx]
    {
      if s[idx] == x {
        return;
      }
      idx := idx + 1;
    }
    assert s[..idx] == s;
    idx := -1;
  }

  lemma {:induction false} FilterAllKept<T>(s: seq<T>, p: T -> bool)
    requires forall i :: 0 <= i < |s| ==> p(s[i])
    ensures Filter(s, p) == s
  {
    if s != [] {
      FilterAllKept(s[1..], p);
    }
  }

  /** A prefix of a subsequence of s is a subsequence of s. */
  lemma {:induction false} PrefixOfSubsequence<T>(r: seq<T>, s: seq<T>, n: nat)
    requires IsSubsequence(r, s) && n <= |r|
    ensures IsSubsequence(r[..n], s)
    decreases |s|
  {
    if s == [] {
    } else if r != [] && r[0] == s[0] && IsSubsequence(r[1..], s[1..]) {
      if n > 0 {
        PrefixOfSubsequence(r[1..], s[1..], n - 1);
        assert r[..n][1..] == r[1..][..n - 1];
      } else {
        EmptySubsequence(s);
      }
    } else {
      PrefixOfSubsequence(r, s[1..], n);
    }
  }

  lemma {:induction false} EmptySubsequence<T>(s: seq<T>)
    ensures IsSubsequence([], s)
    decreases |s|
  {
    if s != [] {
      EmptySubsequence(s[1..]);
    }
  }
}
