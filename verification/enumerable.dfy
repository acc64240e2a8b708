/** The sequence operations the hex queries take from LINQ. */
module Enumerable {

  predicate NoDuplicates<T(==)>(s: seq<T>) {
    forall i, j :: 0 <= i < j < |s| ==> s[i] != s[j]
  }

  /** `a` is `b` with some elements dropped, the rest in order. */
  predicate IsSubsequence<T(==)>(a: seq<T>, b: seq<T>)
    decreases |b|
  {
    if a == [] then true
    else if b == [] then false
    else if a[0] == b[0] then IsSubsequence(a[1..], b[1..])
    else IsSubsequence(a, b[1..])
  }

  lemma {:induction false} SubsequenceMembers<T>(a: seq<T>, b: seq<T>)
    requires IsSubsequence(a, b)
    ensures forall x :: x in a ==> x in b
    decreases |b|
  {
    if a != [] {
      if a[0] == b[0] {
        SubsequenceMembers(a[1..], b[1..]);
        assert forall x :: x in a ==> x == a[0] || x in a[1..];
      } else {
        SubsequenceMembers(a, b[1..]);
      }
    }
  }

  /** `xs.Except(excluded)` once its hash set has been filled: the elements
      of `xs`, first occurrences only, that are not in `seen`. */
  function ExceptSet<T(==,!new)>(xs: seq<T>, seen: set<T>): (r: seq<T>)
    ensures forall x :: x in r <==> x in xs && x !in seen
    ensures NoDuplicates(r)
    ensures IsSubsequence(r, xs)
    decreases |xs|
  {
    if xs == [] then []
    else if xs[0] in seen then
      var rest := ExceptSet(xs[1..], seen);
      assert IsSubsequence(rest, xs) by { SkipHead(rest, xs); }
      rest
    else
      var rest := ExceptSet(xs[1..], seen + {xs[0]});
      var r := [xs[0]] + rest;
      assert r[1..] == rest;
      assert forall x :: x in r <==> x == xs[0] || x in rest;
      r
  }

  lemma SkipHead<T>(a: seq<T>, b: seq<T>)
    requires b != [] && IsSubsequence(a, b[1..])
    ensures IsSubsequence(a, b)
    decreases |b|, 0
  {
    if a != [] && a[0] == b[0] {
      SubsequenceOfTail(a, b[1..]);
    }
  }

  lemma SubsequenceOfTail<T>(a: seq<T>, b: seq<T>)
    requires a != [] && IsSubsequence(a, b)
    ensures IsSubsequence(a[1..], b)
    decreases |b|, 1
  {
    if a[0] == b[0] {
      if b[1..] != [] {
        SkipHead(a[1..], b);
      }
    } else {
      SubsequenceOfTail(a, b[1..]);
      SkipHead(a[1..], b);
    }
  }

  /** Reference definition of `first.Except(second)`, read from the end:
      `first[k]` is kept exactly when it is not in `second` and does not occur
      in `first[..k]`. */
  function FirstOccurrences<T(==)>(first: seq<T>, second: seq<T>): seq<T>
    decreases |first|
  {
    if first == [] then []
    else
      var init, x := first[..|first| - 1], first[|first| - 1];
      FirstOccurrences(init, second) + (if x in second || x in init then [] else [x])
  }

  /** LINQ's `first.Except(second)`: set difference that keeps the order and
      the first occurrence of each element of `first`. */
  function Except<T(==,!new)>(first: seq<T>, second: seq<T>): (r: seq<T>)
    ensures forall x :: x in r <==> x in first && x !in second
    ensures NoDuplicates(r)
    ensures IsSubsequence(r, first)
  {
    ExceptSet(first, set y | y in second)
  }

  /** `Except` keeps exactly the first occurrences, in order: it is the
      reference `FirstOccurrences`. */
  lemma ExceptIsFirstOccurrences<T(!new)>(first: seq<T>, second: seq<T>)
    ensures Except(first, second) == FirstOccurrences(first, second)
  {
    ExceptMatchesReference(first, second, set y | y in second);
  }

  lemma {:induction false} ExceptMatchesReference<T(!new)>(xs: seq<T>, second: seq<T>, seen: set<T>)
    requires seen == set y | y in second
    ensures ExceptSet(xs, seen) == FirstOccurrences(xs, second)
    decreases |xs|
  {
    if xs != [] {
      var init, x := xs[..|xs| - 1], xs[|xs| - 1];
      var last := if x in second || x in init then [] else [x];
      assert FirstOccurrences(xs, second) == FirstOccurrences(init, second) + last;
      ExceptMatchesReference(init, second, seen);
      ExceptSetSnoc(init, x, seen);
      assert x in seen <==> x in second;
      assert xs == init + [x];
    }
  }

  /** Appending one element to the input of `ExceptSet` appends it to the
      output exactly when it is new. */
  lemma {:induction false} ExceptSetSnoc<T(!new)>(xs: seq<T>, x: T, seen: set<T>)
    ensures ExceptSet(xs + [x], seen) == ExceptSet(xs, seen) + (if x in seen || x in xs then [] else [x])
    decreases |xs|
  {
    var ys := xs + [x];
    if xs == [] {
      assert ys[1..] == [];
    } else {
      assert ys[0] == xs[0] && ys[1..] == xs[1..] + [x];
      assert x in xs <==> x == xs[0] || x in xs[1..];
      if xs[0] in seen {
        ExceptSetSnoc(xs[1..], x, seen);
      } else {
        ExceptSetSnoc(xs[1..], x, seen + {xs[0]});
      }
    }
  }
}
