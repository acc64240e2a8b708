/** `RemoveSystem`: delete every sub-system equal to a target, at every level
    of the tree, with the index quirk of the source's loop. */
module LoopRemoval {
  import opened Enumerable
  import opened PlayerLoop

  /** A system is deleted when both its type and its update delegate equal
      the target's. */
  predicate Matches<Ty(==), Del(==)>(n: Node<Ty, Del>, target: Node<Ty, Del>) {
    n.ty == target.ty && n.del == target.del
  }

  /** The systems of `items` that do not match, in order. */
  function Unmatched<Ty(==), Del(==)>(items: seq<Node<Ty, Del>>, target: Node<Ty, Del>): seq<Node<Ty, Del>> {
    if items == [] then []
    else if Matches(items[0], target) then Unmatched(items[1..], target)
    else [items[0]] + Unmatched(items[1..], target)
  }

  /** The `for` loop over one level: a match at index `i` is removed and `i`
      still advances, so the system that slid into slot `i` is kept without
      being looked at. */
  function RemovePass<Ty(==), Del(==)>(items: seq<Node<Ty, Del>>, target: Node<Ty, Del>): seq<Node<Ty, Del>>
    decreases |items|
  {
    if items == [] then []
    else if !Matches(items[0], target) then [items[0]] + RemovePass(items[1..], target)
    else if |items| == 1 then []
    else [items[1]] + RemovePass(items[2..], target)
  }

  /** Only matching systems are dropped, and the rest keep their order. */
  lemma {:induction false} PassDropsOnlyMatches<Ty, Del>(items: seq<Node<Ty, Del>>, target: Node<Ty, Del>)
    ensures IsSubsequence(RemovePass(items, target), items)
    ensures Unmatched(RemovePass(items, target), target) == Unmatched(items, target)
    decreases |items|
  {
    var kept := RemovePass(items, target);
    if items == [] {
    } else if !Matches(items[0], target) {
      var rest := RemovePass(items[1..], target);
      PassDropsOnlyMatches(items[1..], target);
      assert kept[1..] == rest;
    } else if |items| > 1 {
      var rest := RemovePass(items[2..], target);
      PassDropsOnlyMatches(items[2..], target);
      assert kept[1..] == rest;
      assert items[1..][1..] == items[2..];
      SkipHead(rest, items[1..]);
      assert IsSubsequence(kept, items[1..]);
      SkipHead(kept, items);
      assert Unmatched(items, target) == Unmatched(items[1..], target);
      if Matches(items[1], target) {
        assert Unmatched(items[1..], target) == Unmatched(items[2..], target);
      } else {
        assert Unmatched(items[1..], target) == [items[1]] + Unmatched(items[2..], target);
      }
    }
  }

  /** When no two matching systems are adjacent, every match is removed. */
  lemma {:induction false} PassRemovesIsolatedMatches<Ty, Del>(items: seq<Node<Ty, Del>>, target: Node<Ty, Del>)
    requires forall i :: 0 <= i < |items| - 1 ==> !(Matches(items[i], target) && Matches(items[i + 1], target))
    ensures RemovePass(items, target) == Unmatched(items, target)
    decreases |items|
  {
    if items != [] {
      if !Matches(items[0], target) {
        PassRemovesIsolatedMatches(items[1..], target);
      } else if |items| > 1 {
        assert !Matches(items[1], target);
        PassRemovesIsolatedMatches(items[2..], target);
        assert items[1..][1..] == items[2..];
      }
    }
  }

  /** With nothing to match the pass changes nothing. */
  lemma {:induction false} PassWithoutMatches<Ty, Del>(items: seq<Node<Ty, Del>>, target: Node<Ty, Del>)
    requires forall i :: 0 <= i < |items| ==> !Matches(items[i], target)
    ensures RemovePass(items, target) == items
    decreases |items|
  {
    if items != [] {
      PassWithoutMatches(items[1..], target);
    }
  }

  function Repeat<T>(x: T, k: nat): (s: seq<T>)
    ensures |s| == k && forall i :: 0 <= i < k ==> s[i] == x
  {
    seq(k, _ => x)
  }

  /** The quirk: of a run of `k` matching systems, every second one is
      skipped, so `k / 2` of them survive (one of two twins). */
  lemma {:induction false} PassHalvesRun<Ty, Del>(x: Node<Ty, Del>, k: nat, target: Node<Ty, Del>)
    requires Matches(x, target)
    ensures RemovePass(Repeat(x, k), target) == Repeat(x, k / 2)
    decreases k
  {
    if k >= 2 {
      PassHalvesRun(x, k - 2, target);
      assert Repeat(x, k)[2..] == Repeat(x, k - 2);
      assert Repeat(x, k / 2) == [x] + Repeat(x, (k - 2) / 2);
    }
  }

  /** The loop as written, on a mutable copy of the list: `removed` records
      whether the list was ever written back. */
  method RemoveLevel<Ty(==), Del(==)>(items: seq<Node<Ty, Del>>, target: Node<Ty, Del>)
    returns (list: seq<Node<Ty, Del>>, removed: bool)
    ensures list == RemovePass(items, target)
    ensures removed <==> |list| < |items|
  {
    list := items;
    removed := false;
    var i := 0;
    assert list[..0] == [] && list[0..] == list;
    while i < |list|
      invariant LoopState(items, list, i, target)
      invariant |list| <= |items|
      invariant removed <==> |list| < |items|
      decreases |list| - i + 1
    {
      if Matches(list[i], target) {
        MatchStep(items, list, i, target);
        list := list[..i] + list[i + 1..];
        removed := true;
      } else {
        SkipStep(items, list, i, target);
      }
      i := i + 1;
    }
    assert list[..Clamp(i, |list|)] == list;
  }

  function Clamp(i: int, n: int): int {
    if i < n then i else n
  }

  /** The loop invariant: the part before index `i` is final, and passing
      over the rest gives the answer. */
  predicate LoopState<Ty(==), Del(==)>(items: seq<Node<Ty, Del>>, list: seq<Node<Ty, Del>>, i: int, target: Node<Ty, Del>) {
    && 0 <= i <= |list| + 1
    && list[..Clamp(i, |list|)] + RemovePass(list[Clamp(i, |list|)..], target) == RemovePass(items, target)
  }

  lemma MatchStep<Ty, Del>(items: seq<Node<Ty, Del>>, list: seq<Node<Ty, Del>>, i: int, target: Node<Ty, Del>)
    requires LoopState(items, list, i, target) && i < |list| && Matches(list[i], target)
    ensures LoopState(items, list[..i] + list[i + 1..], i + 1, target)
  {
    var after := list[..i] + list[i + 1..];
    assert list[i..][1..] == list[i + 1..];
    if i + 1 < |list| {
      assert list[i..][2..] == list[i + 2..];
      assert after[..i + 1] == list[..i] + [list[i + 1]];
      assert after[i + 1..] == list[i + 2..];
    } else {
      assert after == list[..i];
      assert after[..i] == after;
    }
  }

  lemma SkipStep<Ty, Del>(items: seq<Node<Ty, Del>>, list: seq<Node<Ty, Del>>, i: int, target: Node<Ty, Del>)
    requires LoopState(items, list, i, target) && i < |list| && !Matches(list[i], target)
    ensures LoopState(items, list, i + 1, target)
  {
    assert list[..i + 1] == list[..i] + [list[i]];
    assert list[i..][1..] == list[i + 1..];
  }

  /** `RemoveSystem`: a node with a null list is left alone; otherwise its
      list goes through the level pass and then every remaining sub-system is
      processed the same way. The node itself is never removed. */
  function RemoveSystem<Ty(==), Del(==)>(n: Node<Ty, Del>, target: Node<Ty, Del>): (r: Node<Ty, Del>)
    ensures r.ty == n.ty && r.del == n.del
    ensures n.subs.Null? ==> r == n
    ensures n.subs.List? ==> r.subs.List? && |r.subs.items| == |RemovePass(n.subs.items, target)|
    decreases n
  {
    if n.subs.Null? then n
    else
      var kept := RemovePass(n.subs.items, target);
      PassDropsOnlyMatches(n.subs.items, target);
      SubsequenceMembers(kept, n.subs.items);
      Node(n.ty, n.del, List(seq(|kept|, i requires 0 <= i < |kept| && kept[i] in n.subs.items =>
        RemoveSystem(kept[i], target))))
  }

  /** Nothing in the tree below `n` matches the target. */
  predicate NothingToRemove<Ty(==), Del(==)>(n: Node<Ty, Del>, target: Node<Ty, Del>)
    decreases n
  {
    n.subs.List? ==>
      forall i :: 0 <= i < |n.subs.items| ==>
        !Matches(n.subs.items[i], target) && NothingToRemove(n.subs.items[i], target)
  }

  /** Removing a system that occurs nowhere leaves the tree unchanged. */
  lemma {:induction false} RemoveAbsentIsNoop<Ty, Del>(n: Node<Ty, Del>, target: Node<Ty, Del>)
    requires NothingToRemove(n, target)
    ensures RemoveSystem(n, target) == n
    decreases n
  {
    if n.subs.List? {
      var items := n.subs.items;
      PassWithoutMatches(items, target);
      var r := RemoveSystem(n, target);
      forall i | 0 <= i < |items|
        ensures r.subs.items[i] == items[i]
      {
        RemoveAbsentIsNoop(items[i], target);
      }
      assert r.subs.items == items;
    }
  }

  /** Removal only deletes: every node of the result sits, at the same depth,
      where a node of the input sits, and is that node with removal applied
      below it, so it keeps that node's type and delegate. */
  lemma {:induction false} RemovedNodeOrigin<Ty, Del>(n: Node<Ty, Del>, target: Node<Ty, Del>, q: seq<nat>)
    returns (p: seq<nat>)
    requires At(RemoveSystem(n, target), q).Some?
    ensures |p| == |q| && At(n, p).Some?
    ensures At(RemoveSystem(n, target), q).value == RemoveSystem(At(n, p).value, target)
    ensures At(RemoveSystem(n, target), q).value.ty == At(n, p).value.ty
    ensures At(RemoveSystem(n, target), q).value.del == At(n, p).value.del
    decreases n
  {
    var r := RemoveSystem(n, target);
    if q == [] {
      p := [];
    } else {
      var items := n.subs.items;
      var kept := RemovePass(items, target);
      PassDropsOnlyMatches(items, target);
      SubsequenceMembers(kept, items);
      var i, q2 := q[0], q[1..];
      assert q == [i] + q2;
      AtChild(r, i, q2);
      assert r.subs.items[i] == RemoveSystem(kept[i], target);
      assert kept[i] in items;
      var j :| 0 <= j < |items| && items[j] == kept[i];
      var p2 := RemovedNodeOrigin(items[j], target, q2);
      p := [j] + p2;
      AtChild(n, j, p2);
    }
  }

  /** `RemoveSystem` applied to each system of `s`, in order. */
  function MapRemove<Ty(==), Del(==)>(s: seq<Node<Ty, Del>>, target: Node<Ty, Del>): (r: seq<Node<Ty, Del>>)
    ensures |r| == |s| && forall i :: 0 <= i < |s| ==> r[i] == RemoveSystem(s[i], target)
  {
    seq(|s|, i requires 0 <= i < |s| => RemoveSystem(s[i], target))
  }

  lemma RemoveChildren<Ty, Del>(n: Node<Ty, Del>, target: Node<Ty, Del>)
    requires n.subs.List?
    ensures RemoveSystem(n, target).subs.items == MapRemove(RemovePass(n.subs.items, target), target)
  {
  }

  /** Dropping the matches commutes with cleaning each system, because
      cleaning keeps a system's type and delegate. */
  lemma {:induction false} UnmatchedCommutes<Ty, Del>(s: seq<Node<Ty, Del>>, target: Node<Ty, Del>)
    ensures Unmatched(MapRemove(s, target), target) == MapRemove(Unmatched(s, target), target)
    decreases |s|
  {
    if s != [] {
      UnmatchedCommutes(s[1..], target);
      var head := RemoveSystem(s[0], target);
      assert MapRemove(s, target) == [head] + MapRemove(s[1..], target);
      assert MapRemove(s, target)[1..] == MapRemove(s[1..], target);
      if !Matches(s[0], target) {
        var rest := Unmatched(s[1..], target);
        assert MapRemove([s[0]] + rest, target) == [head] + MapRemove(rest, target);
      }
    }
  }

  /** Cleaning each system keeps a subsequence a subsequence. */
  lemma {:induction false} MapRemoveSubsequence<Ty, Del>(a: seq<Node<Ty, Del>>, b: seq<Node<Ty, Del>>, target: Node<Ty, Del>)
    requires IsSubsequence(a, b)
    ensures IsSubsequence(MapRemove(a, target), MapRemove(b, target))
    decreases |b|
  {
    var fa, fb := MapRemove(a, target), MapRemove(b, target);
    if a != [] {
      assert fb[1..] == MapRemove(b[1..], target);
      assert fa[1..] == MapRemove(a[1..], target);
      if a[0] == b[0] {
        MapRemoveSubsequence(a[1..], b[1..], target);
      } else {
        MapRemoveSubsequence(a, b[1..], target);
        if fa[0] == fb[0] {
          SubsequenceOfTail(fa, fb[1..]);
        }
      }
    }
  }

  /** Removal keeps every system that does not match, in order, each cleaned
      below; what it keeps is drawn in order from the cleaned input list. */
  lemma RemoveKeepsUnmatched<Ty, Del>(n: Node<Ty, Del>, target: Node<Ty, Del>)
    requires n.subs.List?
    ensures Unmatched(RemoveSystem(n, target).subs.items, target)
         == MapRemove(Unmatched(n.subs.items, target), target)
    ensures IsSubsequence(RemoveSystem(n, target).subs.items, MapRemove(n.subs.items, target))
  {
    var items := n.subs.items;
    RemoveChildren(n, target);
    PassDropsOnlyMatches(items, target);
    UnmatchedCommutes(RemovePass(items, target), target);
    MapRemoveSubsequence(RemovePass(items, target), items, target);
  }

  /** No list anywhere in the tree holds two adjacent matching systems. */
  predicate NoAdjacentMatches<Ty(==), Del(==)>(n: Node<Ty, Del>, target: Node<Ty, Del>)
    decreases n
  {
    n.subs.List? ==>
      && (forall i :: 0 <= i < |n.subs.items| - 1 ==>
            !(Matches(n.subs.items[i], target) && Matches(n.subs.items[i + 1], target)))
      && (forall i :: 0 <= i < |n.subs.items| ==> NoAdjacentMatches(n.subs.items[i], target))
  }

  /** When no two matches are adjacent at any level, removal clears every
      match from the tree. */
  lemma {:induction false} RemoveClearsIsolated<Ty, Del>(n: Node<Ty, Del>, target: Node<Ty, Del>)
    requires NoAdjacentMatches(n, target)
    ensures NothingToRemove(RemoveSystem(n, target), target)
    decreases n
  {
    if n.subs.List? {
      var items := n.subs.items;
      PassRemovesIsolatedMatches(items, target);
      var kept := RemovePass(items, target);
      UnmatchedMembers(items, target);
      var r := RemoveSystem(n, target);
      forall i | 0 <= i < |r.subs.items|
        ensures !Matches(r.subs.items[i], target) && NothingToRemove(r.subs.items[i], target)
      {
        assert r.subs.items[i] == RemoveSystem(kept[i], target);
        assert kept[i] in Unmatched(items, target);
        assert kept[i] in items;
        var j :| 0 <= j < |items| && items[j] == kept[i];
        RemoveClearsIsolated(items[j], target);
      }
    }
  }

  lemma {:induction false} UnmatchedMembers<Ty, Del>(items: seq<Node<Ty, Del>>, target: Node<Ty, Del>)
    ensures forall x :: x in Unmatched(items, target) ==> x in items && !Matches(x, target)
    decreases |items|
  {
    if items != [] {
      UnmatchedMembers(items[1..], target);
    }
  }
}
