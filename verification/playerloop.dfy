/** The tree of systems Unity runs each frame: a `PlayerLoopSystem` has a
    type, an update delegate and an optional (possibly null) list of
    sub-systems. Types and delegates are compared only for equality, so both
    are type parameters. Paths address nodes: `[]` is the node itself, `[i] + p`
    is path `p` inside its `i`-th sub-system. */
module PlayerLoop {
  import opened Wrappers

  datatype Node<Ty, Del> = Node(ty: Ty, del: Del, subs: SubSystems<Ty, Del>)

  /** `subSystemList`: `null` or an array of systems. */
  datatype SubSystems<Ty, Del> = Null | List(items: seq<Node<Ty, Del>>)

  /** The sub-systems, with a null list read as empty. */
  function Kids<Ty, Del>(n: Node<Ty, Del>): seq<Node<Ty, Del>> {
    if n.subs.Null? then [] else n.subs.items
  }

  /** The node at path `p`, if every step goes through a non-null list. */
  function At<Ty, Del>(n: Node<Ty, Del>, p: seq<nat>): Option<Node<Ty, Del>>
    decreases |p|
  {
    if p == [] then Some(n)
    else if n.subs.List? && p[0] < |n.subs.items| then At(n.subs.items[p[0]], p[1..])
    else None
  }

  /** The paths of `n` are `[]` and the paths of its sub-systems, each
      behind the sub-system's index. */
  lemma AtChild<Ty, Del>(n: Node<Ty, Del>, j: nat, p: seq<nat>)
    requires n.subs.List? && j < |n.subs.items|
    ensures At(n, [j] + p) == At(n.subs.items[j], p)
  {
    assert ([j] + p)[1..] == p;
  }

  /** `n` with the node at path `p` replaced by `sub`. */
  function Graft<Ty, Del>(n: Node<Ty, Del>, p: seq<nat>, sub: Node<Ty, Del>): (r: Node<Ty, Del>)
    requires At(n, p).Some?
    ensures At(r, p) == Some(sub)
    decreases |p|
  {
    if p == [] then sub
    else
      var items := n.subs.items;
      var child := Graft(items[p[0]], p[1..], sub);
      var r := Node(n.ty, n.del, List(items[p[0] := child]));
      assert At(r, p) == At(child, p[1..]);
      r
  }

  /** Pre-order: `q` is visited before `p` when it is an ancestor of `p`, or
      branches off to an earlier sibling. */
  predicate VisitedBefore(q: seq<nat>, p: seq<nat>) {
    (|q| < |p| && q == p[..|q|])
    || (exists k :: 0 <= k < |q| && k < |p| && q[..k] == p[..k] && q[k] < p[k])
  }

  /** `q` lies inside the subtree at `p` (or is `p`). */
  predicate InSubtree(p: seq<nat>, q: seq<nat>) {
    |p| <= |q| && q[..|p|] == p
  }

  /** Grafting at `p` leaves every node outside the subtree at `p` in place:
      those off the path are untouched, and the ancestors keep their type and
      delegate. */
  lemma {:induction false} GraftElsewhere<Ty, Del>(n: Node<Ty, Del>, p: seq<nat>, sub: Node<Ty, Del>, q: seq<nat>)
    requires At(n, p).Some? && !InSubtree(p, q)
    ensures At(Graft(n, p, sub), q).Some? == At(n, q).Some?
    ensures At(n, q).Some? ==>
      At(Graft(n, p, sub), q).value.ty == At(n, q).value.ty
      && At(Graft(n, p, sub), q).value.del == At(n, q).value.del
    ensures At(n, q).Some? && !InSubtree(q, p) ==> At(Graft(n, p, sub), q) == At(n, q)
    decreases |p|
  {
    if q != [] {
      var r := Graft(n, p, sub);
      var items := n.subs.items;
      assert r.subs.items == items[p[0] := Graft(items[p[0]], p[1..], sub)];
      if q[0] == p[0] {
        assert p == [p[0]] + p[1..];
        if |p| <= |q| {
          assert q[..|p|] == [q[0]] + q[1..][..|p| - 1];
        }
        if InSubtree(q[1..], p[1..]) {
          assert q == [q[0]] + q[1..];
          assert p[..|q|] == [p[0]] + p[1..][..|q| - 1];
        }
        GraftElsewhere(items[p[0]], p[1..], sub, q[1..]);
      }
    }
  }

  /** The paths `ps`, each behind index `j`. */
  function Under(j: nat, ps: seq<seq<nat>>): (r: seq<seq<nat>>)
    ensures |r| == |ps| && forall k :: 0 <= k < |ps| ==> r[k] == [j] + ps[k]
  {
    seq(|ps|, k requires 0 <= k < |ps| => [j] + ps[k])
  }

  /** Reference enumeration of the nodes of `n` in pre-order: the node itself,
      then the subtree of each sub-system in turn. */
  ghost function PreOrder<Ty, Del>(n: Node<Ty, Del>): seq<seq<nat>>
    decreases n, 1
  {
    if n.subs.Null? then [[]] else [[]] + PreOrderFrom(n.subs.items, 0)
  }

  ghost function PreOrderFrom<Ty, Del>(items: seq<Node<Ty, Del>>, i: nat): seq<seq<nat>>
    requires i <= |items|
    decreases items, |items| - i
  {
    if i == |items| then [] else Under(i, PreOrder(items[i])) + PreOrderFrom(items, i + 1)
  }

  /** Every path of `PreOrderFrom(items, i)` starts with an index `i..`. */
  lemma {:induction false} PreOrderFromHeads<Ty, Del>(items: seq<Node<Ty, Del>>, i: nat, k: nat)
    requires i <= |items| && k < |PreOrderFrom(items, i)|
    ensures PreOrderFrom(items, i)[k] != [] && i <= PreOrderFrom(items, i)[k][0] < |items|
    decreases |items| - i
  {
    var head := Under(i, PreOrder(items[i]));
    if k >= |head| {
      PreOrderFromHeads(items, i + 1, k - |head|);
    }
  }

  /** `PreOrder` lists its paths strictly in pre-order, so each node once. */
  lemma {:induction false} PreOrderSorted<Ty, Del>(n: Node<Ty, Del>, i: nat, j: nat)
    requires i < j < |PreOrder(n)|
    ensures VisitedBefore(PreOrder(n)[i], PreOrder(n)[j])
    decreases n, 1
  {
    var ps := PreOrder(n);
    if i == 0 {
      PreOrderFromHeads(n.subs.items, 0, j - 1);
      assert ps[j] == PreOrderFrom(n.subs.items, 0)[j - 1];
    } else {
      PreOrderFromSorted(n.subs.items, 0, i - 1, j - 1);
      assert ps[i] == PreOrderFrom(n.subs.items, 0)[i - 1];
      assert ps[j] == PreOrderFrom(n.subs.items, 0)[j - 1];
    }
  }

  lemma {:induction false} PreOrderFromSorted<Ty, Del>(items: seq<Node<Ty, Del>>, s: nat, i: nat, j: nat)
    requires s <= |items| && i < j < |PreOrderFrom(items, s)|
    ensures VisitedBefore(PreOrderFrom(items, s)[i], PreOrderFrom(items, s)[j])
    decreases items, |items| - s
  {
    var ps := PreOrderFrom(items, s);
    var head := Under(s, PreOrder(items[s]));
    var rest := PreOrderFrom(items, s + 1);
    assert ps == head + rest;
    if j < |head| {
      PreOrderSorted(items[s], i, j);
      VisitedBeforeCons(s, PreOrder(items[s])[i], PreOrder(items[s])[j]);
    } else if i < |head| {
      PreOrderFromHeads(items, s + 1, j - |head|);
      assert ps[i][..0] == ps[j][..0];
    } else {
      PreOrderFromSorted(items, s + 1, i - |head|, j - |head|);
    }
  }

  /** Pre-order is kept when both paths go through the same sub-system. */
  lemma VisitedBeforeCons(a: nat, q: seq<nat>, p: seq<nat>)
    requires VisitedBefore(q, p)
    ensures VisitedBefore([a] + q, [a] + p)
  {
    var q', p' := [a] + q, [a] + p;
    if |q| < |p| && q == p[..|q|] {
      assert q' == p'[..|q'|];
    } else {
      var k :| 0 <= k < |q| && k < |p| && q[..k] == p[..k] && q[k] < p[k];
      assert q'[..k + 1] == [a] + q[..k] && p'[..k + 1] == [a] + p[..k];
      assert q'[k + 1] == q[k] && p'[k + 1] == p[k];
    }
  }

  /** Every node of the tree is listed by `PreOrder`. */
  lemma {:induction false} PreOrderComplete<Ty, Del>(n: Node<Ty, Del>, p: seq<nat>)
    requires At(n, p).Some?
    ensures p in PreOrder(n)
    decreases n
  {
    if p != [] {
      var j, p2 := p[0], p[1..];
      assert p == [j] + p2;
      AtChild(n, j, p2);
      PreOrderComplete(n.subs.items[j], p2);
      var m :| 0 <= m < |PreOrder(n.subs.items[j])| && PreOrder(n.subs.items[j])[m] == p2;
      BlockInPreOrderFrom(n.subs.items, 0, j, m);
    }
  }

  lemma {:induction false} BlockInPreOrderFrom<Ty, Del>(items: seq<Node<Ty, Del>>, s: nat, j: nat, m: nat)
    requires s <= j < |items| && m < |PreOrder(items[j])|
    ensures [j] + PreOrder(items[j])[m] in PreOrderFrom(items, s)
    decreases j - s
  {
    var head := Under(s, PreOrder(items[s]));
    assert PreOrderFrom(items, s) == head + PreOrderFrom(items, s + 1);
    if j == s {
      assert head[m] == [j] + PreOrder(items[j])[m];
    } else {
      BlockInPreOrderFrom(items, s + 1, j, m);
    }
  }
}
