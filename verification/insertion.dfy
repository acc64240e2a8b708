/** `InsertSystem`: put a system into the sub-system list of the first node of
    a given type, searching the tree in pre-order. */
module LoopInsertion {
  import opened Wrappers
  import opened PlayerLoop

  /** What a call ends in: the tree with the system inserted (`true`), no node
      of the type found (`false`, nothing changed), or the exception
      `List.Insert` throws for an index outside `0..Count`. */
  datatype Inserted<X> = Done(value: X) | Missing | OutOfRange

  /** `List.Insert(index, x)` accepts `0 <= index <= Count`. */
  predicate ValidIndex<Ty, Del>(m: Node<Ty, Del>, index: int) {
    0 <= index <= |Kids(m)|
  }

  /** `m` with `x` inserted at `index` of its sub-systems, a null list read as
      empty: `x` lands at `index`, earlier systems stay, later ones shift right. */
  function WithChild<Ty, Del>(m: Node<Ty, Del>, x: Node<Ty, Del>, index: int): (r: Node<Ty, Del>)
    requires ValidIndex(m, index)
    ensures r.ty == m.ty && r.del == m.del && r.subs.List?
    ensures |r.subs.items| == |Kids(m)| + 1 && r.subs.items[index] == x
    ensures forall i :: 0 <= i < index ==> r.subs.items[i] == Kids(m)[i]
    ensures forall i :: index < i < |r.subs.items| ==> r.subs.items[i] == Kids(m)[i - 1]
  {
    Node(m.ty, m.del, List(Kids(m)[..index] + [x] + Kids(m)[index..]))
  }

  /** `InsertSystem<T>`: a node of type `t` takes the new system itself;
      any other node hands the call to its sub-systems in order
      (`HandleSubSystem`) and stops at the first that succeeds. */
  function InsertSystem<Ty(==), Del>(n: Node<Ty, Del>, t: Ty, x: Node<Ty, Del>, index: int): Inserted<Node<Ty, Del>>
    decreases n, 1
  {
    if n.ty == t then
      if ValidIndex(n, index) then Done(WithChild(n, x, index)) else OutOfRange
    else if n.subs.Null? then Missing
    else
      match InsertFrom(n.subs.items, 0, t, x, index)
      case Done(items) => Done(Node(n.ty, n.del, List(items)))
      case Missing => Missing
      case OutOfRange => OutOfRange
  }

  /** The loop of `HandleSubSystem` from sub-system `i` on. */
  function InsertFrom<Ty(==), Del>(items: seq<Node<Ty, Del>>, i: nat, t: Ty, x: Node<Ty, Del>, index: int)
    : Inserted<seq<Node<Ty, Del>>>
    requires i <= |items|
    decreases items, |items| - i
  {
    if i == |items| then Missing
    else
      match InsertSystem(items[i], t, x, index)
      case Done(c) => Done(items[i := c])
      case Missing => InsertFrom(items, i + 1, t, x, index)
      case OutOfRange => OutOfRange
  }

  /** No node reachable from `n` has type `t`. */
  ghost predicate Absent<Ty, Del>(n: Node<Ty, Del>, t: Ty) {
    forall p :: At(n, p).Some? ==> At(n, p).value.ty != t
  }

  lemma AbsentSplit<Ty, Del>(n: Node<Ty, Del>, t: Ty)
    ensures Absent(n, t) <==>
      n.ty != t && (n.subs.List? ==> forall j :: 0 <= j < |n.subs.items| ==> Absent(n.subs.items[j], t))
  {
    if n.ty != t && n.subs.List? && forall j :: 0 <= j < |n.subs.items| ==> Absent(n.subs.items[j], t) {
      forall p | At(n, p).Some?
        ensures At(n, p).value.ty != t
      {
        if p != [] {
          AtChild(n, p[0], p[1..]);
          assert [p[0]] + p[1..] == p;
        }
      }
    }
    if Absent(n, t) && n.subs.List? {
      forall j, p | 0 <= j < |n.subs.items| && At(n.subs.items[j], p).Some?
        ensures At(n.subs.items[j], p).value.ty != t
      {
        AtChild(n, j, p);
      }
    }
    assert At(n, []) == Some(n);
  }

  /** `InsertSystem` returns false exactly when no node of type `t` is
      reachable through non-null sub-system lists. */
  lemma {:induction false} MissingIffAbsent<Ty, Del>(n: Node<Ty, Del>, t: Ty, x: Node<Ty, Del>, index: int)
    ensures InsertSystem(n, t, x, index).Missing? <==> Absent(n, t)
    decreases n, 1
  {
    AbsentSplit(n, t);
    if n.ty != t && n.subs.List? {
      MissingFromIffAbsent(n.subs.items, 0, t, x, index);
    }
  }

  lemma {:induction false} MissingFromIffAbsent<Ty, Del>(items: seq<Node<Ty, Del>>, i: nat, t: Ty,
                                                         x: Node<Ty, Del>, index: int)
    requires i <= |items|
    ensures InsertFrom(items, i, t, x, index).Missing? <==>
      forall j :: i <= j < |items| ==> Absent(items[j], t)
    decreases items, |items| - i
  {
    if i < |items| {
      MissingIffAbsent(items[i], t, x, index);
      MissingFromIffAbsent(items, i + 1, t, x, index);
    }
  }

  lemma NothingBeforeRoot(q: seq<nat>)
    ensures !VisitedBefore(q, [])
  {
  }

  /** Pre-order on paths one level down: an earlier sibling's subtree, or the
      same subtree and earlier inside it. */
  lemma VisitedBeforeStep(a: nat, q: seq<nat>, b: nat, p: seq<nat>)
    requires VisitedBefore([a] + q, [b] + p)
    ensures a < b || (a == b && VisitedBefore(q, p))
  {
    var q', p' := [a] + q, [b] + p;
    assert q'[1..] == q && p'[1..] == p;
    if |q'| < |p'| && q' == p'[..|q'|] {
      assert q'[0] == p'[0];
      assert q == p[..|q|];
    } else {
      var k :| 0 <= k < |q'| && k < |p'| && q'[..k] == p'[..k] && q'[k] < p'[k];
      if k > 0 {
        assert q'[0] == q'[..k][0] == p'[..k][0] == p'[0];
        assert q[..k - 1] == q'[..k][1..] == p'[..k][1..] == p[..k - 1];
        assert q[k - 1] == q'[k] && p[k - 1] == p'[k];
      }
    }
  }

  /** When the call succeeds or throws it has found its target: the first
      node of type `t` in pre-order, at path `p`. On success the result is the
      tree with only that node changed, given `x` at `index`; when `index` is
      outside `0..Count` of that node's list, the exception is thrown. */
  lemma {:induction false} InsertTarget<Ty, Del>(n: Node<Ty, Del>, t: Ty, x: Node<Ty, Del>, index: int)
    returns (p: seq<nat>)
    requires !InsertSystem(n, t, x, index).Missing?
    ensures At(n, p).Some? && At(n, p).value.ty == t
    ensures forall q :: VisitedBefore(q, p) && At(n, q).Some? ==> At(n, q).value.ty != t
    ensures ValidIndex(At(n, p).value, index) ==>
      InsertSystem(n, t, x, index) == Done(Graft(n, p, WithChild(At(n, p).value, x, index)))
    ensures !ValidIndex(At(n, p).value, index) ==> InsertSystem(n, t, x, index) == OutOfRange
    decreases n, 1
  {
    if n.ty == t {
      p := [];
      forall q | true
        ensures !VisitedBefore(q, p)
      {
        NothingBeforeRoot(q);
      }
    } else {
      var items := n.subs.items;
      var j, p2 := InsertFromTarget(items, 0, t, x, index);
      p := [j] + p2;
      AtChild(n, j, p2);
      assert p[1..] == p2;
      forall q | VisitedBefore(q, p) && At(n, q).Some?
        ensures At(n, q).value.ty != t
      {
        if q != [] {
          var a, q2 := q[0], q[1..];
          assert q == [a] + q2;
          VisitedBeforeStep(a, q2, j, p2);
          AtChild(n, a, q2);
          if a < j {
            assert Absent(items[a], t);
          }
        }
      }
    }
  }

  lemma {:induction false} InsertFromTarget<Ty, Del>(items: seq<Node<Ty, Del>>, i: nat, t: Ty,
                                                     x: Node<Ty, Del>, index: int)
    returns (j: nat, p: seq<nat>)
    requires i <= |items| && !InsertFrom(items, i, t, x, index).Missing?
    ensures i <= j < |items|
    ensures forall k :: i <= k < j ==> Absent(items[k], t)
    ensures At(items[j], p).Some? && At(items[j], p).value.ty == t
    ensures forall q :: VisitedBefore(q, p) && At(items[j], q).Some? ==> At(items[j], q).value.ty != t
    ensures ValidIndex(At(items[j], p).value, index) ==>
      InsertFrom(items, i, t, x, index)
        == Done(items[j := Graft(items[j], p, WithChild(At(items[j], p).value, x, index))])
    ensures !ValidIndex(At(items[j], p).value, index) ==> InsertFrom(items, i, t, x, index) == OutOfRange
    decreases items, |items| - i
  {
    if InsertSystem(items[i], t, x, index).Missing? {
      MissingIffAbsent(items[i], t, x, index);
      j, p := InsertFromTarget(items, i + 1, t, x, index);
    } else {
      j := i;
      p := InsertTarget(items[i], t, x, index);
    }
  }
}
