/** `PrintPlayerLoop`: the text outline of a player loop, one line per
    system, indented four spaces per level. Lines are kept as a sequence;
    the line terminator `AppendLine` adds is not modelled. */
module LoopPrint {
  import opened Wrappers
  import opened PlayerLoop

  const Header: seq<string> := ["UnityEngine.PlayerLoop", "---------------------"]

  function Indent(width: nat): (s: string)
    ensures |s| == width && forall i :: 0 <= i < width ==> s[i] == ' '
  {
    seq(width, _ => ' ')
  }

  /** The whole loop: the two header lines, then each top-level system at
      level 0. `foreach` over a null top-level list throws, modelled as
      `None`. The type's `ToString()` is the parameter `name`. */
  function PrintPlayerLoop<Ty, Del>(root: Node<Ty, Del>, name: Ty -> string): (out: Option<seq<string>>)
    ensures out.None? <==> root.subs.Null?
    ensures out.Some? ==> |out.value| >= 2 && out.value[..2] == Header
  {
    if root.subs.Null? then None
    else Some(Header + PrintFrom(root.subs.items, 0, name, 0))
  }

  /** `PrintSubSystem`: the system's own line, then its sub-systems one level
      deeper (a null or empty list adds nothing). */
  function PrintSubSystem<Ty, Del>(n: Node<Ty, Del>, name: Ty -> string, level: nat): seq<string>
    decreases n, 1
  {
    [Indent(4 * level) + name(n.ty)]
      + (if n.subs.Null? || |n.subs.items| == 0 then [] else PrintFrom(n.subs.items, 0, name, level + 1))
  }

  /** The `foreach` over sub-systems `i..`. */
  function PrintFrom<Ty, Del>(items: seq<Node<Ty, Del>>, i: nat, name: Ty -> string, level: nat): seq<string>
    requires i <= |items|
    decreases items, |items| - i
  {
    if i == |items| then [] else PrintSubSystem(items[i], name, level) + PrintFrom(items, i + 1, name, level)
  }

  /** The number of systems in the tree rooted at `n`. */
  function Size<Ty, Del>(n: Node<Ty, Del>): nat
    decreases n, 1
  {
    if n.subs.Null? then 1 else 1 + SizeFrom(n.subs.items, 0)
  }

  function SizeFrom<Ty, Del>(items: seq<Node<Ty, Del>>, i: nat): nat
    requires i <= |items|
    decreases items, |items| - i
  {
    if i == |items| then 0 else Size(items[i]) + SizeFrom(items, i + 1)
  }

  /** One line per system: the printout of a subtree has `Size` lines. */
  lemma {:induction false} LinePerSystem<Ty, Del>(n: Node<Ty, Del>, name: Ty -> string, level: nat)
    ensures |PrintSubSystem(n, name, level)| == Size(n)
    decreases n, 1
  {
    if n.subs.List? {
      LinePerSystemFrom(n.subs.items, 0, name, level + 1);
    }
  }

  lemma {:induction false} LinePerSystemFrom<Ty, Del>(items: seq<Node<Ty, Del>>, i: nat, name: Ty -> string, level: nat)
    requires i <= |items|
    ensures |PrintFrom(items, i, name, level)| == SizeFrom(items, i)
    decreases items, |items| - i
  {
    if i < |items| {
      LinePerSystem(items[i], name, level);
      LinePerSystemFrom(items, i + 1, name, level);
    }
  }

  /** The whole printout has the two header lines and one line per system
      below the root (the root itself is not printed). */
  lemma PrintLineCount<Ty, Del>(root: Node<Ty, Del>, name: Ty -> string)
    requires root.subs.List?
    ensures |PrintPlayerLoop(root, name).value| == 1 + Size(root)
  {
    LinePerSystemFrom(root.subs.items, 0, name, 0);
  }

  /** `PreOrder` lists one path per system. */
  lemma {:induction false} PreOrderCount<Ty, Del>(n: Node<Ty, Del>)
    ensures |PreOrder(n)| == Size(n)
    decreases n, 1
  {
    if n.subs.List? {
      PreOrderFromCount(n.subs.items, 0);
    }
  }

  lemma {:induction false} PreOrderFromCount<Ty, Del>(items: seq<Node<Ty, Del>>, i: nat)
    requires i <= |items|
    ensures |PreOrderFrom(items, i)| == SizeFrom(items, i)
    decreases items, |items| - i
  {
    if i < |items| {
      PreOrderCount(items[i]);
      PreOrderFromCount(items, i + 1);
    }
  }

  /** Line `k` of a subtree's printout is the `k`-th system in pre-order,
      indented four spaces for each level below the printed level. */
  lemma {:induction false} LineOf<Ty, Del>(n: Node<Ty, Del>, name: Ty -> string, level: nat, k: nat)
    requires k < Size(n)
    ensures |PrintSubSystem(n, name, level)| == |PreOrder(n)| == Size(n)
    ensures At(n, PreOrder(n)[k]).Some?
    ensures PrintSubSystem(n, name, level)[k]
         == Indent(4 * (level + |PreOrder(n)[k]|)) + name(At(n, PreOrder(n)[k]).value.ty)
    decreases n, 1
  {
    LinePerSystem(n, name, level);
    PreOrderCount(n);
    if k > 0 {
      var items := n.subs.items;
      LineOfFrom(items, 0, name, level + 1, k - 1);
      var p := PreOrderFrom(items, 0)[k - 1];
      assert PreOrder(n)[k] == p;
      assert p == [p[0]] + p[1..];
      AtChild(n, p[0], p[1..]);
    }
  }

  /** Line `k` of the `foreach` over sub-systems `i..` is the `k`-th path of
      their pre-order listing, the system there indented by its depth. */
  ghost predicate FromLineIs<Ty, Del>(items: seq<Node<Ty, Del>>, i: nat, name: Ty -> string, level: nat, k: nat)
    requires i <= |items|
  {
    && k < |PrintFrom(items, i, name, level)|
    && k < |PreOrderFrom(items, i)|
    && var p := PreOrderFrom(items, i)[k];
      && p != [] && p[0] < |items| && At(items[p[0]], p[1..]).Some?
      && PrintFrom(items, i, name, level)[k]
         == Indent(4 * (level + |p| - 1)) + name(At(items[p[0]], p[1..]).value.ty)
  }

  lemma {:induction false} LineOfFrom<Ty, Del>(items: seq<Node<Ty, Del>>, i: nat, name: Ty -> string, level: nat, k: nat)
    requires i <= |items| && k < SizeFrom(items, i)
    ensures |PrintFrom(items, i, name, level)| == |PreOrderFrom(items, i)| == SizeFrom(items, i)
    ensures FromLineIs(items, i, name, level, k)
    decreases items, |items| - i
  {
    LinePerSystemFrom(items, i, name, level);
    PreOrderFromCount(items, i);
    if k < Size(items[i]) {
      LineInHead(items, i, name, level, k);
    } else {
      LineOfFrom(items, i + 1, name, level, k - Size(items[i]));
      LineInTail(items, i, name, level, k);
    }
  }

  /** Lines `0..Size(items[i])` of the `foreach` come from `items[i]`. */
  lemma LineInHead<Ty, Del>(items: seq<Node<Ty, Del>>, i: nat, name: Ty -> string, level: nat, k: nat)
    requires i < |items| && k < Size(items[i])
    ensures FromLineIs(items, i, name, level, k)
    decreases items, |items| - i, 0
  {
    var n := items[i];
    LineOf(n, name, level, k);
    var head, tail := Under(i, PreOrder(n)), PreOrderFrom(items, i + 1);
    var shown, rest := PrintSubSystem(n, name, level), PrintFrom(items, i + 1, name, level);
    assert PreOrderFrom(items, i) == head + tail;
    assert PrintFrom(items, i, name, level) == shown + rest;
    assert (head + tail)[k] == head[k] == [i] + PreOrder(n)[k];
    assert (shown + rest)[k] == shown[k];
    assert ([i] + PreOrder(n)[k])[1..] == PreOrder(n)[k];
  }

  /** The later lines of the `foreach` are those of the sub-systems after `i`. */
  lemma LineInTail<Ty, Del>(items: seq<Node<Ty, Del>>, i: nat, name: Ty -> string, level: nat, k: nat)
    requires i < |items| && Size(items[i]) <= k
    requires FromLineIs(items, i + 1, name, level, k - Size(items[i]))
    ensures FromLineIs(items, i, name, level, k)
  {
    var n := items[i];
    LinePerSystem(n, name, level);
    PreOrderCount(n);
    var head, tail := Under(i, PreOrder(n)), PreOrderFrom(items, i + 1);
    var shown, rest := PrintSubSystem(n, name, level), PrintFrom(items, i + 1, name, level);
    assert PreOrderFrom(items, i) == head + tail;
    assert PrintFrom(items, i, name, level) == shown + rest;
    assert (head + tail)[k] == tail[k - Size(n)];
    assert (shown + rest)[k] == rest[k - Size(n)];
  }

  /** Below the header, line `k + 1` of the printout is the `k`-th system in
      pre-order (the root, `k = 0`, is not printed), indented four spaces per
      level, the top-level systems at level zero. */
  lemma PrintedLine<Ty, Del>(root: Node<Ty, Del>, name: Ty -> string, k: nat)
    requires root.subs.List? && 1 <= k < Size(root)
    ensures |PrintPlayerLoop(root, name).value| == 1 + |PreOrder(root)| == 1 + Size(root)
    ensures At(root, PreOrder(root)[k]).Some? && |PreOrder(root)[k]| >= 1
    ensures PrintPlayerLoop(root, name).value[k + 1]
         == Indent(4 * (|PreOrder(root)[k]| - 1)) + name(At(root, PreOrder(root)[k]).value.ty)
  {
    var items := root.subs.items;
    LineOfFrom(items, 0, name, 0, k - 1);
    LinePerSystemFrom(items, 0, name, 0);
    PreOrderCount(root);
    var p := PreOrderFrom(items, 0)[k - 1];
    assert PreOrder(root)[k] == p;
    assert p == [p[0]] + p[1..];
    AtChild(root, p[0], p[1..]);
  }
}
