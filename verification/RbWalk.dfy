/** Searching and walking the red-black tree: RB_FIND, RB_NFIND, RB_NEXT, RB_MIN, RB_MAX and the
    RB_FOREACH_SAFE loop whose body may remove the current node. */
module RbWalk {
  import opened Basics
  import opened RbShape
  import opened RbLinks
  import opened RbTree

  method Find<K(!new), V>(head: RbHead<K, V>, key: K) returns (found: RbNode?<K, V>)
    requires head.Valid()
    ensures head.Valid()
    ensures found != null ==> found in head.Order() && head.cmp(key, found.key) == 0
    ensures found == null ==> forall n :: n in head.Order() ==> head.cmp(key, n.key) != 0
  {
    ghost var p, t;
    var parent, comp;
    found, parent, comp, p, t := head.Descend(key);
    PlugNodes(p, t);
    InorderNodes(head.shape);
    if found == null {
      EmptyWhole(p);
      NothingEqual(head.cmp, p, key);
    }
  }

  function FirstOr<K, V>(s: seq<RbNode<K, V>>): RbNode?<K, V> {
    if s == [] then null else s[0]
  }

  /** `y` is the first node that is not smaller than `key`, or null when all are smaller. */
  ghost predicate FirstNotBelow<K, V>(cmp: (K, K) -> int, s: seq<RbNode<K, V>>, key: K, y: RbNode?<K, V>) {
    exists k: nat ::
      && k <= |s| && y == FirstOr(s[k..])
      && (forall i :: 0 <= i < k ==> cmp(key, s[i].key) > 0)
      && (forall i :: k <= i < |s| ==> cmp(key, s[i].key) <= 0)
  }

  method NFind<K(!new), V>(head: RbHead<K, V>, key: K) returns (res: RbNode?<K, V>)
    requires head.Valid()
    ensures head.Valid() && FirstNotBelow(head.cmp, head.Order(), key, res)
  {
    var tmp := head.root;
    res := null;
    ghost var p, t := Top, head.shape;
    while tmp != null
      invariant head.Valid() && head.Linked(p, t) && tmp == Ref(t) && Whole(p, t) == head.Order()
      invariant Between(head.cmp, Before(p), key, After(p)) && res == FirstOr(After(p))
      decreases t
    {
      var comp := head.cmp(key, tmp.key);
      BetweenStep(head.cmp, p, t, key);
      head.Fields(p, t);
      if comp < 0 {
        head.ZoomLeft(p, t);
        res, tmp := tmp, tmp.left;
        p, t := LeftOf(t.color, t.node, t.right, p), t.left;
        GrowWhole(p, t);
      } else if comp > 0 {
        head.ZoomRight(p, t);
        tmp := tmp.right;
        p, t := RightOf(t.color, t.node, t.left, p), t.right;
        GrowWhole(p, t);
      } else {
        EqualSplits(head.cmp, p, t, key);
        return tmp;
      }
    }
    BetweenSplits(head.cmp, p, key);
  }

  lemma BetweenSplits<K, V>(cmp: (K, K) -> int, p: Path<RbNode<K, V>>, key: K)
    requires Between(cmp, Before(p), key, After(p))
    ensures FirstNotBelow(cmp, Whole(p, Leaf), key, FirstOr(After(p)))
  {
    EmptyWhole(p);
    var w, k := Whole(p, Leaf), |Before(p)|;
    assert w[k..] == After(p);
    assert forall i :: k <= i < |w| ==> w[i] == After(p)[i - k];
  }

  lemma EqualSplits<K(!new), V>(cmp: (K, K) -> int, p: Path<RbNode<K, V>>, t: Shape<RbNode<K, V>>, key: K)
    requires TotalOrder(cmp) && t.Node? && Sorted(cmp, Whole(p, t)) && cmp(key, t.node.key) == 0
    ensures FirstNotBelow(cmp, Whole(p, t), key, t.node)
  {
    var w, k := Whole(p, t), |Before(p)| + |Inorder(t.left)|;
    assert w[k] == t.node == FirstOr(w[k..]);
    forall i | 0 <= i < k
      ensures cmp(key, w[i].key) > 0
    {
      assert cmp(w[i].key, w[k].key) < 0;
      LessTransitive(cmp, w[i].key, t.node.key, key);
    }
    forall i | k < i < |w|
      ensures cmp(key, w[i].key) <= 0
    {
      assert cmp(w[k].key, w[i].key) < 0;
      LessTransitive(cmp, key, t.node.key, w[i].key);
    }
  }

  /** `y` comes right after `x`, or is null when `x` is the last node. */
  ghost predicate Follows<K, V>(s: seq<RbNode<K, V>>, x: RbNode<K, V>, y: RbNode?<K, V>) {
    exists k: nat :: k < |s| && s[k] == x && y == FirstOr(s[k + 1..])
  }

  lemma FollowsAt<K, V>(p: Path<RbNode<K, V>>, t: Shape<RbNode<K, V>>, y: RbNode?<K, V>)
    requires t.Node? && y == FirstOr(Inorder(t.right) + After(p))
    ensures Follows(Whole(p, t), t.node, y)
  {
    var w, k := Whole(p, t), |Before(p)| + |Inorder(t.left)|;
    assert w[k] == t.node;
    assert w[k + 1..] == Inorder(t.right) + After(p);
  }

  /** RB_NEXT: the in-order successor, found through child and parent links only. */
  method Next<K(!new), V>(ghost head: RbHead<K, V>, elm0: RbNode<K, V>) returns (elm: RbNode?<K, V>)
    requires head.Valid() && elm0 in Nodes(head.shape)
    ensures head.Valid() && Follows(head.Order(), elm0, elm)
  {
    ghost var p0, t0 := Locate(head.shape, elm0);
    head.PlugLinked(p0, t0);
    PlugInorder(p0, t0);
    head.Fields(p0, t0);
    if elm0.right != null {
      elm := Leftmost(head, elm0, p0, t0);
    } else {
      elm := Climb(head, elm0, p0, t0);
    }
    FollowsAt(p0, t0, elm);
  }

  method Leftmost<K(!new), V>(ghost head: RbHead<K, V>, elm0: RbNode<K, V>, ghost p0: Path<RbNode<K, V>>, ghost t0: Shape<RbNode<K, V>>)
    returns (elm: RbNode<K, V>)
    requires head.Valid() && head.Linked(p0, t0) && t0.Node? && t0.node == elm0 && t0.right.Node?
    ensures head.Valid() && elm == FirstOr(Inorder(t0.right) + After(p0))
  {
    head.Fields(p0, t0);
    head.ZoomRight(p0, t0);
    elm := elm0.right;
    ghost var p, t := RightOf(t0.color, elm0, t0.left, p0), t0.right;
    head.Fields(p, t);
    while elm.left != null
      invariant head.Valid() && head.Linked(p, t) && t.Node? && t.node == elm && elm.left == Ref(t.left)
      invariant FirstOr(Inorder(t)) == FirstOr(Inorder(t0.right))
      decreases t
    {
      head.ZoomLeft(p, t);
      p, t := LeftOf(t.color, t.node, t.right, p), t.left;
      elm := elm.left;
      head.Fields(p, t);
    }
    assert Inorder(t)[0] == elm;
  }

  method Climb<K(!new), V>(ghost head: RbHead<K, V>, elm0: RbNode<K, V>, ghost p0: Path<RbNode<K, V>>, ghost t0: Shape<RbNode<K, V>>)
    returns (elm: RbNode?<K, V>)
    requires head.Valid() && head.Linked(p0, t0) && t0.Node? && t0.node == elm0
    ensures head.Valid() && elm == FirstOr(After(p0))
  {
    ghost var p, t := p0, t0;
    elm := elm0;
    head.Fields(p, t);
    if elm.parent != null && elm == elm.parent.left {
      return elm.parent;
    }
    while elm.parent != null && elm == elm.parent.right
      invariant head.Valid() && head.Linked(p, t) && t.Node? && t.node == elm && elm.parent == Up(p)
      invariant After(p) == After(p0)
      decreases Depth(p)
    {
      head.Fields(p, t);
      head.ZoomOut(p, t);
      elm := elm.parent;
      p, t := p.up, Grow(p, t);
      head.Fields(p, t);
    }
    head.Fields(p, t);
    elm := elm.parent;
  }

  function LastOr<K, V>(s: seq<RbNode<K, V>>): RbNode?<K, V> {
    if s == [] then null else s[|s| - 1]
  }

  /** RB_MINMAX: the first node for a negative `val`, otherwise the last one; null on an empty tree. */
  method MinMax<K(!new), V>(head: RbHead<K, V>, val: int) returns (parent: RbNode?<K, V>)
    requires head.Valid()
    ensures head.Valid() && parent == if val < 0 then FirstOr(head.Order()) else LastOr(head.Order())
  {
    var tmp := head.root;
    parent := null;
    ghost var p, t := Top, head.shape;
    while tmp != null
      invariant head.Valid() && head.Linked(p, t) && tmp == Ref(t) && parent == Up(p) && Whole(p, t) == head.Order()
      invariant if val < 0 then Before(p) == [] && parent == FirstOr(After(p)) else After(p) == [] && parent == LastOr(Before(p))
      decreases t
    {
      head.Fields(p, t);
      parent := tmp;
      if val < 0 {
        head.ZoomLeft(p, t);
        tmp := tmp.left;
        p, t := LeftOf(t.color, t.node, t.right, p), t.left;
      } else {
        head.ZoomRight(p, t);
        tmp := tmp.right;
        p, t := RightOf(t.color, t.node, t.left, p), t.right;
      }
      GrowWhole(p, t);
    }
    EmptyWhole(p);
    assert Before(p) + After(p) == if val < 0 then After(p) else Before(p);
  }

  /** The nodes that are not dropped, in order. */
  function Kept<N>(s: seq<N>, drop: set<N>): seq<N> {
    if s == [] then [] else
      var n := |s| - 1;
      if s[n] in drop then Kept(s[..n], drop) else Kept(s[..n], drop) + [s[n]]
  }

  lemma SortedOnce<K(!new), V>(cmp: (K, K) -> int, s: seq<RbNode<K, V>>, i: nat, j: nat)
    requires TotalOrder(cmp) && Sorted(cmp, s) && i < |s| && j < |s| && s[i] == s[j]
    ensures i == j
  {
  }

  lemma FollowsUnique<K(!new), V>(cmp: (K, K) -> int, a: seq<RbNode<K, V>>, x: RbNode<K, V>, b: seq<RbNode<K, V>>, y: RbNode?<K, V>)
    requires TotalOrder(cmp) && Sorted(cmp, a + ([x] + b)) && Follows(a + ([x] + b), x, y)
    ensures y == FirstOr(b)
  {
    var s := a + ([x] + b);
    var k: nat :| k < |s| && s[k] == x && y == FirstOr(s[k + 1..]);
    SortedOnce(cmp, s, k, |a|);
    assert s[|a| + 1..] == b;
  }

  lemma RemovedUnique<K(!new), V>(cmp: (K, K) -> int, a: seq<RbNode<K, V>>, x: RbNode<K, V>, b: seq<RbNode<K, V>>, s': seq<RbNode<K, V>>)
    requires TotalOrder(cmp) && Sorted(cmp, a + ([x] + b)) && OneRemoved(a + ([x] + b), x, s')
    ensures s' == a + b
  {
    hide TotalOrder, Sorted;
    var s := a + ([x] + b);
    var k: nat :| k < |s| && s[k] == x && s' == RemovedAt(s, k);
    SortedOnce(cmp, s, k, |a|);
    assert s[..|a|] == a && s[|a| + 1..] == b;
  }

  /** The loop has passed `all[..i]` and dropped what it should; `x` is next. */
  ghost predicate Swept<K, V>(all: seq<RbNode<K, V>>, i: nat, drop: set<RbNode<K, V>>, order: seq<RbNode<K, V>>, x: RbNode?<K, V>) {
    i <= |all| && order == Kept(all[..i], drop) + all[i..] && x == FirstOr(all[i..])
  }

  lemma SweptStart<K, V>(all: seq<RbNode<K, V>>, drop: set<RbNode<K, V>>)
    ensures Swept(all, 0, drop, all, FirstOr(all))
  {
    assert all == Kept(all[..0], drop) + all[0..] && all[0..] == all;
  }

  lemma SweptEnd<K, V>(all: seq<RbNode<K, V>>, i: nat, drop: set<RbNode<K, V>>, order: seq<RbNode<K, V>>)
    requires Swept(all, i, drop, order, null)
    ensures all[..i] == all && order == Kept(all, drop)
  {
    assert i == |all| && all[..i] == all;
  }

  lemma SweptNext<K, V>(all: seq<RbNode<K, V>>, i: nat, drop: set<RbNode<K, V>>)
    requires i < |all|
    ensures all[i..] == [all[i]] + all[i + 1..] && all[..i + 1] == all[..i] + [all[i]]
    ensures Kept(all[..i + 1], drop) == if all[i] in drop then Kept(all[..i], drop) else Kept(all[..i], drop) + [all[i]]
  {
    assert all[..i + 1][..i] == all[..i];
  }

  lemma SweptIn<K, V>(all: seq<RbNode<K, V>>, i: nat, drop: set<RbNode<K, V>>, order: seq<RbNode<K, V>>, x: RbNode<K, V>)
    requires Swept(all, i, drop, order, x)
    ensures x in order
  {
    assert order[|Kept(all[..i], drop)|] == x;
  }

  /** One round of the loop at the node `all[i]`. */
  lemma SweptStep<K(!new), V>(cmp: (K, K) -> int, all: seq<RbNode<K, V>>, i: nat, drop: set<RbNode<K, V>>, order: seq<RbNode<K, V>>, x: RbNode<K, V>,
                              order': seq<RbNode<K, V>>, y: RbNode?<K, V>)
    requires TotalOrder(cmp) && Sorted(cmp, order) && Swept(all, i, drop, order, x)
    requires Follows(order, x, y) && if x in drop then OneRemoved(order, x, order') else order' == order
    ensures Swept(all, i + 1, drop, order', y)
  {
    hide TotalOrder, Sorted, Follows, OneRemoved;
    SweptNext(all, i, drop);
    var a, b := Kept(all[..i], drop), all[i + 1..];
    FollowsUnique(cmp, a, x, b, y);
    if x in drop {
      RemovedUnique(cmp, a, x, b, order');
    }
    assert a + ([x] + b) == (a + [x]) + b;
  }

  /** The loop body: remember the next node, then remove the current one if it is to be dropped. */
  method SweepBody<K(!new), V>(head: RbHead<K, V>, x: RbNode<K, V>, doomed: bool, ghost drop: set<RbNode<K, V>>, ghost all: seq<RbNode<K, V>>, ghost i: nat)
    returns (y: RbNode?<K, V>)
    requires head.Valid() && Swept(all, i, drop, head.Order(), x) && (doomed <==> x in drop)
    modifies head, Nodes(head.shape)
    ensures head.Valid() && Nodes(head.shape) <= old(Nodes(head.shape))
    ensures Swept(all, i + 1, drop, head.Order(), y)
  {
    ghost var order := head.Order();
    SweptIn(all, i, drop, order, x);
    InorderNodes(head.shape);
    y := Next(head, x);
    if doomed {
      head.Remove(x);
    }
    SweptStep(head.cmp, all, i, drop, order, x, head.Order(), y);
  }

  /** RB_FOREACH_SAFE over a body that removes the current node whenever it is in `drop`. */
  method ForeachSafe<K(!new), V>(head: RbHead<K, V>, drop: set<RbNode<K, V>>) returns (visited: seq<RbNode<K, V>>)
    requires head.Valid()
    modifies head, Nodes(head.shape)
    ensures head.Valid() && Nodes(head.shape) <= old(Nodes(head.shape))
    ensures visited == old(head.Order())
    ensures head.Order() == Kept(old(head.Order()), drop)
  {
    ghost var all, i := head.Order(), 0;
    visited := [];
    var x := MinMax(head, -1);
    SweptStart(all, drop);
    while x != null
      invariant head.Valid() && Nodes(head.shape) <= old(Nodes(head.shape))
      invariant Swept(all, i, drop, head.Order(), x) && visited == all[..i]
      decreases |all| - i
    {
      var cur: RbNode<K, V> := x;
      SweptNext(all, i, drop);
      x := SweepBody(head, cur, cur in drop, drop, all, i);
      visited, i := visited + [cur], i + 1;
    }
    SweptEnd(all, i, drop, head.Order());
  }
}
