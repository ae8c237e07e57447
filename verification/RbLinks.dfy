/** Nodes of the intrusive red-black tree, pictures of their link fields, and the lemmas that say
    which shape a picture shows after a few links have changed. */
module RbLinks {
  import opened Basics
  import opened RbShape

  /** A node of the tree: the link fields, the key the comparison looks at, and the enclosing
      structure `item`, which the tree never reads. */
  class RbNode<K, V> {
    const key: K
    const item: V
    var left: RbNode?<K, V>
    var right: RbNode?<K, V>
    var parent: RbNode?<K, V>
    var color: Color

    constructor (key: K, item: V)
      ensures this.key == key && this.item == item
    {
      this.key, this.item := key, item;
      left, right, parent, color := null, null, null, Red;
    }
  }

  /** A picture of the link fields of some nodes. */
  datatype Links<K, V> = Links(color: Color, parent: RbNode?<K, V>, left: RbNode?<K, V>, right: RbNode?<K, V>)
  type Store<K, V> = map<RbNode<K, V>, Links<K, V>>

  ghost function Picture<K, V>(s: set<RbNode<K, V>>): (m: Store<K, V>)
    reads s
  {
    map n | n in s :: Links(n.color, n.parent, n.left, n.right)
  }

  // ----- search order -----

  /** A comparison fit for a search tree. Transitivity is used through `LessTransitive` only. */
  ghost predicate TotalOrder<K(!new)>(cmp: (K, K) -> int) {
    && (forall a, b :: cmp(a, b) < 0 <==> cmp(b, a) > 0)
    && (forall a, b, c {:trigger Chained(a, b, c)} :: Chained(a, b, c) && cmp(a, b) <= 0 && cmp(b, c) <= 0 ==> cmp(a, c) <= 0)
  }

  ghost predicate Chained<K>(a: K, b: K, c: K) { true }

  lemma LessTransitive<K(!new)>(cmp: (K, K) -> int, a: K, b: K, c: K)
    requires TotalOrder(cmp)
    ensures cmp(a, b) < 0 && cmp(b, c) <= 0 ==> cmp(a, c) < 0
    ensures cmp(a, b) <= 0 && cmp(b, c) < 0 ==> cmp(a, c) < 0
  {
    assert Chained(a, b, c) && Chained(b, c, a) && Chained(c, a, b);
  }

  ghost predicate Sorted<K, V>(cmp: (K, K) -> int, s: seq<RbNode<K, V>>) {
    forall i, j :: 0 <= i < j < |s| ==> cmp(s[i].key, s[j].key) < 0
  }

  /** `key` is greater than all of `lo` and smaller than all of `hi`. */
  ghost predicate Between<K, V>(cmp: (K, K) -> int, lo: seq<RbNode<K, V>>, key: K, hi: seq<RbNode<K, V>>) {
    && (forall i :: 0 <= i < |lo| ==> cmp(key, lo[i].key) > 0)
    && (forall i :: 0 <= i < |hi| ==> cmp(key, hi[i].key) < 0)
  }

  lemma SortedRemove<K, V>(cmp: (K, K) -> int, s: seq<RbNode<K, V>>, x: RbNode<K, V>, s': seq<RbNode<K, V>>)
    requires Sorted(cmp, s) && OneRemoved(s, x, s')
    ensures Sorted(cmp, s')
  {
  }

  lemma SortedMiddle<K, V>(cmp: (K, K) -> int, lo: seq<RbNode<K, V>>, l: seq<RbNode<K, V>>, x: RbNode<K, V>,
                           r: seq<RbNode<K, V>>, hi: seq<RbNode<K, V>>)
    requires Sorted(cmp, lo + (l + [x] + r) + hi)
    ensures forall i :: 0 <= i < |l| ==> cmp(l[i].key, x.key) < 0
    ensures forall i :: 0 <= i < |r| ==> cmp(x.key, r[i].key) < 0
  {
    var w, b := lo + (l + [x] + r) + hi, |lo| + |l|;
    assert w[b] == x;
    assert forall i :: 0 <= i < |l| ==> w[|lo| + i] == l[i];
    assert forall i :: 0 <= i < |r| ==> w[b + 1 + i] == r[i];
  }

  /** Comparing with the focused node tells on which side of it the key belongs. */
  lemma BetweenStep<K(!new), V>(cmp: (K, K) -> int, p: Path<RbNode<K, V>>, t: Shape<RbNode<K, V>>, key: K)
    requires TotalOrder(cmp) && t.Node? && Sorted(cmp, Whole(p, t)) && Between(cmp, Before(p), key, After(p))
    ensures cmp(key, t.node.key) < 0 ==> var q := LeftOf(t.color, t.node, t.right, p); Between(cmp, Before(q), key, After(q))
    ensures cmp(key, t.node.key) > 0 ==> var q := RightOf(t.color, t.node, t.left, p); Between(cmp, Before(q), key, After(q))
  {
    var x, l, r := t.node, Inorder(t.left), Inorder(t.right);
    SortedMiddle(cmp, Before(p), l, x, r, After(p));
    if cmp(key, x.key) < 0 {
      var hi := ([x] + r) + After(p);
      forall i | 0 <= i < |hi|
        ensures cmp(key, hi[i].key) < 0
      {
        LessTransitive(cmp, key, x.key, hi[i].key);
        assert i == 0 || i > |r| || hi[i] == r[i - 1];
      }
      assert Between(cmp, Before(p), key, hi);
    } else if cmp(key, x.key) > 0 {
      var lo := Before(p) + (l + [x]);
      forall i | 0 <= i < |lo|
        ensures cmp(key, lo[i].key) > 0
      {
        LessTransitive(cmp, lo[i].key, x.key, key);
        var j := i - |Before(p)|;
        assert j < 0 || j == |l| || lo[i] == l[j];
      }
      assert Between(cmp, lo, key, After(p));
    }
  }

  lemma NothingEqual<K, V>(cmp: (K, K) -> int, p: Path<RbNode<K, V>>, key: K)
    requires Between(cmp, Before(p), key, After(p))
    ensures forall n :: n in Before(p) + After(p) ==> cmp(key, n.key) != 0
  {
  }

  /** A key is that of one node only. */
  lemma OneWithKey<K(!new), V>(cmp: (K, K) -> int, s: seq<RbNode<K, V>>, a: RbNode<K, V>, b: RbNode<K, V>)
    requires TotalOrder(cmp) && Sorted(cmp, s)
    ensures a in s && b in s && cmp(a.key, b.key) == 0 ==> a == b
    ensures cmp(a.key, a.key) == 0
  {
  }

  lemma SortedInsert<K(!new), V>(cmp: (K, K) -> int, lo: seq<RbNode<K, V>>, x: RbNode<K, V>, hi: seq<RbNode<K, V>>)
    requires TotalOrder(cmp) && Sorted(cmp, lo + hi) && Between(cmp, lo, x.key, hi)
    ensures Sorted(cmp, lo + [x] + hi)
    ensures lo + [x] + hi == InsertedAt(lo + hi, |lo|, x)
  {
    var s, w := lo + hi, lo + [x] + hi;
    forall i, j | 0 <= i < j < |w|
      ensures cmp(w[i].key, w[j].key) < 0
    {
      var i', j' := if i < |lo| then i else i - 1, if j < |lo| then j else j - 1;
      if i != |lo| && j != |lo| {
        assert w[i] == s[i'] && w[j] == s[j'];
      } else if i == |lo| {
        assert w[j] == hi[j - |lo| - 1];
      } else {
        assert w[i] == lo[i];
      }
    }
  }

  lemma LeafSlot<K(!new), V>(cmp: (K, K) -> int, p: Path<RbNode<K, V>>, x: RbNode<K, V>)
    requires TotalOrder(cmp) && RedBlack(Plug(p, Leaf)) && Sorted(cmp, Inorder(Plug(p, Leaf)))
    requires Between(cmp, Before(p), x.key, After(p))
    ensures RedFocus(p, Node(Red, Leaf, x, Leaf))
    ensures Inorder(Plug(p, Leaf)) == Before(p) + After(p)
    ensures Whole(p, Node(Red, Leaf, x, Leaf)) == Before(p) + [x] + After(p)
    ensures Sorted(cmp, Before(p) + [x] + After(p))
  {
    PlugRedBlack(p, Leaf);
    PlugInorder(p, Leaf);
    EmptyWhole(p);
    LeafWhole(p, Red, x);
    SortedInsert(cmp, Before(p), x, After(p));
  }

  function Ref<K, V>(t: Shape<RbNode<K, V>>): RbNode?<K, V> {
    if t.Leaf? then null else t.node
  }

  function Up<K, V>(p: Path<RbNode<K, V>>): RbNode?<K, V> {
    if p.Top? then null else p.node
  }

  /** The node the head must point at when the position at the end of `p` holds `hole`. */
  function RootRef<K, V>(p: Path<RbNode<K, V>>, hole: RbNode?<K, V>): RbNode?<K, V> {
    if p.Top? then hole else RootRef(p.up, p.node)
  }

  lemma {:induction false} RootRefInPath<K, V>(p: Path<RbNode<K, V>>, hole: RbNode?<K, V>)
    requires !p.Top?
    ensures RootRef(p, hole) in PathNodes(p)
  {
    if !p.up.Top? {
      RootRefInPath(p.up, p.node);
    }
  }

  /** The links of all nodes of `t` say exactly what `t` says; its root hangs below `parent`. */
  ghost predicate TreeIn<K, V>(m: Store<K, V>, t: Shape<RbNode<K, V>>, parent: RbNode?<K, V>) {
    match t
    case Leaf => true
    case Node(c, l, n, r) =>
      n in m && m[n] == Links(c, parent, Ref(l), Ref(r)) && TreeIn(m, l, n) && TreeIn(m, r, n)
  }

  /** The same for the nodes above a position that holds `hole`. */
  ghost predicate PathIn<K, V>(m: Store<K, V>, p: Path<RbNode<K, V>>, hole: RbNode?<K, V>) {
    match p
    case Top => true
    case LeftOf(c, n, s, up) =>
      n in m && m[n] == Links(c, Up(up), hole, Ref(s)) && TreeIn(m, s, n) && PathIn(m, up, n)
    case RightOf(c, n, s, up) =>
      n in m && m[n] == Links(c, Up(up), Ref(s), hole) && TreeIn(m, s, n) && PathIn(m, up, n)
  }

  // ----- how links survive changes elsewhere -----

  ghost predicate Agree<K, V>(m: Store<K, V>, m': Store<K, V>, s: set<RbNode<K, V>>) {
    forall n :: n in s && n in m ==> n in m' && m'[n] == m[n]
  }

  lemma {:induction false} TreeKept<K, V>(m: Store<K, V>, m': Store<K, V>, t: Shape<RbNode<K, V>>, parent: RbNode?<K, V>)
    requires TreeIn(m, t, parent) && Agree(m, m', Nodes(t))
    ensures TreeIn(m', t, parent)
  {
    if t.Node? {
      TreeKept(m, m', t.left, t.node);
      TreeKept(m, m', t.right, t.node);
    }
  }

  lemma {:induction false} PathKept<K, V>(m: Store<K, V>, m': Store<K, V>, p: Path<RbNode<K, V>>, hole: RbNode?<K, V>)
    requires PathIn(m, p, hole) && Agree(m, m', PathNodes(p))
    ensures PathIn(m', p, hole)
  {
    if !p.Top? {
      TreeKept(m, m', p.sibling, p.node);
      PathKept(m, m', p.up, p.node);
    }
  }

  /** Changing the parent link of its root hangs a tree elsewhere. */
  lemma TreeRehung<K, V>(m: Store<K, V>, m': Store<K, V>, t: Shape<RbNode<K, V>>, parent: RbNode?<K, V>, parent': RbNode?<K, V>)
    requires TreeIn(m, t, parent) && NoRepeats(t)
    requires t.Node? ==> t.node in m' && m'[t.node] == m[t.node].(parent := parent')
    requires t.Node? ==> Agree(m, m', Nodes(t.left) + Nodes(t.right))
    ensures TreeIn(m', t, parent')
  {
    if t.Node? {
      TreeKept(m, m', t.left, t.node);
      TreeKept(m, m', t.right, t.node);
    }
  }

  function ChildSet<K, V>(p: Path<RbNode<K, V>>, k: Links<K, V>, hole: RbNode?<K, V>): Links<K, V> {
    if p.LeftOf? then k.(left := hole) else k.(right := hole)
  }

  /** Changing the child link at its end makes a path lead to another node. */
  lemma PathRedirected<K, V>(m: Store<K, V>, m': Store<K, V>, p: Path<RbNode<K, V>>, hole: RbNode?<K, V>, hole': RbNode?<K, V>)
    requires PathIn(m, p, hole) && PathDistinct(p)
    requires !p.Top? ==> p.node in m' && m'[p.node] == ChildSet(p, m[p.node], hole')
    requires !p.Top? ==> Agree(m, m', Nodes(p.sibling) + PathNodes(p.up))
    ensures PathIn(m', p, hole')
  {
    if !p.Top? {
      TreeKept(m, m', p.sibling, p.node);
      PathKept(m, m', p.up, p.node);
    }
  }

  lemma {:induction false} PlugIn<K, V>(m: Store<K, V>, p: Path<RbNode<K, V>>, t: Shape<RbNode<K, V>>)
    ensures TreeIn(m, Plug(p, t), null) <==> TreeIn(m, t, Up(p)) && PathIn(m, p, Ref(t))
    ensures Ref(Plug(p, t)) == RootRef(p, Ref(t))
    decreases p
  {
    match p
    case Top =>
    case LeftOf(c, n, s, up) => PlugIn(m, up, Node(c, t, n, s));
    case RightOf(c, n, s, up) => PlugIn(m, up, Node(c, s, n, t));
  }

  // ----- rotations on pictures -----

  /** Nothing but the links of `changed` differs. */
  ghost predicate OnlyChanged<K, V>(m: Store<K, V>, m': Store<K, V>, changed: set<RbNode?<K, V>>) {
    m'.Keys == m.Keys && forall n :: n in m && n !in changed ==> m'[n] == m[n]
  }

  /** What the links around the end of a path look like. */
  lemma PathEnd<K, V>(m: Store<K, V>, p: Path<RbNode<K, V>>, t: Shape<RbNode<K, V>>)
    requires t.Node? && PathIn(m, p, t.node) && Apart(p, t)
    ensures !p.Top? ==>
      && p.node in m && p.node in PathNodes(p) && p.node !in Nodes(t)
      && (m[p.node].left == t.node <==> p.LeftOf?)
  {
    if p.RightOf? && p.sibling.Node? {
      assert p.sibling.node in Nodes(p.sibling);
      assert t.node in Nodes(t);
    }
  }

  /** The links of a tree whose right child is about to rise. */
  lemma RightChild<K, V>(m: Store<K, V>, t: Shape<RbNode<K, V>>, parent: RbNode?<K, V>)
    requires t.Node? && t.right.Node? && TreeIn(m, t, parent) && NoRepeats(t)
    ensures var e, r := t.node, t.right; var tmp, b := r.node, r.left;
      && e in m && m[e] == Links(t.color, parent, Ref(t.left), tmp)
      && tmp in m && m[tmp] == Links(r.color, e, Ref(b), Ref(r.right))
      && e != tmp && e in Nodes(t) && tmp in Nodes(t)
      && (b.Node? ==> b.node in m && m[b.node].parent == tmp && b.node in Nodes(t) && b.node != e && b.node != tmp)
  {
    var r := t.right;
    assert TreeIn(m, r, t.node) && NoRepeats(r);
    assert Nodes(r) == Nodes(r.left) + {r.node} + Nodes(r.right);
    if r.left.Node? {
      assert TreeIn(m, r.left, r.node);
      assert r.left.node in Nodes(r.left);
    }
  }

  lemma LeftRotatedNodes<K, V>(t: Shape<RbNode<K, V>>, t': Shape<RbNode<K, V>>)
    requires t.Node? && t.right.Node?
    requires t' == RotL(t) && NoRepeats(t)
    ensures Nodes(t') == Nodes(t) && NoRepeats(t')
  {
    var r := t.right;
    var l' := t'.left;
    assert Nodes(r) == Nodes(r.left) + {r.node} + Nodes(r.right);
    assert Nodes(l') == Nodes(t.left) + {t.node} + Nodes(r.left);
    assert NoRepeats(r) && NoRepeats(l');
  }

  lemma LeftRotatedTree<K, V>(m: Store<K, V>, m': Store<K, V>, t: Shape<RbNode<K, V>>, parent: RbNode?<K, V>)
    requires t.Node? && t.right.Node? && TreeIn(m, t, parent) && NoRepeats(t)
    requires parent !in Nodes(t)
    requires var e, r := t.node, t.right; var tmp, b := r.node, r.left;
      && OnlyChanged(m, m', {e, tmp, Ref(b), parent})
      && e in m && m'[e] == m[e].(right := Ref(b), parent := tmp)
      && tmp in m && m'[tmp] == m[tmp].(left := e, parent := parent)
      && (b.Node? ==> b.node in m && m'[b.node] == m[b.node].(parent := e))
    ensures TreeIn(m', RotL(t), parent)
  {
    var r := t.right;
    assert TreeIn(m, r, t.node) && NoRepeats(r);
    assert Nodes(r) == Nodes(r.left) + {r.node} + Nodes(r.right);
    assert r.left.Node? ==> r.left.node in Nodes(r.left);
    assert TreeIn(m', t.left, t.node) by { TreeKept(m, m', t.left, t.node); }
    assert TreeIn(m', r.right, r.node) by { TreeKept(m, m', r.right, r.node); }
    assert TreeIn(m', r.left, t.node) by { TreeRehung(m, m', r.left, r.node, t.node); }
    assert TreeIn(m', Node(t.color, t.left, t.node, r.left), r.node);
  }

  /** The links of a tree whose left child is about to rise. */
  lemma LeftChild<K, V>(m: Store<K, V>, t: Shape<RbNode<K, V>>, parent: RbNode?<K, V>)
    requires t.Node? && t.left.Node? && TreeIn(m, t, parent) && NoRepeats(t)
    ensures var e, r := t.node, t.left; var tmp, b := r.node, r.right;
      && e in m && m[e] == Links(t.color, parent, tmp, Ref(t.right))
      && tmp in m && m[tmp] == Links(r.color, e, Ref(r.left), Ref(b))
      && e != tmp && e in Nodes(t) && tmp in Nodes(t)
      && (b.Node? ==> b.node in m && m[b.node].parent == tmp && b.node in Nodes(t) && b.node != e && b.node != tmp)
  {
    var r := t.left;
    assert TreeIn(m, r, t.node) && NoRepeats(r);
    assert Nodes(r) == Nodes(r.left) + {r.node} + Nodes(r.right);
    if r.right.Node? {
      assert TreeIn(m, r.right, r.node);
      assert r.right.node in Nodes(r.right);
    }
  }

  lemma RightRotatedNodes<K, V>(t: Shape<RbNode<K, V>>, t': Shape<RbNode<K, V>>)
    requires t.Node? && t.left.Node?
    requires t' == RotR(t) && NoRepeats(t)
    ensures Nodes(t') == Nodes(t) && NoRepeats(t')
  {
    var r := t.left;
    var r' := t'.right;
    assert Nodes(r) == Nodes(r.left) + {r.node} + Nodes(r.right);
    assert Nodes(r') == Nodes(r.right) + {t.node} + Nodes(t.right);
    assert NoRepeats(r) && NoRepeats(r');
  }

  lemma RightRotatedTree<K, V>(m: Store<K, V>, m': Store<K, V>, t: Shape<RbNode<K, V>>, parent: RbNode?<K, V>)
    requires t.Node? && t.left.Node? && TreeIn(m, t, parent) && NoRepeats(t)
    requires parent !in Nodes(t)
    requires var e, r := t.node, t.left; var tmp, b := r.node, r.right;
      && OnlyChanged(m, m', {e, tmp, Ref(b), parent})
      && e in m && m'[e] == m[e].(left := Ref(b), parent := tmp)
      && tmp in m && m'[tmp] == m[tmp].(right := e, parent := parent)
      && (b.Node? ==> b.node in m && m'[b.node] == m[b.node].(parent := e))
    ensures TreeIn(m', RotR(t), parent)
  {
    var r := t.left;
    assert TreeIn(m, r, t.node) && NoRepeats(r);
    assert Nodes(r) == Nodes(r.left) + {r.node} + Nodes(r.right);
    assert r.right.Node? ==> r.right.node in Nodes(r.right);
    assert TreeIn(m', t.right, t.node) by { TreeKept(m, m', t.right, t.node); }
    assert TreeIn(m', r.left, r.node) by { TreeKept(m, m', r.left, r.node); }
    assert TreeIn(m', r.right, t.node) by { TreeRehung(m, m', r.right, r.node, t.node); }
    assert TreeIn(m', Node(t.color, r.right, t.node, t.right), r.node);
  }

  /** The links of a node with at most one child. */
  lemma OnlyChild<K, V>(m: Store<K, V>, p: Path<RbNode<K, V>>, t: Shape<RbNode<K, V>>, c: Shape<RbNode<K, V>>)
    requires t.Node? && TreeIn(m, t, Up(p)) && PathIn(m, p, t.node) && Apart(p, t)
    requires (t.left.Leaf? && c == t.right) || (t.right.Leaf? && c == t.left)
    ensures t.node in m && m[t.node].parent == Up(p) && t.node != Up(p) && t.node !in Nodes(c) && t.node !in PathNodes(p)
    ensures TreeIn(m, c, t.node) && Nodes(c) == Nodes(t) - {t.node} && Apart(p, c)
    ensures c.Node? ==> c.node in m && c.node in Nodes(c) && c.node != Up(p)
    ensures !p.Top? ==> p.node in m && p.node in PathNodes(p) && (m[p.node].left == t.node <==> p.LeftOf?)
  {
    PathEnd(m, p, t);
    assert c.Node? ==> c.node in Nodes(c);
  }

  lemma Spliced<K, V>(m: Store<K, V>, m': Store<K, V>, p: Path<RbNode<K, V>>, t: Shape<RbNode<K, V>>, c: Shape<RbNode<K, V>>)
    requires t.Node? && TreeIn(m, t, Up(p)) && PathIn(m, p, t.node) && Apart(p, t)
    requires (t.left.Leaf? && c == t.right) || (t.right.Leaf? && c == t.left)
    requires OnlyChanged(m, m', {Ref(c), Up(p)})
    requires c.Node? ==> c.node in m && m'[c.node] == m[c.node].(parent := Up(p))
    requires !p.Top? ==> p.node in m && m'[p.node] == ChildSet(p, m[p.node], Ref(c))
    ensures TreeIn(m', c, Up(p)) && PathIn(m', p, Ref(c))
  {
    OnlyChild(m, p, t, c);
    TreeRehung(m, m', c, t.node, Up(p));
    PathRelinked(m, m', p, t, Ref(c), if c.Node? then {c.node} else {});
  }

  /** The links of a node with a left child. */
  lemma TwoChildren<K, V>(m: Store<K, V>, p: Path<RbNode<K, V>>, t: Shape<RbNode<K, V>>)
    requires t.Node? && t.left.Node? && TreeIn(m, t, Up(p)) && PathIn(m, p, t.node) && Apart(p, t)
    ensures t.node in m && m[t.node] == Links(t.color, Up(p), t.left.node, Ref(t.right)) && t.node != Up(p)
    ensures t.node in Nodes(t) && t.left.node in Nodes(t.left) && t.left.node != t.node && t.left.node != Up(p)
    ensures t.right.Node? ==> t.right.node in Nodes(t.right) && t.right.node != t.node && t.right.node != Up(p) && t.right.node != t.left.node
    ensures !p.Top? ==> p.node in m && p.node in PathNodes(p) && (m[p.node].left == t.node <==> p.LeftOf?)
  {
    PathEnd(m, p, t);
    assert t.left.node in Nodes(t.left);
    assert t.right.Node? ==> t.right.node in Nodes(t.right);
  }

  lemma Replaced<K, V>(m: Store<K, V>, m': Store<K, V>, p: Path<RbNode<K, V>>, t: Shape<RbNode<K, V>>, x: RbNode<K, V>)
    requires t.Node? && t.left.Node? && TreeIn(m, t, Up(p)) && PathIn(m, p, t.node) && Apart(p, t)
    requires x in m && x !in PathNodes(p) + Nodes(t)
    requires t.left.node in m && (t.right.Node? ==> t.right.node in m)
    requires OnlyChanged(m, m', {x, Up(p), t.left.node, Ref(t.right)}) && m'[x] == Links(t.color, Up(p), t.left.node, Ref(t.right))
    requires m'[t.left.node] == m[t.left.node].(parent := x)
    requires t.right.Node? ==> m'[t.right.node] == m[t.right.node].(parent := x)
    requires !p.Top? ==> p.node in m && m'[p.node] == ChildSet(p, m[p.node], x)
    ensures var t' := Node(t.color, t.left, x, t.right); TreeIn(m', t', Up(p)) && PathIn(m', p, x) && Apart(p, t')
  {
    TwoChildren(m, p, t);
    TreeRehung(m, m', t.left, t.node, x);
    TreeRehung(m, m', t.right, t.node, x);
    PathRedirected(m, m', p, t.node, x);
  }

  lemma PathRelinked<K, V>(m: Store<K, V>, m': Store<K, V>, p: Path<RbNode<K, V>>, t: Shape<RbNode<K, V>>, hole': RbNode?<K, V>,
                           changed: set<RbNode<K, V>>)
    requires t.Node? && PathIn(m, p, t.node) && Apart(p, t)
    requires changed <= Nodes(t)
    requires OnlyChanged(m, m', changed + {Up(p)})
    requires !p.Top? ==> p.node in m && m'[p.node] == ChildSet(p, m[p.node], hole')
    ensures PathIn(m', p, hole')
  {
    PathRedirected(m, m', p, t.node, hole');
  }
}
