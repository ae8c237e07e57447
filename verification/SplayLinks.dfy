/** Nodes of the splay tree, pictures of their link fields, and what a picture shows after a rotation,
    after a node has been linked off, and after the parts have been put together. */
module SplayLinks {
  import opened Basics
  import opened SplayShape

  class SplayNode<K> {
    const key: K
    var left: SplayNode?<K>
    var right: SplayNode?<K>

    constructor (key: K)
      ensures this.key == key && left == null && right == null
    {
      this.key, left, right := key, null, null;
    }
  }

  datatype Links<K> = Links(left: SplayNode?<K>, right: SplayNode?<K>)
  type Store<K> = map<SplayNode<K>, Links<K>>

  ghost function Picture<K>(s: set<SplayNode<K>>): (m: Store<K>)
    reads s`left, s`right
  {
    map n | n in s :: Links(n.left, n.right)
  }

  ghost predicate TreeIn<K>(m: Store<K>, t: Tree<SplayNode<K>>, p: SplayNode?<K>) {
    match t
    case Leaf => p == null
    case Node(l, n, r) => p == n && n in m && TreeIn(m, l, m[n].left) && TreeIn(m, r, m[n].right)
  }

  /** The node whose link is open: the last one linked off, or the local `node` of the loop. */
  function Last<K>(s: Spine<SplayNode<K>>, node: SplayNode<K>): SplayNode<K> {
    if s.End? then node else s.node
  }

  /** The right links lead from `node` down the spine; the last one is open. */
  ghost predicate LeftIn<K>(m: Store<K>, s: Spine<SplayNode<K>>, node: SplayNode<K>) {
    match s
    case End => true
    case Add(up, n, sub) =>
      && Last(up, node) in m && n in m && m[Last(up, node)].right == n
      && TreeIn(m, sub, m[n].left) && LeftIn(m, up, node)
  }

  /** The left links lead from `node` down the spine. */
  ghost predicate RightIn<K>(m: Store<K>, s: Spine<SplayNode<K>>, node: SplayNode<K>) {
    match s
    case End => true
    case Add(up, n, sub) =>
      && Last(up, node) in m && n in m && m[Last(up, node)].left == n
      && TreeIn(m, sub, m[n].right) && RightIn(m, up, node)
  }

  ghost predicate Separate<T>(s: seq<T>, t: seq<T>) {
    forall x :: x in s ==> x !in t
  }

  // ----- nothing changes where no link changes -----

  lemma {:induction false} TreeKept<K>(m: Store<K>, c: SplayNode<K>, k: Links<K>, t: Tree<SplayNode<K>>, p: SplayNode?<K>)
    requires TreeIn(m, t, p) && c !in Inorder(t)
    ensures TreeIn(m[c := k], t, p)
  {
    if t.Node? {
      var a := Inorder(t.left) + [t.node];
      assert c !in a && c !in Inorder(t.right);
      TreeKept(m, c, k, t.left, m[t.node].left);
      TreeKept(m, c, k, t.right, m[t.node].right);
    }
  }

  /** The left side stays if the changed node is not on it, or is the last one and only its open link
      changes; the left link of `node`, where the right side starts, may change too. */
  lemma {:induction false} LeftKept<K>(m: Store<K>, c: SplayNode<K>, k: Links<K>, s: Spine<SplayNode<K>>, node: SplayNode<K>)
    requires LeftIn(m, s, node) && c in m && node !in LeftOrder(s) && Distinct(LeftOrder(s))
    requires c in LeftOrder(s) ==> c == Last(s, node) && k.left == m[c].left
    requires c == node && s.Add? ==> k.right == m[node].right
    ensures LeftIn(m[c := k], s, node)
  {
    if s.Add? {
      var own := Inorder(s.sub) + [s.node];
      SplitDistinct(LeftOrder(s.up), own);
      SplitDistinct(Inorder(s.sub), [s.node]);
      assert s.node in [s.node];
      TreeKept(m, c, k, s.sub, m[s.node].left);
      LastIn(s.up, node);
      LeftKept(m, c, k, s.up, node);
    }
  }

  lemma {:induction false} RightKept<K>(m: Store<K>, c: SplayNode<K>, k: Links<K>, s: Spine<SplayNode<K>>, node: SplayNode<K>)
    requires RightIn(m, s, node) && c in m && node !in RightOrder(s) && Distinct(RightOrder(s))
    requires c in RightOrder(s) ==> c == Last(s, node) && k.right == m[c].right
    requires c == node && s.Add? ==> k.left == m[node].left
    ensures RightIn(m[c := k], s, node)
  {
    if s.Add? {
      var own := [s.node] + Inorder(s.sub);
      SplitDistinct(own, RightOrder(s.up));
      SplitDistinct([s.node], Inorder(s.sub));
      assert s.node in [s.node];
      TreeKept(m, c, k, s.sub, m[s.node].right);
      LastIn(s.up, node);
      RightKept(m, c, k, s.up, node);
    }
  }

  lemma SplitDistinct<T>(a: seq<T>, b: seq<T>)
    requires Distinct(a + b)
    ensures Distinct(a) && Distinct(b) && Separate(a, b)
    ensures forall x :: x in a + b <==> x in a || x in b
  {
    var s := a + b;
    assert forall i :: 0 <= i < |a| ==> s[i] == a[i];
    assert forall j :: 0 <= j < |b| ==> s[|a| + j] == b[j];
  }

  /** The last node linked off is one of the side's nodes. */
  lemma LastIn<K>(s: Spine<SplayNode<K>>, node: SplayNode<K>)
    ensures s.Add? ==> Last(s, node) in LeftOrder(s) && Last(s, node) in RightOrder(s)
  {
    if s.Add? {
      assert s.node in Inorder(s.sub) + [s.node] && s.node in [s.node] + Inorder(s.sub);
    }
  }

  // ----- the scene of the splay loop -----

  /** The three parts, and the local variables of the loop. */
  ghost predicate Scene<K>(m: Store<K>, l: Spine<SplayNode<K>>, t: Tree<SplayNode<K>>, r: Spine<SplayNode<K>>,
                           root: SplayNode?<K>, left: SplayNode<K>, right: SplayNode<K>, node: SplayNode<K>)
  {
    && node in m && TreeIn(m, t, root) && LeftIn(m, l, node) && RightIn(m, r, node)
    && left == Last(l, node) && right == Last(r, node)
    && Distinct(Whole(l, t, r)) && node !in Whole(l, t, r) && forall n :: n in Whole(l, t, r) ==> n in m
  }

  lemma Parts<K>(l: Spine<SplayNode<K>>, t: Tree<SplayNode<K>>, r: Spine<SplayNode<K>>)
    requires Distinct(Whole(l, t, r))
    ensures Distinct(LeftOrder(l)) && Distinct(Inorder(t)) && Distinct(RightOrder(r))
    ensures Separate(LeftOrder(l), Inorder(t)) && Separate(LeftOrder(l), RightOrder(r)) && Separate(Inorder(t), RightOrder(r))
    ensures forall n :: n in Whole(l, t, r) <==> n in LeftOrder(l) || n in Inorder(t) || n in RightOrder(r)
  {
    SplitDistinct(LeftOrder(l) + Inorder(t), RightOrder(r));
    SplitDistinct(LeftOrder(l), Inorder(t));
  }

  lemma TreeParts<K>(t: Tree<SplayNode<K>>)
    requires t.Node? && Distinct(Inorder(t))
    ensures Distinct(Inorder(t.left)) && Distinct(Inorder(t.right)) && Separate(Inorder(t.left), Inorder(t.right))
    ensures t.node !in Inorder(t.left) && t.node !in Inorder(t.right)
    ensures forall n :: n in Inorder(t) <==> n in Inorder(t.left) || n == t.node || n in Inorder(t.right)
  {
    SplitDistinct(Inorder(t.left) + [t.node], Inorder(t.right));
    SplitDistinct(Inorder(t.left), [t.node]);
    assert t.node in [t.node];
  }

  /** SPLAY_LINKLEFT: the root goes to the right side, with its right subtree. */
  lemma LinkedRight<K>(m: Store<K>, l: Spine<SplayNode<K>>, t: Tree<SplayNode<K>>, r: Spine<SplayNode<K>>,
                       root: SplayNode<K>, left: SplayNode<K>, right: SplayNode<K>, node: SplayNode<K>)
    requires Scene(m, l, t, r, root, left, right, node) && t.Node?
    ensures right in m && root in m
    ensures var m' := m[right := m[right].(left := root)];
      Scene(m', l, t.left, Add(r, t.node, t.right), m'[root].left, left, root, node)
  {
    hide Distinct, LeftOrder, RightOrder, Inorder;
    LinkRightOrder(l, t, r);
    Parts(l, t, r);
    TreeParts(t);
    LastIn(r, node);
    var k := m[right].(left := root);
    LeftKept(m, right, k, l, node);
    RightKept(m, right, k, r, node);
    TreeKept(m, right, k, t.left, m[root].left);
    TreeKept(m, right, k, t.right, m[root].right);
  }

  /** SPLAY_LINKRIGHT: the root goes to the left side, with its left subtree. */
  lemma LinkedLeft<K>(m: Store<K>, l: Spine<SplayNode<K>>, t: Tree<SplayNode<K>>, r: Spine<SplayNode<K>>,
                      root: SplayNode<K>, left: SplayNode<K>, right: SplayNode<K>, node: SplayNode<K>)
    requires Scene(m, l, t, r, root, left, right, node) && t.Node?
    ensures left in m && root in m
    ensures var m' := m[left := m[left].(right := root)];
      Scene(m', Add(l, t.node, t.left), t.right, r, m'[root].right, root, right, node)
  {
    hide Distinct, LeftOrder, RightOrder, Inorder;
    LinkLeftOrder(l, t, r);
    Parts(l, t, r);
    TreeParts(t);
    LastIn(l, node);
    var k := m[left].(right := root);
    LeftKept(m, left, k, l, node);
    RightKept(m, left, k, r, node);
    TreeKept(m, left, k, t.left, m[root].left);
    TreeKept(m, left, k, t.right, m[root].right);
  }

  /** SPLAY_ROTATE_RIGHT. */
  lemma RotatedRight<K>(m: Store<K>, l: Spine<SplayNode<K>>, t: Tree<SplayNode<K>>, r: Spine<SplayNode<K>>,
                        root: SplayNode<K>, tmp: SplayNode<K>, left: SplayNode<K>, right: SplayNode<K>, node: SplayNode<K>)
    requires Scene(m, l, t, r, root, left, right, node) && t.Node? && t.left.Node? && root in m && m[root].left == tmp
    ensures tmp in m && tmp != root
    ensures var m' := m[root := m[root].(left := m[tmp].right)]; var m'' := m'[tmp := m'[tmp].(right := root)];
      Scene(m'', l, RotateRight(t), r, tmp, left, right, node)
  {
    hide Distinct, LeftOrder, RightOrder, Inorder;
    assert TreeIn(m, t.left, tmp);
    RotateRightOrder(t);
    Parts(l, t, r);
    TreeParts(t);
    TreeParts(t.left);
    var k := m[root].(left := m[tmp].right);
    var m' := m[root := k];
    LeftKept(m, root, k, l, node);
    RightKept(m, root, k, r, node);
    TreeKept(m, root, k, t.left.left, m[tmp].left);
    TreeKept(m, root, k, t.left.right, m[tmp].right);
    TreeKept(m, root, k, t.right, m[root].right);
    var k' := m'[tmp].(right := root);
    LeftKept(m', tmp, k', l, node);
    RightKept(m', tmp, k', r, node);
    TreeKept(m', tmp, k', t.left.left, m[tmp].left);
    TreeKept(m', tmp, k', t.left.right, m[tmp].right);
    TreeKept(m', tmp, k', t.right, m[root].right);
    assert TreeIn(m'[tmp := k'], Node(t.left.right, t.node, t.right), root);
  }

  /** SPLAY_ROTATE_LEFT. */
  lemma RotatedLeft<K>(m: Store<K>, l: Spine<SplayNode<K>>, t: Tree<SplayNode<K>>, r: Spine<SplayNode<K>>,
                       root: SplayNode<K>, tmp: SplayNode<K>, left: SplayNode<K>, right: SplayNode<K>, node: SplayNode<K>)
    requires Scene(m, l, t, r, root, left, right, node) && t.Node? && t.right.Node? && root in m && m[root].right == tmp
    ensures tmp in m && tmp != root
    ensures var m' := m[root := m[root].(right := m[tmp].left)]; var m'' := m'[tmp := m'[tmp].(left := root)];
      Scene(m'', l, RotateLeft(t), r, tmp, left, right, node)
  {
    hide Distinct, LeftOrder, RightOrder, Inorder;
    assert TreeIn(m, t.right, tmp);
    RotateLeftOrder(t);
    Parts(l, t, r);
    TreeParts(t);
    TreeParts(t.right);
    var k := m[root].(right := m[tmp].left);
    var m' := m[root := k];
    LeftKept(m, root, k, l, node);
    RightKept(m, root, k, r, node);
    TreeKept(m, root, k, t.right.left, m[tmp].left);
    TreeKept(m, root, k, t.right.right, m[tmp].right);
    TreeKept(m, root, k, t.left, m[root].left);
    var k' := m'[tmp].(left := root);
    LeftKept(m', tmp, k', l, node);
    RightKept(m', tmp, k', r, node);
    TreeKept(m', tmp, k', t.right.left, m[tmp].left);
    TreeKept(m', tmp, k', t.right.right, m[tmp].right);
    TreeKept(m', tmp, k', t.left, m[root].left);
    assert TreeIn(m'[tmp := k'], Node(t.left, t.node, t.right.left), root);
  }

  // ----- putting the parts together -----

  lemma {:induction false} LeftClosed<K>(m: Store<K>, s: Spine<SplayNode<K>>, t: Tree<SplayNode<K>>, node: SplayNode<K>)
    requires node in m && LeftIn(m, s, node) && Last(s, node) in m && TreeIn(m, t, m[Last(s, node)].right)
    ensures TreeIn(m, CloseLeft(s, t), m[node].right)
    decreases s
  {
    if s.Add? {
      LeftClosed(m, s.up, Node(s.sub, s.node, t), node);
    }
  }

  lemma {:induction false} RightClosed<K>(m: Store<K>, s: Spine<SplayNode<K>>, t: Tree<SplayNode<K>>, node: SplayNode<K>)
    requires node in m && RightIn(m, s, node) && Last(s, node) in m && TreeIn(m, t, m[Last(s, node)].left)
    ensures TreeIn(m, CloseRight(s, t), m[node].left)
    decreases s
  {
    if s.Add? {
      RightClosed(m, s.up, Node(t, s.node, s.sub), node);
    }
  }

  /** The links after SPLAY_ASSEMBLE. */
  ghost function AssembledLinks<K>(m: Store<K>, root: SplayNode<K>, left: SplayNode<K>, right: SplayNode<K>, node: SplayNode<K>): Store<K>
    requires root in m && left in m && right in m && node in m
  {
    var m1 := m[left := m[left].(right := m[root].left)];
    var m2 := m1[right := m1[right].(left := m1[root].right)];
    var m3 := m2[root := m2[root].(left := m2[node].right)];
    m3[root := m3[root].(right := m3[node].left)]
  }

  lemma AssembledTree<K>(m: Store<K>, l: Spine<SplayNode<K>>, t: Tree<SplayNode<K>>, r: Spine<SplayNode<K>>,
                         root: SplayNode<K>, left: SplayNode<K>, right: SplayNode<K>, node: SplayNode<K>)
    requires Scene(m, l, t, r, root, left, right, node) && t.Node?
    ensures root in m && left in m && right in m && node in m
    ensures TreeIn(AssembledLinks(m, root, left, right, node), Assembled(l, t, r), root)
  {
    hide Distinct, LeftOrder, RightOrder, Inorder;
    Parts(l, t, r);
    TreeParts(t);
    LastIn(l, node);
    LastIn(r, node);
    var a, b := m[root].left, m[root].right;
    var k1 := m[left].(right := a);
    var m1 := m[left := k1];
    LeftKept(m, left, k1, l, node);
    RightKept(m, left, k1, r, node);
    TreeKept(m, left, k1, t.left, a);
    TreeKept(m, left, k1, t.right, b);
    var k2 := m1[right].(left := b);
    var m2 := m1[right := k2];
    LeftKept(m1, right, k2, l, node);
    RightKept(m1, right, k2, r, node);
    TreeKept(m1, right, k2, t.left, a);
    TreeKept(m1, right, k2, t.right, b);
    LeftClosed(m2, l, t.left, node);
    RightClosed(m2, r, t.right, node);
    ClosedApart(l, t, r);
    var k3 := Links(m2[node].right, m2[node].left);
    TreeKept(m2, root, k3, CloseLeft(l, t.left), m2[node].right);
    TreeKept(m2, root, k3, CloseRight(r, t.right), m2[node].left);
    assert AssembledLinks(m, root, left, right, node) == m2[root := k3];
  }

  lemma ClosedApart<K>(l: Spine<SplayNode<K>>, t: Tree<SplayNode<K>>, r: Spine<SplayNode<K>>)
    requires Distinct(Whole(l, t, r)) && t.Node?
    ensures t.node !in Inorder(CloseLeft(l, t.left)) && t.node !in Inorder(CloseRight(r, t.right))
  {
    Parts(l, t, r);
    TreeParts(t);
    CloseLeftOrder(l, t.left);
    CloseRightOrder(r, t.right);
  }
}
