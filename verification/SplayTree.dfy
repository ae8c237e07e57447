/** The splay trees: SPLAY, SPLAY_MINMAX, SPLAY_INSERT, SPLAY_REMOVE and SPLAY_FIND. */
module SplayTree {
  import opened Basics
  import opened SplayShape
  import opened SplayLinks
  import Rb = RbLinks

  ghost predicate Sorted<K>(cmp: (K, K) -> int, s: seq<SplayNode<K>>) {
    forall i, j :: 0 <= i < j < |s| ==> cmp(s[i].key, s[j].key) < 0
  }

  ghost predicate AllBelow<K>(cmp: (K, K) -> int, s: seq<SplayNode<K>>, key: K) {
    forall i :: 0 <= i < |s| ==> cmp(key, s[i].key) > 0
  }

  ghost predicate AllAbove<K>(cmp: (K, K) -> int, s: seq<SplayNode<K>>, key: K) {
    forall i :: 0 <= i < |s| ==> cmp(key, s[i].key) < 0
  }

  /** Everything left of the root is smaller than the key and everything right of it greater: the root
      has the key if any node has, and is next to its place otherwise. */
  ghost predicate AtRoot<K>(cmp: (K, K) -> int, t: Tree<SplayNode<K>>, key: K) {
    t.Node? && AllBelow(cmp, Inorder(t.left), key) && AllAbove(cmp, Inorder(t.right), key)
  }

  lemma Concat<K(!new)>(cmp: (K, K) -> int, a: seq<SplayNode<K>>, b: seq<SplayNode<K>>, key: K)
    ensures AllBelow(cmp, a + b, key) <==> AllBelow(cmp, a, key) && AllBelow(cmp, b, key)
    ensures AllAbove(cmp, a + b, key) <==> AllAbove(cmp, a, key) && AllAbove(cmp, b, key)
  {
    var s := a + b;
    assert forall i :: 0 <= i < |a| ==> s[i] == a[i];
    assert forall i :: 0 <= i < |b| ==> s[|a| + i] == b[i];
  }

  lemma SortedParts<K(!new)>(cmp: (K, K) -> int, a: seq<SplayNode<K>>, x: SplayNode<K>, b: seq<SplayNode<K>>, key: K)
    requires Rb.TotalOrder(cmp) && Sorted(cmp, a + [x] + b)
    ensures cmp(key, x.key) >= 0 ==> AllBelow(cmp, a, key)
    ensures cmp(key, x.key) <= 0 ==> AllAbove(cmp, b, key)
    ensures Sorted(cmp, a) && Sorted(cmp, b) && Sorted(cmp, a + b)
  {
    hide Rb.TotalOrder;
    var s := a + [x] + b;
    assert s[|a|] == x;
    assert forall i :: 0 <= i < |a| ==> s[i] == a[i];
    assert forall i :: 0 <= i < |b| ==> s[|a| + 1 + i] == b[i];
    forall i | 0 <= i < |a|
      ensures cmp(key, x.key) >= 0 ==> cmp(key, a[i].key) > 0
    {
      Beside(cmp, a[i].key, x.key, key);
    }
    forall i | 0 <= i < |b|
      ensures cmp(key, x.key) <= 0 ==> cmp(key, b[i].key) < 0
    {
      Beside(cmp, x.key, b[i].key, key);
    }
  }

  lemma Beside<K(!new)>(cmp: (K, K) -> int, a: K, b: K, key: K)
    requires Rb.TotalOrder(cmp) && cmp(a, b) < 0
    ensures cmp(key, b) >= 0 ==> cmp(key, a) > 0
    ensures cmp(key, a) <= 0 ==> cmp(key, b) < 0
    ensures cmp(key, key) == 0
  {
    Rb.LessTransitive(cmp, a, b, key);
    Rb.LessTransitive(cmp, key, a, b);
  }

  ghost predicate Covered<K>(nodes: set<SplayNode<K>>, order: seq<SplayNode<K>>) {
    forall n :: n in nodes ==> n in order
  }

  lemma CoveredBy<K>(nodes: set<SplayNode<K>>, order: seq<SplayNode<K>>, node: SplayNode<K>)
    requires Covered(nodes, order)
    ensures node in nodes ==> node in order
    ensures order == [] ==> nodes == {}
  {
  }

  lemma CoveredMore<K>(nodes: set<SplayNode<K>>, order: seq<SplayNode<K>>, node: SplayNode<K>, order': seq<SplayNode<K>>)
    requires Covered(nodes, order) && OneInserted(order, node, order')
    ensures Covered(nodes + {node}, order')
  {
    var k: nat :| k <= |order| && order' == InsertedAt(order, k, node);
    assert order == order[..k] + order[k..];
  }

  lemma CoveredSet<K>(nodes: set<SplayNode<K>>, order: seq<SplayNode<K>>, t: Tree<SplayNode<K>>)
    ensures Covered(NodeSet(t), Inorder(t))
    ensures Covered(nodes, order) ==> Covered(nodes + NodeSet(t), order + Inorder(t))
  {
  }

  class SplayHead<K(!new)> {
    const cmp: (K, K) -> int
    var root: SplayNode?<K>
    ghost var shape: Tree<SplayNode<K>>
    ghost var nodes: set<SplayNode<K>>

    constructor (cmp: (K, K) -> int)
      requires Rb.TotalOrder(cmp)
      ensures Valid() && shape == Leaf && nodes == {} && this.cmp == cmp
    {
      this.cmp := cmp;
      root, shape, nodes := null, Leaf, {};
    }

    ghost function Order(): seq<SplayNode<K>>
      reads this`shape
    {
      Inorder(shape)
    }

    /** The links hold the tree `shape`, in search order, and `nodes` are its nodes. */
    ghost predicate Valid()
      reads this, nodes`left, nodes`right
    {
      Linked() && Covered(nodes, Order())
    }

    ghost predicate Linked()
      reads this, nodes`left, nodes`right
    {
      && Rb.TotalOrder(cmp) && TreeIn(Picture(nodes), shape, root) && Distinct(Order()) && Sorted(cmp, Order())
      && forall n :: n in Order() ==> n in nodes
    }

    predicate IsEmpty()
      reads this
    {
      root == null
    }

    /** SPLAY_ROTATE_RIGHT. */
    method RotateRootRight(tmp: SplayNode<K>, ghost l: Spine<SplayNode<K>>, ghost t: Tree<SplayNode<K>>, ghost r: Spine<SplayNode<K>>,
                           left: SplayNode<K>, right: SplayNode<K>, node: SplayNode<K>, ghost all: set<SplayNode<K>>)
      requires Scene(Picture(all), l, t, r, root, left, right, node) && t.Node? && t.left.Node? && root != null && root.left == tmp
      modifies this`root, all`left, all`right
      ensures Scene(Picture(all), l, RotateRight(t), r, root, left, right, node)
    {
      ghost var m := Picture(all);
      assert root in m;
      hide Scene, TreeIn, LeftIn, RightIn;
      RotatedRight(m, l, t, r, root, tmp, left, right, node);
      root.left := tmp.right;
      ghost var m' := Picture(all);
      tmp.right := root;
      assert m' == m[root := m[root].(left := m[tmp].right)];
      assert Picture(all) == m'[tmp := m'[tmp].(right := root)];
      ghost var m'' := Picture(all);
      root := tmp;
      assert Picture(all) == m'';
    }

    method RotateRootLeft(tmp: SplayNode<K>, ghost l: Spine<SplayNode<K>>, ghost t: Tree<SplayNode<K>>, ghost r: Spine<SplayNode<K>>,
                          left: SplayNode<K>, right: SplayNode<K>, node: SplayNode<K>, ghost all: set<SplayNode<K>>)
      requires Scene(Picture(all), l, t, r, root, left, right, node) && t.Node? && t.right.Node? && root != null && root.right == tmp
      modifies this`root, all`left, all`right
      ensures Scene(Picture(all), l, RotateLeft(t), r, root, left, right, node)
    {
      ghost var m := Picture(all);
      assert root in m;
      hide Scene, TreeIn, LeftIn, RightIn;
      RotatedLeft(m, l, t, r, root, tmp, left, right, node);
      root.right := tmp.left;
      ghost var m' := Picture(all);
      tmp.left := root;
      assert m' == m[root := m[root].(right := m[tmp].left)];
      assert Picture(all) == m'[tmp := m'[tmp].(left := root)];
      ghost var m'' := Picture(all);
      root := tmp;
      assert Picture(all) == m'';
    }

    /** SPLAY_LINKLEFT. */
    method LinkRootRight(ghost l: Spine<SplayNode<K>>, ghost t: Tree<SplayNode<K>>, ghost r: Spine<SplayNode<K>>,
                         left: SplayNode<K>, right: SplayNode<K>, node: SplayNode<K>, ghost all: set<SplayNode<K>>)
      returns (right': SplayNode<K>)
      requires Scene(Picture(all), l, t, r, root, left, right, node) && t.Node? && root != null
      modifies this`root, all`left, all`right
      ensures Scene(Picture(all), l, t.left, Add(r, t.node, t.right), root, left, right', node)
    {
      ghost var m := Picture(all);
      hide Scene, TreeIn, LeftIn, RightIn;
      LinkedRight(m, l, t, r, root, left, right, node);
      right.left := root;
      assert Picture(all) == m[right := m[right].(left := root)];
      right' := root;
      ghost var m' := Picture(all);
      root := root.left;
      assert Picture(all) == m';
    }

    /** SPLAY_LINKRIGHT. */
    method LinkRootLeft(ghost l: Spine<SplayNode<K>>, ghost t: Tree<SplayNode<K>>, ghost r: Spine<SplayNode<K>>,
                        left: SplayNode<K>, right: SplayNode<K>, node: SplayNode<K>, ghost all: set<SplayNode<K>>)
      returns (left': SplayNode<K>)
      requires Scene(Picture(all), l, t, r, root, left, right, node) && t.Node? && root != null
      modifies this`root, all`left, all`right
      ensures Scene(Picture(all), Add(l, t.node, t.left), t.right, r, root, left', right, node)
    {
      ghost var m := Picture(all);
      hide Scene, TreeIn, LeftIn, RightIn;
      LinkedLeft(m, l, t, r, root, left, right, node);
      left.right := root;
      assert Picture(all) == m[left := m[left].(right := root)];
      left' := root;
      ghost var m' := Picture(all);
      root := root.right;
      assert Picture(all) == m';
    }

    /** SPLAY_ASSEMBLE. */
    method Assemble(ghost l: Spine<SplayNode<K>>, ghost t: Tree<SplayNode<K>>, ghost r: Spine<SplayNode<K>>,
                    left: SplayNode<K>, right: SplayNode<K>, node: SplayNode<K>, ghost all: set<SplayNode<K>>)
      requires Scene(Picture(all), l, t, r, root, left, right, node) && t.Node? && root != null
      modifies all`left, all`right
      ensures TreeIn(Picture(all), Assembled(l, t, r), root)
    {
      ghost var m := Picture(all);
      hide Scene, TreeIn, LeftIn, RightIn;
      AssembledTree(m, l, t, r, root, left, right, node);
      SetRight(left, root.left, all);
      SetLeft(right, root.right, all);
      SetLeft(root, node.right, all);
      SetRight(root, node.left, all);
    }

    method SetLeft(x: SplayNode<K>, to: SplayNode?<K>, ghost all: set<SplayNode<K>>)
      requires x in all
      modifies x`left
      ensures x.left == to && Picture(all) == old(Picture(all)[x := Picture(all)[x].(left := to)])
    {
      x.left := to;
    }

    method SetRight(x: SplayNode<K>, to: SplayNode?<K>, ghost all: set<SplayNode<K>>)
      requires x in all
      modifies x`right
      ensures x.right == to && Picture(all) == old(Picture(all)[x := Picture(all)[x].(right := to)])
    {
      x.right := to;
    }

    /** The invariant of the splay loop. */
    ghost predicate Looping(l: Spine<SplayNode<K>>, t: Tree<SplayNode<K>>, r: Spine<SplayNode<K>>, left: SplayNode<K>, right: SplayNode<K>,
                            node: SplayNode<K>, all: set<SplayNode<K>>, key: K, order: seq<SplayNode<K>>)
      reads this`root, all`left, all`right
    {
      && Scene(Picture(all), l, t, r, root, left, right, node) && t.Node? && Whole(l, t, r) == order
      && AllBelow(cmp, LeftOrder(l), key) && AllAbove(cmp, RightOrder(r), key)
    }

    /** The loop body for a key smaller than the root's: go left, over a rotation if the key is smaller
        than the left child's too. */
    method StepLeft(key: K, ghost l: Spine<SplayNode<K>>, ghost t: Tree<SplayNode<K>>, ghost r: Spine<SplayNode<K>>,
                    left: SplayNode<K>, right: SplayNode<K>, node: SplayNode<K>, ghost all: set<SplayNode<K>>, ghost order: seq<SplayNode<K>>)
      returns (ghost t': Tree<SplayNode<K>>, ghost r': Spine<SplayNode<K>>, right': SplayNode<K>, done: bool)
      requires Rb.TotalOrder(cmp) && Sorted(cmp, order) && root != null && cmp(key, root.key) < 0
      requires Looping(l, t, r, left, right, node, all, key, order)
      modifies this`root, all`left, all`right
      ensures Looping(l, t', r', left, right', node, all, key, order)
      ensures if done then Stopped(cmp, t', key) else |Inorder(t')| < |Inorder(t)|
    {
      hide Rb.TotalOrder, Sorted, AllBelow, AllAbove, Scene, TreeIn, Distinct, Whole, Inorder, LeftOrder, RightOrder, RotateRight;
      t', r', right', done := t, r, right, true;
      SceneRoot(Picture(all), l, t, r, root, left, right, node);
      var tmp := root.left;
      if tmp == null {
        return;
      }
      if cmp(key, tmp.key) < 0 {
        RotatedRoot(l, t, r);
        RotateRootRight(tmp, l, t, r, left, right, node, all);
        t' := RotateRight(t);
        RotatedNode(t);
        SceneRoot(Picture(all), l, t', r, root, left, right, node);
        if root.left == null {
          return;
        }
      }
      LinkedRightOrder(cmp, l, t', r, key);
      right' := LinkRootRight(l, t', r, left, right, node, all);
      r', t', done := Add(r, t'.node, t'.right), t'.left, false;
    }

    method StepRight(key: K, ghost l: Spine<SplayNode<K>>, ghost t: Tree<SplayNode<K>>, ghost r: Spine<SplayNode<K>>,
                     left: SplayNode<K>, right: SplayNode<K>, node: SplayNode<K>, ghost all: set<SplayNode<K>>, ghost order: seq<SplayNode<K>>)
      returns (ghost l': Spine<SplayNode<K>>, ghost t': Tree<SplayNode<K>>, left': SplayNode<K>, done: bool)
      requires Rb.TotalOrder(cmp) && Sorted(cmp, order) && root != null && cmp(key, root.key) > 0
      requires Looping(l, t, r, left, right, node, all, key, order)
      modifies this`root, all`left, all`right
      ensures Looping(l', t', r, left', right, node, all, key, order)
      ensures if done then Stopped(cmp, t', key) else |Inorder(t')| < |Inorder(t)|
    {
      hide Rb.TotalOrder, Sorted, AllBelow, AllAbove, Scene, TreeIn, Distinct, Whole, Inorder, LeftOrder, RightOrder, RotateLeft;
      l', t', left', done := l, t, left, true;
      SceneRoot(Picture(all), l, t, r, root, left, right, node);
      var tmp := root.right;
      if tmp == null {
        return;
      }
      if cmp(key, tmp.key) > 0 {
        RotatedRoot(l, t, r);
        RotateRootLeft(tmp, l, t, r, left, right, node, all);
        t' := RotateLeft(t);
        RotatedNode(t);
        SceneRoot(Picture(all), l, t', r, root, left, right, node);
        if root.right == null {
          return;
        }
      }
      LinkedLeftOrder(cmp, l, t', r, key);
      left' := LinkRootLeft(l, t', r, left, right, node, all);
      l', t', done := Add(l, t'.node, t'.left), t'.right, false;
    }

    /** SPLAY. */
    method Splay(key: K)
      requires Linked() && shape.Node?
      modifies this`root, this`shape, nodes`left, nodes`right
      ensures Linked() && Order() == old(Order()) && AtRoot(cmp, shape, key)
    {
      assert root == shape.node;
      var node := new SplayNode<K>(key);
      ghost var all := nodes + {node};
      var left, right := node, node;
      ghost var order := Order();
      ghost var l: Spine<SplayNode<K>>, t, r: Spine<SplayNode<K>> := End, shape, End;
      StartScene(shape, root, node, key);
      hide Rb.TotalOrder, Sorted, AllBelow, AllAbove, Scene, TreeIn, Distinct, Whole, Inorder, LeftOrder, RightOrder;
      while true
        invariant Looping(l, t, r, left, right, node, all, key, order)
        decreases |Inorder(t)|
      {
        SceneRoot(Picture(all), l, t, r, root, left, right, node);
        var comp := cmp(key, root.key);
        if comp == 0 {
          break;
        }
        var done;
        if comp < 0 {
          t, r, right, done := StepLeft(key, l, t, r, left, right, node, all, order);
        } else {
          l, t, left, done := StepRight(key, l, t, r, left, right, node, all, order);
        }
        if done {
          SceneRoot(Picture(all), l, t, r, root, left, right, node);
          break;
        }
      }
      AssembledAtRoot(cmp, l, t, r, key);
      Finish(l, t, r, left, right, node, all, order);
    }

    /** Behind the loop: the three parts become one tree again. */
    method Finish(ghost l: Spine<SplayNode<K>>, ghost t: Tree<SplayNode<K>>, ghost r: Spine<SplayNode<K>>, left: SplayNode<K>, right: SplayNode<K>,
                  node: SplayNode<K>, ghost all: set<SplayNode<K>>, ghost order: seq<SplayNode<K>>)
      requires Rb.TotalOrder(cmp) && Sorted(cmp, order) && Distinct(order) && root != null
      requires Scene(Picture(all), l, t, r, root, left, right, node) && t.Node? && Whole(l, t, r) == order
      requires nodes <= all && forall n :: n in order ==> n in nodes
      modifies this`shape, all`left, all`right
      ensures Linked() && Order() == order && shape == Assembled(l, t, r)
    {
      hide Rb.TotalOrder, Sorted, Scene, TreeIn, Distinct, Whole, Inorder, LeftOrder, RightOrder;
      Assemble(l, t, r, left, right, node, all);
      AssembledOrder(l, t, r);
      shape := Assembled(l, t, r);
      Forget(Picture(all), nodes, shape, root);
      assert Restricted(Picture(all), nodes) == Picture(nodes);
    }

    // ----- the minimum and the maximum -----

    method StepMin(ghost t: Tree<SplayNode<K>>, ghost r: Spine<SplayNode<K>>, left: SplayNode<K>, right: SplayNode<K>,
                   node: SplayNode<K>, ghost all: set<SplayNode<K>>, ghost order: seq<SplayNode<K>>)
      returns (ghost t': Tree<SplayNode<K>>, ghost r': Spine<SplayNode<K>>, right': SplayNode<K>, done: bool)
      requires Scene(Picture(all), End, t, r, root, left, right, node) && t.Node? && Whole(End, t, r) == order && root != null
      modifies this`root, all`left, all`right
      ensures Scene(Picture(all), End, t', r', root, left, right', node) && t'.Node? && Whole(End, t', r') == order
      ensures if done then t'.left.Leaf? else |Inorder(t')| < |Inorder(t)|
    {
      hide Scene, TreeIn, Distinct, Whole, Inorder, LeftOrder, RightOrder, RotateRight;
      t', r', right', done := t, r, right, true;
      SceneRoot(Picture(all), End, t, r, root, left, right, node);
      var tmp := root.left;
      if tmp == null {
        return;
      }
      RotatedRoot(End, t, r);
      RotateRootRight(tmp, End, t, r, left, right, node, all);
      t' := RotateRight(t);
      RotatedNode(t);
      SceneRoot(Picture(all), End, t', r, root, left, right, node);
      if root.left == null {
        return;
      }
      LinkRightOrder(End, t', r);
      Smaller(t');
      right' := LinkRootRight(End, t', r, left, right, node, all);
      r', t', done := Add(r, t'.node, t'.right), t'.left, false;
    }

    method StepMax(ghost l: Spine<SplayNode<K>>, ghost t: Tree<SplayNode<K>>, left: SplayNode<K>, right: SplayNode<K>,
                   node: SplayNode<K>, ghost all: set<SplayNode<K>>, ghost order: seq<SplayNode<K>>)
      returns (ghost l': Spine<SplayNode<K>>, ghost t': Tree<SplayNode<K>>, left': SplayNode<K>, done: bool)
      requires Scene(Picture(all), l, t, End, root, left, right, node) && t.Node? && Whole(l, t, End) == order && root != null
      modifies this`root, all`left, all`right
      ensures Scene(Picture(all), l', t', End, root, left', right, node) && t'.Node? && Whole(l', t', End) == order
      ensures if done then t'.right.Leaf? else |Inorder(t')| < |Inorder(t)|
    {
      hide Scene, TreeIn, Distinct, Whole, Inorder, LeftOrder, RightOrder, RotateLeft;
      l', t', left', done := l, t, left, true;
      SceneRoot(Picture(all), l, t, End, root, left, right, node);
      var tmp := root.right;
      if tmp == null {
        return;
      }
      RotatedRoot(l, t, End);
      RotateRootLeft(tmp, l, t, End, left, right, node, all);
      t' := RotateLeft(t);
      RotatedNode(t);
      SceneRoot(Picture(all), l, t', End, root, left, right, node);
      if root.right == null {
        return;
      }
      LinkLeftOrder(l, t', End);
      Smaller(t');
      left' := LinkRootLeft(l, t', End, left, right, node, all);
      l', t', done := Add(l, t'.node, t'.left), t'.right, false;
    }

    /** SPLAY_MINMAX: the first node in order, or the last, becomes the root. `anyKey` stands for the
        key of the loop's local node, which nothing reads. */
    method SplayMinMax(comp: int, anyKey: K)
      requires Valid() && shape.Node? && comp != 0
      modifies this`root, this`shape, nodes`left, nodes`right
      ensures Valid() && Order() == old(Order()) && shape.Node? && root == shape.node
      ensures comp < 0 ==> shape.left == Leaf && root == Order()[0]
      ensures comp > 0 ==> shape.right == Leaf && root == Order()[|Order()| - 1]
    {
      var node := new SplayNode<K>(anyKey);
      if comp < 0 {
        SplayMin(node);
      } else {
        SplayMax(node);
      }
      RefIs(Picture(nodes), shape, root);
      EndsInOrder(shape);
    }

    method SplayMin(node: SplayNode<K>)
      requires Linked() && shape.Node? && node !in nodes
      modifies this`root, this`shape, nodes`left, nodes`right, node`left, node`right
      ensures Linked() && Order() == old(Order()) && shape.Node? && shape.left == Leaf
    {
      assert root == shape.node;
      ghost var all := nodes + {node};
      var left, right := node, node;
      ghost var order, t, r: Spine<SplayNode<K>> := Order(), shape, End;
      StartScene(shape, root, node, node.key);
      hide Rb.TotalOrder, Sorted, Scene, TreeIn, Distinct, Whole, Inorder, LeftOrder, RightOrder;
      while true
        invariant Scene(Picture(all), End, t, r, root, left, right, node) && t.Node? && Whole(End, t, r) == order
        decreases |Inorder(t)|
      {
        SceneRoot(Picture(all), End, t, r, root, left, right, node);
        var done;
        t, r, right, done := StepMin(t, r, left, right, node, all, order);
        if done {
          SceneRoot(Picture(all), End, t, r, root, left, right, node);
          break;
        }
      }
      Finish(End, t, r, left, right, node, all, order);
    }

    method SplayMax(node: SplayNode<K>)
      requires Linked() && shape.Node? && node !in nodes
      modifies this`root, this`shape, nodes`left, nodes`right, node`left, node`right
      ensures Linked() && Order() == old(Order()) && shape.Node? && shape.right == Leaf
    {
      assert root == shape.node;
      ghost var all := nodes + {node};
      var left, right := node, node;
      ghost var order, l: Spine<SplayNode<K>>, t := Order(), End, shape;
      StartScene(shape, root, node, node.key);
      hide Rb.TotalOrder, Sorted, Scene, TreeIn, Distinct, Whole, Inorder, LeftOrder, RightOrder;
      while true
        invariant Scene(Picture(all), l, t, End, root, left, right, node) && t.Node? && Whole(l, t, End) == order
        decreases |Inorder(t)|
      {
        SceneRoot(Picture(all), l, t, End, root, left, right, node);
        var done;
        l, t, left, done := StepMax(l, t, left, right, node, all, order);
        if done {
          SceneRoot(Picture(all), l, t, End, root, left, right, node);
          break;
        }
      }
      Finish(l, t, End, left, right, node, all, order);
    }

    // ----- insert, remove, find -----

    /** SPLAY_FIND. */
    method Find(key: K) returns (r: SplayNode?<K>)
      requires Valid()
      modifies this`root, this`shape, nodes`left, nodes`right
      ensures Valid() && Order() == old(Order())
      ensures r != null ==> r in Order() && cmp(key, r.key) == 0
      ensures r == null ==> forall n :: n in Order() ==> cmp(key, n.key) != 0
    {
      hide Covered;
      RefIs(Picture(nodes), shape, root);
      if root == null {
        return null;
      }
      Splay(key);
      RefIs(Picture(nodes), shape, root);
      OnlyRoot(cmp, shape, key);
      if cmp(key, root.key) == 0 {
        return root;
      }
      return null;
    }

    /** SPLAY_INSERT: the node that has the key already, or null after inserting. */
    method Insert(elm: SplayNode<K>) returns (r: SplayNode?<K>)
      requires Valid()
      modifies this`root, this`shape, this`nodes, nodes`left, nodes`right, elm`left, elm`right
      ensures Valid()
      ensures elm in old(nodes) ==> r == elm
      ensures r != null ==> Order() == old(Order()) && r in Order() && cmp(elm.key, r.key) == 0 && nodes == old(nodes)
      ensures r == null ==> OneInserted(old(Order()), elm, Order()) && nodes == old(nodes) + {elm}
    {
      hide Covered, OneInserted, Sorted, Distinct;
      RefIs(Picture(nodes), shape, root);
      ghost var order := Order();
      CoveredBy(nodes, order, elm);
      if root == null {
        InsertFirst(elm);
        CoveredMore(old(nodes), order, elm, Order());
        return null;
      }
      Splay(elm.key);
      RefIs(Picture(nodes), shape, root);
      OnlyRoot(cmp, shape, elm.key);
      assert cmp(elm.key, elm.key) == 0;
      var comp := cmp(elm.key, root.key);
      if comp == 0 {
        return root;
      }
      if comp < 0 {
        InsertLeft(elm);
      } else {
        InsertRight(elm);
      }
      CoveredMore(old(nodes), order, elm, Order());
      return null;
    }

    method InsertFirst(elm: SplayNode<K>)
      requires Linked() && shape == Leaf
      modifies this`root, this`shape, this`nodes, elm`left, elm`right
      ensures Linked() && OneInserted(old(Order()), elm, Order()) && nodes == old(nodes) + {elm}
    {
      elm.left, elm.right := null, null;
      shape, nodes := Node(Leaf, elm, Leaf), nodes + {elm};
      MiddleInserted<SplayNode<K>>([], elm, []);
      assert Order() == [elm] == [] + [elm] + [];
      root := elm;
      assert TreeIn(Picture(nodes), shape, root);
    }

    method InsertLeft(elm: SplayNode<K>)
      requires Linked() && elm !in nodes && AtRoot(cmp, shape, elm.key) && root != null && cmp(elm.key, shape.node.key) < 0
      modifies this`root, this`shape, this`nodes, nodes`left, nodes`right, elm`left, elm`right
      ensures Linked() && OneInserted(old(Order()), elm, Order()) && nodes == old(nodes) + {elm}
    {
      ghost var t := shape;
      InsertedLeft(cmp, t, elm);
      hide TreeIn, Sorted, Distinct, Inorder, Rb.TotalOrder, OneInserted;
      LinkAboveLeft(elm);
      shape, nodes := Node(t.left, elm, Node(Leaf, t.node, t.right)), nodes + {elm};
    }

    method LinkAboveLeft(elm: SplayNode<K>)
      requires Linked() && elm !in nodes && root != null && shape.Node?
      modifies this`root, nodes`left, nodes`right, elm`left, elm`right
      ensures var t := shape; TreeIn(Picture(nodes + {elm}), Node(t.left, elm, Node(Leaf, t.node, t.right)), root)
    {
      ghost var t, m := shape, Picture(nodes);
      RefIs(m, t, root);
      ghost var all := nodes + {elm};
      assert Picture(all) == m[elm := Links(elm.left, elm.right)];
      InsertedLeftTree(m, t, elm, Links(elm.left, elm.right), root);
      hide TreeIn, Sorted, Distinct, Inorder, Rb.TotalOrder;
      SetLeft(elm, root.left, all);
      SetRight(elm, root, all);
      SetLeft(root, null, all);
      ghost var m' := Picture(all);
      root := elm;
      assert Picture(all) == m';
    }

    method InsertRight(elm: SplayNode<K>)
      requires Linked() && elm !in nodes && AtRoot(cmp, shape, elm.key) && root != null && cmp(elm.key, shape.node.key) > 0
      modifies this`root, this`shape, this`nodes, nodes`left, nodes`right, elm`left, elm`right
      ensures Linked() && OneInserted(old(Order()), elm, Order()) && nodes == old(nodes) + {elm}
    {
      ghost var t := shape;
      InsertedRight(cmp, t, elm);
      hide TreeIn, Sorted, Distinct, Inorder, Rb.TotalOrder, OneInserted;
      LinkAboveRight(elm);
      shape, nodes := Node(Node(t.left, t.node, Leaf), elm, t.right), nodes + {elm};
    }

    method LinkAboveRight(elm: SplayNode<K>)
      requires Linked() && elm !in nodes && root != null && shape.Node?
      modifies this`root, nodes`left, nodes`right, elm`left, elm`right
      ensures var t := shape; TreeIn(Picture(nodes + {elm}), Node(Node(t.left, t.node, Leaf), elm, t.right), root)
    {
      ghost var t, m := shape, Picture(nodes);
      RefIs(m, t, root);
      ghost var all := nodes + {elm};
      assert Picture(all) == m[elm := Links(elm.left, elm.right)];
      InsertedRightTree(m, t, elm, Links(elm.left, elm.right), root);
      hide TreeIn, Sorted, Distinct, Inorder, Rb.TotalOrder;
      SetRight(elm, root.right, all);
      SetLeft(elm, root, all);
      SetRight(root, null, all);
      ghost var m' := Picture(all);
      root := elm;
      assert Picture(all) == m';
    }

    /** SPLAY_REMOVE: `elm` if a node has its key and has been removed, else null. */
    method Remove(elm: SplayNode<K>) returns (r: SplayNode?<K>)
      requires Valid()
      modifies this`root, this`shape, this`nodes, nodes`left, nodes`right
      ensures Valid() && nodes <= old(nodes)
      ensures r == null ==> Order() == old(Order()) && forall n :: n in Order() ==> cmp(elm.key, n.key) != 0
      ensures r != null ==> r == elm && RemovedKey(cmp, old(Order()), elm.key, Order())
    {
      hide Covered;
      RefIs(Picture(nodes), shape, root);
      if root == null {
        return null;
      }
      Splay(elm.key);
      RefIs(Picture(nodes), shape, root);
      OnlyRoot(cmp, shape, elm.key);
      if cmp(elm.key, root.key) == 0 {
        RemoveRoot(elm.key);
        return elm;
      }
      return null;
    }

    method RemoveRoot(key: K)
      requires Linked() && AtRoot(cmp, shape, key) && cmp(key, shape.node.key) == 0
      modifies this`root, this`shape, this`nodes, nodes`left, nodes`right
      ensures Valid() && nodes <= old(nodes) && RemovedKey(cmp, old(Order()), key, Order())
    {
      ghost var t := shape;
      RootRemoved(cmp, t, key);
      RootApart(key);
      hide TreeIn, Sorted, Distinct, Inorder, Rb.TotalOrder, RemovedKey, AllBelow, AllAbove, NodeSet, Picture, Proper;
      if root.left == null {
        TakeSubtree(root.right, t.right);
      } else {
        JoinSubtrees(t, key);
      }
    }

    ghost predicate Proper(t: Tree<SplayNode<K>>) {
      Rb.TotalOrder(cmp) && Sorted(cmp, Inorder(t)) && Distinct(Inorder(t))
    }

    /** The links of the subtrees of the root: two trees in order, which share no node. */
    ghost predicate Apart(t: Tree<SplayNode<K>>, key: K)
      reads this, nodes`left, nodes`right
    {
      && t.Node? && root != null && root in nodes && (root.left == null <==> t.left.Leaf?)
      && NodeSet(t.left) <= nodes && NodeSet(t.right) <= nodes && NodeSet(t.left) !! NodeSet(t.right)
      && TreeIn(Picture(NodeSet(t.left)), t.left, root.left) && TreeIn(Picture(NodeSet(t.right)), t.right, root.right)
      && Proper(t.left) && Proper(t.right) && AllBelow(cmp, Inorder(t.left), key)
      && Sorted(cmp, Inorder(t.left) + Inorder(t.right)) && Distinct(Inorder(t.left) + Inorder(t.right))
    }

    lemma RootApart(key: K)
      requires Linked() && AtRoot(cmp, shape, key) && cmp(key, shape.node.key) == 0
      ensures Apart(shape, key)
    {
      hide Inorder, Sorted, AllBelow, AllAbove, Rb.TotalOrder, RemovedKey;
      RootRemoved(cmp, shape, key);
      RootLinks(nodes, shape, root);
    }

    method JoinSubtrees(ghost t: Tree<SplayNode<K>>, key: K)
      requires Apart(t, key) && t.left.Node?
      modifies this`root, this`shape, this`nodes, nodes`left, nodes`right
      ensures Valid() && nodes <= old(nodes) && Order() == Inorder(t.left) + Inorder(t.right)
    {
      hide TreeIn, Sorted, Distinct, Inorder, Rb.TotalOrder, AllBelow, AllAbove, NodeSet, Picture, Proper;
      var tmp := root.right;
      TakeSubtree(root.left, t.left);
      SplayAndAttach(tmp, t.right, key);
    }

    /** The left subtree, splayed at the key, takes the right subtree at its root. */
    method SplayAndAttach(tmp: SplayNode?<K>, ghost right: Tree<SplayNode<K>>, key: K)
      requires Valid() && shape.Node? && AllBelow(cmp, Order(), key)
      requires TreeIn(Picture(NodeSet(right)), right, tmp) && nodes !! NodeSet(right)
      requires Sorted(cmp, Order() + Inorder(right)) && Distinct(Order() + Inorder(right))
      modifies this`root, this`shape, this`nodes, nodes`left, nodes`right
      ensures Valid() && Order() == old(Order()) + Inorder(right) && nodes == old(nodes) + NodeSet(right)
    {
      hide Covered, TreeIn, Sorted, Distinct, Inorder, Rb.TotalOrder, AllBelow, AllAbove, NodeSet;
      ghost var mr := Picture(NodeSet(right));
      CoveredSet(nodes, Order(), right);
      Splay(key);
      assert Picture(NodeSet(right)) == mr;
      AttachRight(tmp, right, key);
    }

    /** One of the subtrees is the whole tree from now on. */
    method TakeSubtree(to: SplayNode?<K>, ghost t: Tree<SplayNode<K>>)
      requires Proper(t) && TreeIn(Picture(NodeSet(t)), t, to)
      modifies this`root, this`shape, this`nodes
      ensures Valid() && shape == t && nodes == NodeSet(t) && root == to
    {
      hide Covered, TreeIn, Sorted, Distinct, Inorder, Rb.TotalOrder;
      CoveredSet({}, [], t);
      ghost var m := Picture(NodeSet(t));
      root := to;
      assert Picture(NodeSet(t)) == m;
      shape, nodes := t, NodeSet(t);
    }

    lemma Attachable(tmp: SplayNode?<K>, right: Tree<SplayNode<K>>, key: K)
      requires Linked() && AtRoot(cmp, shape, key) && AllBelow(cmp, Order(), key)
      requires TreeIn(Picture(NodeSet(right)), right, tmp) && Distinct(Order() + Inorder(right))
      ensures root != null && root in nodes
      ensures var m := Picture(nodes + NodeSet(right)); var t := Node(shape.left, shape.node, right);
        && TreeIn(m[root := m[root].(right := tmp)], t, root) && Inorder(t) == Order() + Inorder(right)
        && forall n :: n in Inorder(t) ==> n in nodes + NodeSet(right)
    {
      hide Sorted, Distinct, Inorder, Rb.TotalOrder, AllBelow, AllAbove, NodeSet;
      RefIs(Picture(nodes), shape, root);
      assert root in Picture(nodes);
      GreatestRoot(cmp, shape, key);
      Attached(Picture(nodes), Picture(NodeSet(right)), Picture(nodes + NodeSet(right)), shape, right, root, tmp);
      AttachedNodes(shape, right);
    }

    /** The greatest node of the left part gets the right part back. */
    method AttachRight(tmp: SplayNode?<K>, ghost right: Tree<SplayNode<K>>, key: K)
      requires Linked() && AtRoot(cmp, shape, key) && AllBelow(cmp, Order(), key)
      requires TreeIn(Picture(NodeSet(right)), right, tmp)
      requires Sorted(cmp, Order() + Inorder(right)) && Distinct(Order() + Inorder(right))
      modifies this`shape, this`nodes, nodes`right
      ensures Linked() && Order() == old(Order()) + Inorder(right) && nodes == old(nodes) + NodeSet(right)
    {
      hide TreeIn, Sorted, Distinct, Inorder, Rb.TotalOrder, AllBelow, AllAbove, NodeSet;
      ghost var l, all := shape, nodes + NodeSet(right);
      Attachable(tmp, right, key);
      SetRight(root, tmp, all);
      shape, nodes := Node(l.left, l.node, right), all;
    }

    lemma StartScene(t: Tree<SplayNode<K>>, root: SplayNode<K>, node: SplayNode<K>, key: K)
      requires TreeIn(Picture(nodes), t, root) && Distinct(Inorder(t)) && node !in nodes && forall n :: n in Inorder(t) ==> n in nodes
      ensures Scene(Picture(nodes + {node}), End, t, End, root, node, node, node) && Whole(End, t, End) == Inorder(t)
      ensures AllBelow(cmp, LeftOrder<SplayNode<K>>(End), key) && AllAbove(cmp, RightOrder<SplayNode<K>>(End), key)
    {
      var m := Picture(nodes);
      assert Picture(nodes + {node}) == m[node := Links(node.left, node.right)];
      TreeKept(m, node, Links(node.left, node.right), t, root);
      assert [] + Inorder(t) + [] == Inorder(t);
    }
  }

  lemma SceneRoot<K>(m: Store<K>, l: Spine<SplayNode<K>>, t: Tree<SplayNode<K>>, r: Spine<SplayNode<K>>,
                     root: SplayNode?<K>, left: SplayNode<K>, right: SplayNode<K>, node: SplayNode<K>)
    requires Scene(m, l, t, r, root, left, right, node) && t.Node?
    ensures root == t.node && root in m && m[root].left == Ref(t.left) && m[root].right == Ref(t.right)
  {
    RefIs(m, t.left, m[root].left);
    RefIs(m, t.right, m[root].right);
  }

  lemma RefIs<K>(m: Store<K>, t: Tree<SplayNode<K>>, p: SplayNode?<K>)
    requires TreeIn(m, t, p)
    ensures p == Ref(t)
  {
  }

  /** The loop may stop: the root has the key, or there is nothing on the key's side of it. */
  ghost predicate Stopped<K>(cmp: (K, K) -> int, t: Tree<SplayNode<K>>, key: K) {
    t.Node? && (cmp(key, t.node.key) < 0 ==> t.left.Leaf?) && (cmp(key, t.node.key) > 0 ==> t.right.Leaf?)
  }

  lemma RotatedNode<K>(t: Tree<SplayNode<K>>)
    requires t.Node?
    ensures t.left.Node? ==> RotateRight(t).Node? && RotateRight(t).node == t.left.node
    ensures t.right.Node? ==> RotateLeft(t).Node? && RotateLeft(t).node == t.right.node
  {
  }

  function Ref<K>(t: Tree<SplayNode<K>>): SplayNode?<K> {
    if t.Leaf? then null else t.node
  }

  lemma WholeAround<K(!new)>(l: Spine<SplayNode<K>>, t: Tree<SplayNode<K>>, r: Spine<SplayNode<K>>)
    requires t.Node?
    ensures Whole(l, t, r) == (LeftOrder(l) + Inorder(t.left)) + [t.node] + (Inorder(t.right) + RightOrder(r))
  {
    var a, b, x, c, d := LeftOrder(l), Inorder(t.left), [t.node], Inorder(t.right), RightOrder(r);
    assert (a + ((b + x) + c)) + d == (a + b) + x + (c + d);
  }

  lemma LinkedRightOrder<K(!new)>(cmp: (K, K) -> int, l: Spine<SplayNode<K>>, t: Tree<SplayNode<K>>, r: Spine<SplayNode<K>>, key: K)
    requires Rb.TotalOrder(cmp) && t.Node? && Sorted(cmp, Whole(l, t, r)) && cmp(key, t.node.key) < 0 && AllAbove(cmp, RightOrder(r), key)
    ensures var r' := Add(r, t.node, t.right);
      AllAbove(cmp, RightOrder(r'), key) && Whole(l, t.left, r') == Whole(l, t, r)
    ensures |Inorder(t.left)| < |Inorder(t)|
  {
    hide Sorted, Rb.TotalOrder;
    LinkRightOrder(l, t, r);
    WholeAround(l, t, r);
    SortedParts(cmp, LeftOrder(l) + Inorder(t.left), t.node, Inorder(t.right) + RightOrder(r), key);
    Concat(cmp, Inorder(t.right), RightOrder(r), key);
    Concat(cmp, [t.node], Inorder(t.right), key);
    Concat(cmp, [t.node] + Inorder(t.right), RightOrder(r), key);
  }

  lemma LinkedLeftOrder<K(!new)>(cmp: (K, K) -> int, l: Spine<SplayNode<K>>, t: Tree<SplayNode<K>>, r: Spine<SplayNode<K>>, key: K)
    requires Rb.TotalOrder(cmp) && t.Node? && Sorted(cmp, Whole(l, t, r)) && cmp(key, t.node.key) > 0 && AllBelow(cmp, LeftOrder(l), key)
    ensures var l' := Add(l, t.node, t.left);
      AllBelow(cmp, LeftOrder(l'), key) && Whole(l', t.right, r) == Whole(l, t, r)
    ensures |Inorder(t.right)| < |Inorder(t)|
  {
    hide Sorted, Rb.TotalOrder;
    LinkLeftOrder(l, t, r);
    WholeAround(l, t, r);
    SortedParts(cmp, LeftOrder(l) + Inorder(t.left), t.node, Inorder(t.right) + RightOrder(r), key);
    Concat(cmp, LeftOrder(l), Inorder(t.left), key);
    Concat(cmp, Inorder(t.left), [t.node], key);
    Concat(cmp, LeftOrder(l), Inorder(t.left) + [t.node], key);
  }

  /** A rotation at the root keeps everything in order. */
  lemma RotatedRoot<K>(l: Spine<SplayNode<K>>, t: Tree<SplayNode<K>>, r: Spine<SplayNode<K>>)
    requires t.Node?
    ensures t.left.Node? ==> Whole(l, RotateRight(t), r) == Whole(l, t, r) && |Inorder(RotateRight(t))| == |Inorder(t)|
    ensures t.right.Node? ==> Whole(l, RotateLeft(t), r) == Whole(l, t, r) && |Inorder(RotateLeft(t))| == |Inorder(t)|
  {
    if t.left.Node? {
      RotateRightOrder(t);
    }
    if t.right.Node? {
      RotateLeftOrder(t);
    }
  }

  /** Where the loop stops, the parts make a tree with the key, or its neighbour, at the root. */
  lemma AssembledAtRoot<K(!new)>(cmp: (K, K) -> int, l: Spine<SplayNode<K>>, t: Tree<SplayNode<K>>, r: Spine<SplayNode<K>>, key: K)
    requires Rb.TotalOrder(cmp) && t.Node? && Sorted(cmp, Whole(l, t, r))
    requires AllBelow(cmp, LeftOrder(l), key) && AllAbove(cmp, RightOrder(r), key)
    requires Stopped(cmp, t, key)
    ensures AtRoot(cmp, Assembled(l, t, r), key) && Inorder(Assembled(l, t, r)) == Whole(l, t, r)
  {
    AssembledOrder(l, t, r);
    WholeAround(l, t, r);
    SortedParts(cmp, LeftOrder(l) + Inorder(t.left), t.node, Inorder(t.right) + RightOrder(r), key);
    Concat(cmp, LeftOrder(l), Inorder(t.left), key);
    Concat(cmp, Inorder(t.right), RightOrder(r), key);
  }

  ghost function Restricted<K>(m: Store<K>, nodes: set<SplayNode<K>>): Store<K> {
    map n | n in m && n in nodes :: m[n]
  }

  /** The local node of the loop plays no part any more. */
  lemma Forget<K>(m: Store<K>, nodes: set<SplayNode<K>>, t: Tree<SplayNode<K>>, p: SplayNode?<K>)
    requires TreeIn(m, t, p) && forall n :: n in Inorder(t) ==> n in nodes
    ensures TreeIn(Restricted(m, nodes), t, p)
  {
    if t.Node? {
      var a := Inorder(t.left) + [t.node];
      assert forall n :: n in a ==> n in Inorder(t);
      assert t.node in a;
      Forget(m, nodes, t.left, m[t.node].left);
      Forget(m, nodes, t.right, m[t.node].right);
    }
  }

  lemma Smaller<K>(t: Tree<SplayNode<K>>)
    requires t.Node?
    ensures |Inorder(t.left)| < |Inorder(t)| && |Inorder(t.right)| < |Inorder(t)|
  {
  }

  lemma EndsInOrder<K>(t: Tree<SplayNode<K>>)
    requires t.Node?
    ensures t.left == Leaf ==> Inorder(t)[0] == t.node
    ensures t.right == Leaf ==> Inorder(t)[|Inorder(t)| - 1] == t.node
  {
  }

  /** Nothing but the root can have the key. */
  lemma OnlyRoot<K(!new)>(cmp: (K, K) -> int, t: Tree<SplayNode<K>>, key: K)
    requires AtRoot(cmp, t, key)
    ensures t.node in Inorder(t) && forall n :: n in Inorder(t) && n != t.node ==> cmp(key, n.key) != 0
  {
    var a, b := Inorder(t.left), Inorder(t.right);
    assert Inorder(t)[|a|] == t.node;
    forall n | n in Inorder(t) && n != t.node
      ensures cmp(key, n.key) != 0
    {
      var i :| 0 <= i < |Inorder(t)| && Inorder(t)[i] == n;
      assert i < |a| ==> n == a[i];
      assert i > |a| ==> n == b[i - |a| - 1];
    }
  }

  lemma InsertedBetween<K(!new)>(cmp: (K, K) -> int, a: seq<SplayNode<K>>, x: SplayNode<K>, b: seq<SplayNode<K>>)
    requires Rb.TotalOrder(cmp) && Sorted(cmp, a + b) && Distinct(a + b) && x !in a + b
    requires AllBelow(cmp, a, x.key) && AllAbove(cmp, b, x.key)
    ensures Sorted(cmp, a + [x] + b) && Distinct(a + [x] + b) && OneInserted(a + b, x, a + [x] + b)
    ensures forall n :: n in a + [x] + b <==> n in a + b || n == x
  {
    MiddleInserted(a, x, b);
    var w := a + [x] + b;
    forall i, j | 0 <= i < j < |w|
      ensures cmp(w[i].key, w[j].key) < 0 && w[i] != w[j]
    {
      InsertedPair(cmp, a, x, b, i, j);
    }
  }

  lemma InsertedPair<K(!new)>(cmp: (K, K) -> int, a: seq<SplayNode<K>>, x: SplayNode<K>, b: seq<SplayNode<K>>, i: nat, j: nat)
    requires Rb.TotalOrder(cmp) && Sorted(cmp, a + b) && Distinct(a + b) && x !in a + b
    requires AllBelow(cmp, a, x.key) && AllAbove(cmp, b, x.key) && i < j <= |a| + |b|
    ensures var w := a + [x] + b; cmp(w[i].key, w[j].key) < 0 && w[i] != w[j]
  {
    var s, w := a + b, a + [x] + b;
    var i', j' := if i < |a| then i else i - 1, if j < |a| then j else j - 1;
    if i != |a| && j != |a| {
      assert w[i] == s[i'] && w[j] == s[j'];
    } else if i == |a| {
      assert w[j] == b[j - |a| - 1] && w[j] == s[j'];
    } else {
      assert w[i] == a[i] && w[i] == s[i];
    }
  }

  lemma AboveNode<K>(cmp: (K, K) -> int, x: SplayNode<K>, key: K)
    ensures AllAbove(cmp, [x], key) <==> cmp(key, x.key) < 0
    ensures AllBelow(cmp, [x], key) <==> cmp(key, x.key) > 0
  {
    assert [x][0] == x;
  }

  lemma InsertedLeft<K(!new)>(cmp: (K, K) -> int, t: Tree<SplayNode<K>>, elm: SplayNode<K>)
    requires Rb.TotalOrder(cmp) && AtRoot(cmp, t, elm.key) && cmp(elm.key, t.node.key) < 0
    requires Sorted(cmp, Inorder(t)) && Distinct(Inorder(t)) && elm !in Inorder(t)
    ensures var t' := Node(t.left, elm, Node(Leaf, t.node, t.right));
      && Sorted(cmp, Inorder(t')) && Distinct(Inorder(t')) && OneInserted(Inorder(t), elm, Inorder(t'))
      && forall n :: n in Inorder(t') ==> n in Inorder(t) || n == elm
  {
    hide Sorted, AllBelow, AllAbove, Distinct, OneInserted, Rb.TotalOrder;
    var a, x, b := Inorder(t.left), [t.node], Inorder(t.right);
    assert Inorder(Node(t.left, elm, Node(Leaf, t.node, t.right))) == a + [elm] + (([] + x) + b);
    AboveNode(cmp, t.node, elm.key);
    Concat(cmp, x, b, elm.key);
    Assoc(a, x, b);
    assert [] + x == x;
    hide Inorder;
    InsertedBetween(cmp, a, elm, x + b);
  }

  lemma InsertedLeftTree<K>(m: Store<K>, t: Tree<SplayNode<K>>, elm: SplayNode<K>, k: Links<K>, root: SplayNode<K>)
    requires TreeIn(m, t, root) && t.Node? && elm !in m && Distinct(Inorder(t)) && forall n :: n in Inorder(t) ==> n in m
    ensures root in m && root != elm
    ensures var m0 := m[elm := k]; var m1 := m0[elm := m0[elm].(left := m[root].left)];
      var m2 := m1[elm := m1[elm].(right := root)]; var m3 := m2[root := m2[root].(left := null)];
      TreeIn(m3, Node(t.left, elm, Node(Leaf, t.node, t.right)), elm)
  {
    TreeParts(t);
    var e := Links(m[root].left, root);
    TreeKept(m, elm, e, t.left, m[root].left);
    TreeKept(m, elm, e, t.right, m[root].right);
    var m2 := m[elm := e];
    var r := m[root].(left := null);
    TreeKept(m2, root, r, t.left, m[root].left);
    TreeKept(m2, root, r, t.right, m[root].right);
    var m3 := m2[root := r];
    assert TreeIn(m3, Node(Leaf, t.node, t.right), root);
    assert m[elm := k][elm := m[elm := k][elm].(left := m[root].left)] == m[elm := Links(m[root].left, k.right)];
    assert m[elm := Links(m[root].left, k.right)][elm := e] == m2;
  }

  lemma InsertedRight<K(!new)>(cmp: (K, K) -> int, t: Tree<SplayNode<K>>, elm: SplayNode<K>)
    requires Rb.TotalOrder(cmp) && AtRoot(cmp, t, elm.key) && cmp(elm.key, t.node.key) > 0
    requires Sorted(cmp, Inorder(t)) && Distinct(Inorder(t)) && elm !in Inorder(t)
    ensures var t' := Node(Node(t.left, t.node, Leaf), elm, t.right);
      && Sorted(cmp, Inorder(t')) && Distinct(Inorder(t')) && OneInserted(Inorder(t), elm, Inorder(t'))
      && forall n :: n in Inorder(t') ==> n in Inorder(t) || n == elm
  {
    hide Sorted, AllBelow, AllAbove, Distinct, OneInserted, Rb.TotalOrder;
    var a, x, b := Inorder(t.left), [t.node], Inorder(t.right);
    AboveNode(cmp, t.node, elm.key);
    assert Inorder(Node(t.left, t.node, Leaf)) == a + x + [] == a + x;
    Concat(cmp, a, x, elm.key);
    InsertedBetween(cmp, a + x, elm, b);
  }

  lemma InsertedRightTree<K>(m: Store<K>, t: Tree<SplayNode<K>>, elm: SplayNode<K>, k: Links<K>, root: SplayNode<K>)
    requires TreeIn(m, t, root) && t.Node? && elm !in m && Distinct(Inorder(t)) && forall n :: n in Inorder(t) ==> n in m
    ensures root in m && root != elm
    ensures var m0 := m[elm := k]; var m1 := m0[elm := m0[elm].(right := m[root].right)];
      var m2 := m1[elm := m1[elm].(left := root)]; var m3 := m2[root := m2[root].(right := null)];
      TreeIn(m3, Node(Node(t.left, t.node, Leaf), elm, t.right), elm)
  {
    TreeParts(t);
    var e := Links(root, m[root].right);
    TreeKept(m, elm, e, t.left, m[root].left);
    TreeKept(m, elm, e, t.right, m[root].right);
    var m2 := m[elm := e];
    var r := m[root].(right := null);
    TreeKept(m2, root, r, t.left, m[root].left);
    TreeKept(m2, root, r, t.right, m[root].right);
    var m3 := m2[root := r];
    assert TreeIn(m3, Node(t.left, t.node, Leaf), root);
    assert m[elm := k][elm := m[elm := k][elm].(right := m[root].right)] == m[elm := Links(k.left, m[root].right)];
    assert m[elm := Links(k.left, m[root].right)][elm := e] == m2;
  }

  // ----- removal -----

  ghost function NodeSet<K>(t: Tree<SplayNode<K>>): set<SplayNode<K>> {
    set n | n in Inorder(t)
  }

  /** Exactly the node with the key is gone. */
  ghost predicate RemovedKey<K>(cmp: (K, K) -> int, s: seq<SplayNode<K>>, key: K, s': seq<SplayNode<K>>) {
    exists x :: x in s && cmp(key, x.key) == 0 && OneRemoved(s, x, s')
  }

  lemma JoinedDistinct<T>(a: seq<T>, b: seq<T>)
    requires Distinct(a) && Distinct(b) && Separate(a, b)
    ensures Distinct(a + b)
  {
    assert forall i :: 0 <= i < |a| ==> a[i] in a;
    assert forall i :: 0 <= i < |b| ==> b[i] in b;
  }

  lemma MiddleRemoved<K(!new)>(cmp: (K, K) -> int, a: seq<SplayNode<K>>, x: SplayNode<K>, b: seq<SplayNode<K>>, key: K)
    requires cmp(key, x.key) == 0
    ensures RemovedKey(cmp, a + [x] + b, key, a + b)
  {
    var s := a + [x] + b;
    assert s[|a|] == x && a + b == RemovedAt(s, |a|);
    assert OneRemoved(s, x, a + b);
  }

  lemma RootRemoved<K(!new)>(cmp: (K, K) -> int, t: Tree<SplayNode<K>>, key: K)
    requires Rb.TotalOrder(cmp) && AtRoot(cmp, t, key) && cmp(key, t.node.key) == 0 && Sorted(cmp, Inorder(t)) && Distinct(Inorder(t))
    ensures var a, b := Inorder(t.left), Inorder(t.right);
      && RemovedKey(cmp, Inorder(t), key, a + b) && Sorted(cmp, a + b) && Distinct(a + b) && Separate(a, b)
      && Sorted(cmp, a) && Sorted(cmp, b) && Distinct(a) && Distinct(b) && AllBelow(cmp, a, key)
      && (t.left.Leaf? ==> a + b == b)
  {
    hide Sorted, Distinct, Separate, RemovedKey, AllBelow, AllAbove, Rb.TotalOrder;
    var a, b := Inorder(t.left), Inorder(t.right);
    SortedParts(cmp, a, t.node, b, key);
    TreeParts(t);
    JoinedDistinct(a, b);
    MiddleRemoved(cmp, a, t.node, b, key);
    assert t.left.Leaf? ==> a + b == b;
  }

  /** The subtrees of the root, each in the picture of its own nodes. */
  lemma RootLinks<K>(nodes: set<SplayNode<K>>, t: Tree<SplayNode<K>>, root: SplayNode?<K>)
    requires TreeIn(Picture(nodes), t, root) && t.Node? && Distinct(Inorder(t)) && forall n :: n in Inorder(t) ==> n in nodes
    ensures root != null && root in nodes && (root.left == null <==> t.left.Leaf?)
    ensures NodeSet(t.left) <= nodes && NodeSet(t.right) <= nodes && NodeSet(t.left) !! NodeSet(t.right)
    ensures TreeIn(Picture(NodeSet(t.left)), t.left, root.left) && TreeIn(Picture(NodeSet(t.right)), t.right, root.right)
  {
    TreeParts(t);
    hide Distinct, Inorder;
    assert Picture(nodes)[root].left == root.left && Picture(nodes)[root].right == root.right;
    SubtreeLinks(nodes, t.left, root.left);
    SubtreeLinks(nodes, t.right, root.right);
  }

  lemma SubtreeLinks<K>(nodes: set<SplayNode<K>>, t: Tree<SplayNode<K>>, p: SplayNode?<K>)
    requires TreeIn(Picture(nodes), t, p) && forall n :: n in Inorder(t) ==> n in nodes
    ensures NodeSet(t) <= nodes && TreeIn(Picture(NodeSet(t)), t, p)
  {
    Forget(Picture(nodes), NodeSet(t), t, p);
    assert Restricted(Picture(nodes), NodeSet(t)) == Picture(NodeSet(t));
  }

  lemma GreatestRoot<K(!new)>(cmp: (K, K) -> int, t: Tree<SplayNode<K>>, key: K)
    requires Rb.TotalOrder(cmp) && AtRoot(cmp, t, key) && AllBelow(cmp, Inorder(t), key)
    ensures t.right.Leaf?
  {
    if t.right.Node? {
      RightNode(t);
      assert false;
    }
  }

  lemma RightNode<K>(t: Tree<SplayNode<K>>)
    requires t.Node? && t.right.Node?
    ensures exists i, j :: 0 <= i < |Inorder(t.right)| && 0 <= j < |Inorder(t)| && Inorder(t.right)[i] == t.right.node == Inorder(t)[j]
  {
    var a, b := Inorder(t.left), Inorder(t.right);
    var i := |Inorder(t.right.left)|;
    assert b[i] == t.right.node && Inorder(t)[|a| + 1 + i] == b[i];
  }

  lemma {:induction false} Wider<K>(m: Store<K>, m': Store<K>, t: Tree<SplayNode<K>>, p: SplayNode?<K>)
    requires TreeIn(m, t, p) && forall n :: n in m ==> n in m' && m'[n] == m[n]
    ensures TreeIn(m', t, p)
  {
    if t.Node? {
      Wider(m, m', t.left, m[t.node].left);
      Wider(m, m', t.right, m[t.node].right);
    }
  }

  lemma Attached<K>(m: Store<K>, mr: Store<K>, all: Store<K>, l: Tree<SplayNode<K>>, r: Tree<SplayNode<K>>, root: SplayNode<K>, tmp: SplayNode?<K>)
    requires TreeIn(m, l, root) && l.Node? && l.right.Leaf? && TreeIn(mr, r, tmp)
    requires Distinct(Inorder(l) + Inorder(r))
    requires (forall n :: n in m ==> n in all && all[n] == m[n]) && forall n :: n in mr ==> n in all && all[n] == mr[n]
    ensures root in all && TreeIn(all[root := all[root].(right := tmp)], Node(l.left, l.node, r), root)
    ensures Inorder(Node(l.left, l.node, r)) == Inorder(l) + Inorder(r)
  {
    SplitDistinct(Inorder(l), Inorder(r));
    TreeParts(l);
    assert Inorder(l.left) + [l.node] + [] == Inorder(l.left) + [l.node];
    Wider(m, all, l, root);
    Wider(mr, all, r, tmp);
    var k := all[root].(right := tmp);
    TreeKept(all, root, k, l.left, all[root].left);
    TreeKept(all, root, k, r, tmp);
  }

  lemma AttachedNodes<K>(l: Tree<SplayNode<K>>, r: Tree<SplayNode<K>>)
    ensures forall n :: n in Inorder(l) + Inorder(r) ==> n in Inorder(l) || n in NodeSet(r)
  {
  }

  // ----- a client -----

  lemma TwoInOrder<K(!new)>(cmp: (K, K) -> int, a: SplayNode<K>, b: SplayNode<K>, one: SplayNode<K>, two: SplayNode<K>, s: seq<SplayNode<K>>)
    requires Rb.TotalOrder(cmp) && cmp(a.key, b.key) < 0 && {one, two} == {a, b}
    requires Sorted(cmp, s) && OneInserted([one], two, s)
    ensures s == [a, b]
  {
    var k: nat :| k <= 1 && s == InsertedAt([one], k, two);
    assert s == [one, two] || s == [two, one];
    assert a != b;
    assert cmp(s[0].key, s[1].key) < 0;
  }

  lemma FirstRemoved<K(!new)>(cmp: (K, K) -> int, a: SplayNode<K>, b: SplayNode<K>, s: seq<SplayNode<K>>)
    requires Rb.TotalOrder(cmp) && cmp(a.key, b.key) < 0 && RemovedKey(cmp, [a, b], a.key, s)
    ensures s == [b]
  {
    var x :| x in [a, b] && cmp(a.key, x.key) == 0 && OneRemoved([a, b], x, s);
    assert x == a;
    assert a != b;
  }

  lemma First<K>(s: seq<SplayNode<K>>, a: SplayNode<K>)
    requires OneInserted([], a, s)
    ensures s == [a]
  {
  }

  /** Two nodes come in, one goes and comes back, and is reported when it comes in again. */
  method ComeAndGo<K(!new)>(cmp: (K, K) -> int, a: K, b: K) returns (head: SplayHead<K>)
    requires Rb.TotalOrder(cmp) && cmp(a, b) < 0
    ensures fresh(head) && fresh(head.nodes) && head.Valid() && |head.Order()| == 2 && head.Order()[0].key == a && head.Order()[1].key == b
  {
    hide Rb.TotalOrder, Covered, OneInserted, RemovedKey, TreeIn, Distinct, Sorted;
    head := new SplayHead(cmp);
    var x := new SplayNode(a);
    var y := new SplayNode(b);
    var r := head.Insert(y);
    First(head.Order(), y);
    r := head.Insert(x);
    TwoInOrder(cmp, x, y, y, x, head.Order());
    Beside(cmp, a, b, a);
    assert x == [x, y][0];
    r := head.Remove(x);
    FirstRemoved(cmp, x, y, head.Order());
    r := head.Insert(x);
    TwoInOrder(cmp, x, y, y, x, head.Order());
    r := head.Insert(x);
    assert r == x;
  }
}
