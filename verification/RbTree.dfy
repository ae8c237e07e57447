/** The intrusive red-black tree: nodes with child and parent pointers, relinked in place. */
module RbTree {
  import opened Basics
  import opened RbShape
  import opened RbLinks

  class RbHead<K(!new), V> {
    const cmp: (K, K) -> int
    var root: RbNode?<K, V>
    ghost var shape: Shape<RbNode<K, V>>

    ghost predicate Valid()
      reads this, Nodes(shape)
    {
      TotalOrder(cmp) && Linked(Top, shape) && RedBlack(shape) && Sorted(cmp, Inorder(shape))
    }

    /** The nodes of the tree in ascending order. */
    ghost function Order(): seq<RbNode<K, V>>
      reads this`shape
    {
      Inorder(shape)
    }

    constructor (cmp: (K, K) -> int)
      requires TotalOrder(cmp)
      ensures Valid() && Order() == [] && Nodes(shape) == {} && this.cmp == cmp
    {
      this.cmp, root, shape := cmp, null, Leaf;
    }

    /** The tree is linked as path `p` and subtree `t` say. */
    ghost predicate Linked(p: Path<RbNode<K, V>>, t: Shape<RbNode<K, V>>)
      reads this`root, PathNodes(p), Nodes(t)
    {
      && root == RootRef(p, Ref(t)) && Apart(p, t)
      && var m := Picture(PathNodes(p) + Nodes(t));
      && TreeIn(m, t, Up(p)) && PathIn(m, p, Ref(t))
    }

    /** A step that writes to no node of the tree leaves the tree as it is. */
    twostate lemma Untouched()
      requires old(Valid()) && unchanged(this) && Picture(Nodes(shape)) == old(Picture(Nodes(shape)))
      ensures Valid()
    {
      assert PathNodes<RbNode<K, V>>(Top) + Nodes(shape) == Nodes(shape);
    }

    /** RB_ROTATE_LEFT, told by the links it changes. */
    method RotateLeftLinks(elm: RbNode<K, V>, ghost all: set<RbNode<K, V>>) returns (tmp: RbNode<K, V>)
      requires elm in all && elm.right != null && elm.right in all && elm.right != elm
      requires var b := elm.right.left; b != null ==> b in all && b != elm && b != elm.right
      requires var q := elm.parent; q != null ==> q in all && q != elm && q != elm.right && q != elm.right.left
      modifies this, all
      ensures tmp == old(elm.right)
      ensures root == if old(elm.parent) == null then tmp else old(root)
      ensures var m, m', b, q := old(Picture(all)), Picture(all), old(elm.right.left), old(elm.parent);
        && OnlyChanged(m, m', {elm, tmp, b, q})
        && m'[elm] == m[elm].(right := b, parent := tmp)
        && m'[tmp] == m[tmp].(left := elm, parent := q)
        && (b != null ==> m'[b] == m[b].(parent := elm))
        && (q != null ==> m'[q] == if m[q].left == elm then m[q].(left := tmp) else m[q].(right := tmp))
    {
      tmp := elm.right;
      elm.right := tmp.left;
      if elm.right != null {
        tmp.left.parent := elm;
      }
      tmp.parent := elm.parent;
      if tmp.parent != null {
        if elm == elm.parent.left {
          elm.parent.left := tmp;
        } else {
          elm.parent.right := tmp;
        }
      } else {
        root := tmp;
      }
      tmp.left := elm;
      elm.parent := tmp;
    }

    method RotateLeft(elm: RbNode<K, V>, ghost p: Path<RbNode<K, V>>, ghost t: Shape<RbNode<K, V>>)
      returns (ghost t': Shape<RbNode<K, V>>)
      requires t.Node? && t.right.Node? && t.node == elm
      requires Linked(p, t)
      modifies this, PathNodes(p), Nodes(t)
      ensures t' == RotL(t) && Linked(p, t')
      ensures Inorder(t') == Inorder(t) && Nodes(t') == Nodes(t)
    {
      ghost var r := t.right;
      t' := RotL(t);
      RotLInorder(t);
      ghost var all := PathNodes(p) + Nodes(t);
      ghost var m := Picture(all);
      RightChild(m, t, Up(p));
      PathEnd(m, p, t);
      LeftRotatedNodes(t, t');
      var tmp := RotateLeftLinks(elm, all);
      ghost var m' := Picture(all);
      assert TreeIn(m', t', Up(p)) by { LeftRotatedTree(m, m', t, Up(p)); }
      assert PathIn(m', p, tmp) by {
        PathRelinked(m, m', p, t, tmp, {elm, tmp} + (if r.left.Node? then {r.left.node} else {}));
      }
    }

    /** RB_ROTATE_RIGHT, told by the links it changes. */
    method RotateRightLinks(elm: RbNode<K, V>, ghost all: set<RbNode<K, V>>) returns (tmp: RbNode<K, V>)
      requires elm in all && elm.left != null && elm.left in all && elm.left != elm
      requires var b := elm.left.right; b != null ==> b in all && b != elm && b != elm.left
      requires var q := elm.parent; q != null ==> q in all && q != elm && q != elm.left && q != elm.left.right
      modifies this, all
      ensures tmp == old(elm.left)
      ensures root == if old(elm.parent) == null then tmp else old(root)
      ensures var m, m', b, q := old(Picture(all)), Picture(all), old(elm.left.right), old(elm.parent);
        && OnlyChanged(m, m', {elm, tmp, b, q})
        && m'[elm] == m[elm].(left := b, parent := tmp)
        && m'[tmp] == m[tmp].(right := elm, parent := q)
        && (b != null ==> m'[b] == m[b].(parent := elm))
        && (q != null ==> m'[q] == if m[q].left == elm then m[q].(left := tmp) else m[q].(right := tmp))
    {
      tmp := elm.left;
      elm.left := tmp.right;
      if elm.left != null {
        tmp.right.parent := elm;
      }
      tmp.parent := elm.parent;
      if tmp.parent != null {
        if elm == elm.parent.left {
          elm.parent.left := tmp;
        } else {
          elm.parent.right := tmp;
        }
      } else {
        root := tmp;
      }
      tmp.right := elm;
      elm.parent := tmp;
    }

    method RotateRight(elm: RbNode<K, V>, ghost p: Path<RbNode<K, V>>, ghost t: Shape<RbNode<K, V>>)
      returns (ghost t': Shape<RbNode<K, V>>)
      requires t.Node? && t.left.Node? && t.node == elm
      requires Linked(p, t)
      modifies this, PathNodes(p), Nodes(t)
      ensures t' == RotR(t) && Linked(p, t')
      ensures Inorder(t') == Inorder(t) && Nodes(t') == Nodes(t)
    {
      ghost var r := t.left;
      t' := RotR(t);
      RotRInorder(t);
      ghost var all := PathNodes(p) + Nodes(t);
      ghost var m := Picture(all);
      LeftChild(m, t, Up(p));
      PathEnd(m, p, t);
      RightRotatedNodes(t, t');
      var tmp := RotateRightLinks(elm, all);
      ghost var m' := Picture(all);
      assert TreeIn(m', t', Up(p)) by { RightRotatedTree(m, m', t, Up(p)); }
      assert PathIn(m', p, tmp) by {
        PathRelinked(m, m', p, t, tmp, {elm, tmp} + (if r.right.Node? then {r.right.node} else {}));
      }
    }

    // ----- moving the focus -----

    lemma ZoomOut(p: Path<RbNode<K, V>>, t: Shape<RbNode<K, V>>)
      requires Linked(p, t) && !p.Top?
      ensures Linked(p.up, Grow(p, t))
    {
      var all := PathNodes(p) + Nodes(t);
      assert all == PathNodes(p.up) + Nodes(Grow(p, t));
    }

    lemma ZoomLeft(p: Path<RbNode<K, V>>, t: Shape<RbNode<K, V>>)
      requires Linked(p, t) && t.Node?
      ensures Linked(LeftOf(t.color, t.node, t.right, p), t.left)
    {
      var p' := LeftOf(t.color, t.node, t.right, p);
      assert PathNodes(p') + Nodes(t.left) == PathNodes(p) + Nodes(t);
    }

    lemma ZoomRight(p: Path<RbNode<K, V>>, t: Shape<RbNode<K, V>>)
      requires Linked(p, t) && t.Node?
      ensures Linked(RightOf(t.color, t.node, t.left, p), t.right)
    {
      var p' := RightOf(t.color, t.node, t.left, p);
      assert PathNodes(p') + Nodes(t.right) == PathNodes(p) + Nodes(t);
    }

    lemma Fields(p: Path<RbNode<K, V>>, t: Shape<RbNode<K, V>>)
      requires Linked(p, t)
      ensures t.Node? ==>
        && t.node.color == t.color && t.node.parent == Up(p)
        && t.node.left == Ref(t.left) && t.node.right == Ref(t.right)
        && (t.left.Node? && t.right.Node? ==> t.left.node != t.right.node)
      ensures !p.Top? ==>
        && p.node.color == p.color && p.node.parent == Up(p.up)
        && p.node.left == (if p.LeftOf? then Ref(t) else Ref(p.sibling))
        && p.node.right == (if p.LeftOf? then Ref(p.sibling) else Ref(t))
        && (t.Node? && p.sibling.Node? ==> t.node != p.sibling.node)
    {
      if t.Node? {
        assert t.node in Nodes(t);
        assert t.left.Node? ==> t.left.node in Nodes(t.left);
        assert t.right.Node? ==> t.right.node in Nodes(t.right);
      }
      if !p.Top? && p.sibling.Node? {
        assert p.sibling.node in Nodes(p.sibling);
      }
    }

    method SetColor(n: RbNode<K, V>, c: Color, ghost p: Path<RbNode<K, V>>, ghost t: Shape<RbNode<K, V>>)
      requires Linked(p, t) && t.Node? && t.node == n
      modifies n`color
      ensures n.color == c && Linked(p, t.(color := c))
    {
      ghost var all := PathNodes(p) + Nodes(t);
      ghost var m := Picture(all);
      n.color := c;
      ghost var m' := Picture(all);
      TreeKept(m, m', t.left, t.node);
      TreeKept(m, m', t.right, t.node);
      PathKept(m, m', p, n);
    }

    // ----- RB_INSERT_COLOR -----

    lemma FamilyFields(p: Path<RbNode<K, V>>, t: Shape<RbNode<K, V>>)
      requires Linked(p, t) && !p.Top? && !p.up.Top?
      ensures Linked(p.up.up, Grow(p.up, Grow(p, t)))
      ensures p.node.parent == p.up.node
      ensures var s := p.up.sibling;
        && p.up.node.left == (if p.up.LeftOf? then p.node else Ref(s))
        && p.up.node.right == (if p.up.LeftOf? then Ref(s) else p.node)
        && (s.Node? ==> s.node.color == s.color && s.node != p.node)
    {
      ZoomOut(p, t);
      var l := Grow(p, t);
      Fields(p, t);
      Fields(p.up, l);
      ZoomOut(p.up, l);
      var g := Grow(p.up, l);
      if p.up.LeftOf? {
        ZoomRight(p.up.up, g);
        Fields(RightOf(g.color, g.node, g.left, p.up.up), g.right);
      } else {
        ZoomLeft(p.up.up, g);
        Fields(LeftOf(g.color, g.node, g.right, p.up.up), g.left);
      }
    }

    /** Red uncle: both children of the grandparent turn black and it turns red. */
    method RecolorFamily(gparent: RbNode<K, V>, ghost p: Path<RbNode<K, V>>, ghost g: Shape<RbNode<K, V>>)
      returns (ghost g': Shape<RbNode<K, V>>)
      requires Linked(p, g) && g.Node? && g.node == gparent && g.left.Node? && g.right.Node?
      modifies set n | n in Nodes(g) :: n`color
      ensures g' == Node(Red, g.left.(color := Black), gparent, g.right.(color := Black))
      ensures Linked(p, g')
    {
      Fields(p, g);
      ZoomLeft(p, g);
      SetColor(gparent.left, Black, LeftOf(g.color, gparent, g.right, p), g.left);
      ghost var g1 := g.(left := g.left.(color := Black));
      ZoomOut(LeftOf(g.color, gparent, g.right, p), g1.left);
      ZoomRight(p, g1);
      SetColor(gparent.right, Black, RightOf(g.color, gparent, g1.left, p), g.right);
      ghost var g2 := g1.(right := g.right.(color := Black));
      ZoomOut(RightOf(g.color, gparent, g1.left, p), g2.right);
      SetColor(gparent, Red, p, g2);
      g' := g2.(color := Red);
    }

    method InsertRecolor(gparent: RbNode<K, V>, ghost p: Path<RbNode<K, V>>, ghost t: Shape<RbNode<K, V>>)
      returns (elm: RbNode<K, V>, ghost p': Path<RbNode<K, V>>, ghost t': Shape<RbNode<K, V>>)
      requires Linked(p, t) && RedFocus(p, t) && PathRed(p) && p.up.node == gparent && IsRed(p.up.sibling)
      modifies this, PathNodes(p), Nodes(t)
      ensures Linked(p', t') && RedFocus(p', t') && t'.node == elm && Depth(p') < Depth(p)
      ensures Whole(p', t') == Whole(p, t) && PathNodes(p') + Nodes(t') == PathNodes(p) + Nodes(t)
    {
      FamilyFields(p, t);
      InsertRecolored(p, t);
      FamilyWhole(p, t);
      t' := RecolorFamily(gparent, p.up.up, Grow(p.up, Grow(p, t)));
      elm, p' := gparent, p.up.up;
    }

    /** No red uncle, parent a left child: at most one rotation at the parent and one at the grandparent. */
    method InsertRotateLeft(elm0: RbNode<K, V>, parent0: RbNode<K, V>, gparent: RbNode<K, V>,
                            ghost p: Path<RbNode<K, V>>, ghost t: Shape<RbNode<K, V>>)
      returns (elm: RbNode<K, V>, ghost p': Path<RbNode<K, V>>, ghost t': Shape<RbNode<K, V>>)
      requires Linked(p, t) && RedFocus(p, t) && t.node == elm0 && PathRed(p) && p.node == parent0
      requires p.up.LeftOf? && p.up.node == gparent && !IsRed(p.up.sibling)
      modifies this, PathNodes(p), Nodes(t)
      ensures Linked(p', t') && RedFocus(p', t') && t'.node == elm && Depth(p') < Depth(p)
      ensures Whole(p', t') == Whole(p, t) && PathNodes(p') + Nodes(t') == PathNodes(p) + Nodes(t)
    {
      elm := elm0;
      var parent := parent0;
      ghost var up, l := p.up.up, Grow(p, t);
      Fields(p, t);
      ZoomOut(p, t);
      Fields(p.up, l);
      if parent.right == elm {
        l := RotateLeft(parent, p.up, l);
        parent, elm := elm, parent;
      }
      SetColor(parent, Black, p.up, l);
      l := l.(color := Black);
      ZoomOut(p.up, l);
      ghost var g := Node(p.up.color, l, gparent, p.up.sibling);
      SetColor(gparent, Red, up, g);
      g := RotateRight(gparent, up, g.(color := Red));
      InsertTurnedLeft(p, t);
      InsertTurnedLeftNodes(p, t);
      ZoomLeft(up, g);
      p', t' := LeftOf(Black, g.node, g.right, up), g.left;
      FamilyWhole(p, t);
      GrowWhole(p', t');
    }

    method InsertRotateRight(elm0: RbNode<K, V>, parent0: RbNode<K, V>, gparent: RbNode<K, V>,
                             ghost p: Path<RbNode<K, V>>, ghost t: Shape<RbNode<K, V>>)
      returns (elm: RbNode<K, V>, ghost p': Path<RbNode<K, V>>, ghost t': Shape<RbNode<K, V>>)
      requires Linked(p, t) && RedFocus(p, t) && t.node == elm0 && PathRed(p) && p.node == parent0
      requires p.up.RightOf? && p.up.node == gparent && !IsRed(p.up.sibling)
      modifies this, PathNodes(p), Nodes(t)
      ensures Linked(p', t') && RedFocus(p', t') && t'.node == elm && Depth(p') < Depth(p)
      ensures Whole(p', t') == Whole(p, t) && PathNodes(p') + Nodes(t') == PathNodes(p) + Nodes(t)
    {
      elm := elm0;
      var parent := parent0;
      ghost var up, r := p.up.up, Grow(p, t);
      Fields(p, t);
      ZoomOut(p, t);
      Fields(p.up, r);
      if parent.left == elm {
        r := RotateRight(parent, p.up, r);
        parent, elm := elm, parent;
      }
      SetColor(parent, Black, p.up, r);
      r := r.(color := Black);
      ZoomOut(p.up, r);
      ghost var g := Node(p.up.color, p.up.sibling, gparent, r);
      SetColor(gparent, Red, up, g);
      g := RotateLeft(gparent, up, g.(color := Red));
      InsertTurnedRight(p, t);
      InsertTurnedRightNodes(p, t);
      ZoomRight(up, g);
      p', t' := RightOf(Black, g.node, g.left, up), g.right;
      FamilyWhole(p, t);
      GrowWhole(p', t');
    }

    /** RB_INSERT_COLOR: from a freshly linked red node to a red-black tree. */
    method InsertColor(elm0: RbNode<K, V>, ghost p0: Path<RbNode<K, V>>, ghost t0: Shape<RbNode<K, V>>)
      returns (ghost whole: Shape<RbNode<K, V>>)
      requires Linked(p0, t0) && RedFocus(p0, t0) && t0.node == elm0
      modifies this, PathNodes(p0), Nodes(t0)
      ensures Linked(Top, whole) && RedBlack(whole)
      ensures Inorder(whole) == Whole(p0, t0) && Nodes(whole) == PathNodes(p0) + Nodes(t0)
    {
      var elm := elm0;
      ghost var p, t := p0, t0;
      ghost var all := PathNodes(p0) + Nodes(t0);
      Fields(p, t);
      while elm.parent != null && elm.parent.color == Red
        invariant Linked(p, t) && RedFocus(p, t) && t.node == elm
        invariant Whole(p, t) == Whole(p0, t0) && PathNodes(p) + Nodes(t) == all
        invariant elm.parent == Up(p) && (!p.Top? ==> p.node.color == p.color)
        decreases Depth(p)
      {
        var parent := elm.parent;
        RedFamily(p, t);
        FamilyFields(p, t);
        var gparent := parent.parent;
        var tmp := if parent == gparent.left then gparent.right else gparent.left;
        assert p.up.LeftOf? <==> parent == gparent.left;
        assert tmp == Ref(p.up.sibling);
        assert IsRed(p.up.sibling) <==> tmp != null && tmp.color == Red;
        if tmp != null && tmp.color == Red {
          elm, p, t := InsertRecolor(gparent, p, t);
        } else if parent == gparent.left {
          elm, p, t := InsertRotateLeft(elm, parent, gparent, p, t);
        } else {
          elm, p, t := InsertRotateRight(elm, parent, gparent, p, t);
        }
        Fields(p, t);
      }
      whole := BlackenRoot(p, t);
    }

    method BlackenRoot(ghost p: Path<RbNode<K, V>>, ghost t: Shape<RbNode<K, V>>) returns (ghost whole: Shape<RbNode<K, V>>)
      requires Linked(p, t) && RedFocus(p, t) && !PathRed(p)
      modifies PathNodes(p), Nodes(t)
      ensures Linked(Top, whole) && RedBlack(whole) && Inorder(whole) == Whole(p, t) && Nodes(whole) == PathNodes(p) + Nodes(t)
    {
      PlugLinked(p, t);
      PlugInorder(p, t);
      PlugNodes(p, t);
      whole := Plug(p, t);
      if !p.Top? {
        PlugRedBlack(p, t);
      }
      Fields(Top, whole);
      SetColor(root, Black, Top, whole);
      whole := whole.(color := Black);
    }

    lemma PlugLinked(p: Path<RbNode<K, V>>, t: Shape<RbNode<K, V>>)
      ensures Linked(Top, Plug(p, t)) <==> Linked(p, t)
    {
      PlugNodes(p, t);
      PlugDistinct(p, t);
      PlugIn(Picture(PathNodes(p) + Nodes(t)), p, t);
      assert PathNodes<RbNode<K, V>>(Top) + Nodes(Plug(p, t)) == PathNodes(p) + Nodes(t);
    }

    // ----- RB_INSERT -----

    /** RB_SET and the link from the parent, told by the links it changes. */
    method LinkLeafLinks(elm: RbNode<K, V>, parent: RbNode?<K, V>, comp: int, ghost all: set<RbNode<K, V>>)
      requires elm in all && parent != elm && (parent != null ==> parent in all)
      modifies this, all
      ensures root == if parent == null then elm else old(root)
      ensures var m, m' := old(Picture(all)), Picture(all);
        && OnlyChanged(m, m', {elm, parent}) && m'[elm] == Links(Red, parent, null, null)
        && (parent != null ==> m'[parent] == if comp < 0 then m[parent].(left := elm) else m[parent].(right := elm))
    {
      elm.parent := parent;
      elm.left, elm.right := null, null;
      elm.color := Red;
      if parent != null {
        if comp < 0 {
          parent.left := elm;
        } else {
          parent.right := elm;
        }
      } else {
        root := elm;
      }
    }

    /** A red leaf at an empty position. */
    method LinkLeaf(elm: RbNode<K, V>, parent: RbNode?<K, V>, comp: int, ghost p: Path<RbNode<K, V>>)
      requires Linked(p, Leaf) && parent == Up(p) && elm !in PathNodes(p)
      requires !p.Top? ==> (comp < 0 <==> p.LeftOf?)
      modifies this, elm, PathNodes(p)
      ensures Linked(p, Node(Red, Leaf, elm, Leaf))
    {
      ghost var all := PathNodes(p) + {elm};
      ghost var m := Picture(all);
      assert PathNodes(p) + Nodes<RbNode<K, V>>(Leaf) == PathNodes(p);
      PathKept(Picture(PathNodes(p)), m, p, null);
      LinkLeafLinks(elm, parent, comp, all);
      PathRedirected(m, Picture(all), p, null, elm);
      assert Nodes(Node(Red, Leaf, elm, Leaf)) == {elm};
    }

    /** The search loop of RB_INSERT and RB_FIND: where `key` is, or the empty position where it belongs. */
    method Descend(key: K)
      returns (found: RbNode?<K, V>, parent: RbNode?<K, V>, comp: int, ghost p: Path<RbNode<K, V>>, ghost t: Shape<RbNode<K, V>>)
      requires Valid()
      ensures Valid() && Linked(p, t) && Plug(p, t) == shape && parent == Up(p) && Whole(p, t) == Order()
      ensures found == Ref(t) && (found != null ==> cmp(key, found.key) == 0)
      ensures Between(cmp, Before(p), key, After(p))
      ensures !p.Top? && found == null ==> (comp < 0 <==> p.LeftOf?)
    {
      var tmp := root;
      parent, comp := null, 0;
      p, t := Top, shape;
      while tmp != null
        invariant Valid() && Linked(p, t) && tmp == Ref(t) && parent == Up(p) && Plug(p, t) == shape
        invariant Whole(p, t) == Order() && Between(cmp, Before(p), key, After(p))
        invariant !p.Top? ==> (comp < 0 <==> p.LeftOf?)
        decreases t
      {
        comp := cmp(key, tmp.key);
        BetweenStep(cmp, p, t, key);
        Fields(p, t);
        if comp < 0 {
          ZoomLeft(p, t);
          parent, tmp := tmp, tmp.left;
          p, t := LeftOf(t.color, t.node, t.right, p), t.left;
          GrowWhole(p, t);
        } else if comp > 0 {
          ZoomRight(p, t);
          parent, tmp := tmp, tmp.right;
          p, t := RightOf(t.color, t.node, t.left, p), t.right;
          GrowWhole(p, t);
        } else {
          return tmp, parent, comp, p, t;
        }
      }
      found := null;
    }

    method Insert(elm: RbNode<K, V>) returns (existing: RbNode?<K, V>)
      requires Valid()
      modifies this, elm, Nodes(shape)
      ensures Valid()
      ensures elm in old(Nodes(shape)) ==> existing == elm
      ensures existing != null ==>
        && existing in old(Order()) && cmp(elm.key, existing.key) == 0
        && shape == old(shape) && root == old(root) && unchanged(elm)
      ensures existing == null ==>
        && (forall n :: n in old(Order()) ==> cmp(elm.key, n.key) != 0)
        && OneInserted(old(Order()), elm, Order()) && Nodes(shape) == old(Nodes(shape)) + {elm}
    {
      ghost var p, t;
      var parent, comp;
      existing, parent, comp, p, t := Descend(elm.key);
      PlugNodes(p, t);
      InorderNodes(shape);
      if existing != null {
        OneWithKey(cmp, Order(), elm, existing);
        return;
      }
      NothingEqual(cmp, p, elm.key);
      OneWithKey(cmp, Order(), elm, elm);
      MiddleInserted(Before(p), elm, After(p));
      InsertLeaf(elm, parent, comp, p);
    }

    method InsertLeaf(elm: RbNode<K, V>, parent: RbNode?<K, V>, comp: int, ghost p: Path<RbNode<K, V>>)
      requires Valid() && Plug(p, Leaf) == shape && Linked(p, Leaf)
      requires parent == Up(p) && elm !in PathNodes(p) && Between(cmp, Before(p), elm.key, After(p))
      requires !p.Top? ==> (comp < 0 <==> p.LeftOf?)
      modifies this, elm, PathNodes(p)
      ensures Valid() && old(Order()) == Before(p) + After(p) && Order() == Before(p) + [elm] + After(p)
      ensures Nodes(shape) == PathNodes(p) + {elm}
    {
      hide TreeIn, PathIn, Apart, Between, Sorted, TotalOrder, RedBlack;
      LeafSlot(cmp, p, elm);
      LinkLeaf(elm, parent, comp, p);
      shape := InsertColor(elm, p, Node(Red, Leaf, elm, Leaf));
      assert Linked(Top, shape);
    }

    // ----- RB_REMOVE_COLOR -----

    lemma SiblingFields(p: Path<RbNode<K, V>>, t: Shape<RbNode<K, V>>)
      requires Linked(p, t) && !p.Top? && p.sibling.Node?
      ensures var s := p.sibling;
        && p.node.left == (if p.LeftOf? then Ref(t) else s.node)
        && p.node.right == (if p.LeftOf? then s.node else Ref(t))
        && (t.Node? ==> t.node != s.node)
        && s.node.color == s.color && s.node.left == Ref(s.left) && s.node.right == Ref(s.right)
        && (s.left.Node? ==> s.left.node.color == s.left.color)
        && (s.right.Node? ==> s.right.node.color == s.right.color)
      ensures Linked(p.up, Grow(p, t))
    {
      Fields(p, t);
      ZoomOut(p, t);
      var g, q := Grow(p, t), SiblingPath(p, t);
      if p.LeftOf? {
        ZoomRight(p.up, g);
      } else {
        ZoomLeft(p.up, g);
      }
      Fields(q, p.sibling);
      if p.sibling.left.Node? {
        ZoomLeft(q, p.sibling);
        Fields(LeftOf(p.sibling.color, p.sibling.node, p.sibling.right, q), p.sibling.left);
      }
      if p.sibling.right.Node? {
        ZoomRight(q, p.sibling);
        Fields(RightOf(p.sibling.color, p.sibling.node, p.sibling.left, q), p.sibling.right);
      }
    }

    /** Red sibling of a left deficit: it turns black, the parent red, and rotates above it. */
    method RedSiblingLeft(parent: RbNode<K, V>, tmp: RbNode<K, V>, ghost p: Path<RbNode<K, V>>, ghost t: Shape<RbNode<K, V>>)
      returns (ghost q: Path<RbNode<K, V>>)
      requires Linked(p, t) && Deficit(p, t) && !IsRed(t)
      requires p.LeftOf? && p.node == parent && IsRed(p.sibling) && p.sibling.node == tmp
      modifies this, PathNodes(p), Nodes(t)
      ensures Linked(q, t) && Deficit(q, t) && q.LeftOf? && q.node == parent && q.color == Red && !IsRed(q.sibling)
      ensures Depth(q) == Depth(p) + 1
      ensures Whole(q, t) == Whole(p, t) && PathNodes(q) + Nodes(t) == PathNodes(p) + Nodes(t)
    {
      GrowWhole(p, t);
      ZoomOut(p, t);
      ghost var g := Grow(p, t);
      ZoomRight(p.up, g);
      SetColor(tmp, Black, RightOf(p.color, parent, t, p.up), p.sibling);
      g := g.(right := g.right.(color := Black));
      ZoomOut(RightOf(p.color, parent, t, p.up), g.right);
      SetColor(parent, Red, p.up, g);
      g := RotateLeft(parent, p.up, g.(color := Red));
      ZoomLeft(p.up, g);
      q := RedSiblingPath(p);
      RedSibling(p, t);
      ZoomLeft(q.up, g.left);
      GrowWhole(q, t);
      GrowWhole(q.up, g.left);
    }

    method RedSiblingRight(parent: RbNode<K, V>, tmp: RbNode<K, V>, ghost p: Path<RbNode<K, V>>, ghost t: Shape<RbNode<K, V>>)
      returns (ghost q: Path<RbNode<K, V>>)
      requires Linked(p, t) && Deficit(p, t) && !IsRed(t)
      requires p.RightOf? && p.node == parent && IsRed(p.sibling) && p.sibling.node == tmp
      modifies this, PathNodes(p), Nodes(t)
      ensures Linked(q, t) && Deficit(q, t) && q.RightOf? && q.node == parent && q.color == Red && !IsRed(q.sibling)
      ensures Depth(q) == Depth(p) + 1
      ensures Whole(q, t) == Whole(p, t) && PathNodes(q) + Nodes(t) == PathNodes(p) + Nodes(t)
    {
      GrowWhole(p, t);
      ZoomOut(p, t);
      ghost var g := Grow(p, t);
      ZoomLeft(p.up, g);
      SetColor(tmp, Black, LeftOf(p.color, parent, t, p.up), p.sibling);
      g := g.(left := g.left.(color := Black));
      ZoomOut(LeftOf(p.color, parent, t, p.up), g.left);
      SetColor(parent, Red, p.up, g);
      g := RotateRight(parent, p.up, g.(color := Red));
      ZoomRight(p.up, g);
      q := RedSiblingPath(p);
      RedSibling(p, t);
      ZoomRight(q.up, g.right);
      GrowWhole(q, t);
      GrowWhole(q.up, g.right);
    }

    /** No red nephew: the sibling turns red and the deficit moves to the parent. */
    method PaintSibling(tmp: RbNode<K, V>, ghost p: Path<RbNode<K, V>>, ghost t: Shape<RbNode<K, V>>)
      returns (ghost g: Shape<RbNode<K, V>>)
      requires Linked(p, t) && Deficit(p, t) && !IsRed(t)
      requires !p.Top? && p.sibling.Node? && p.sibling.node == tmp && !IsRed(p.sibling) && !RedChild(p.sibling)
      modifies tmp`color
      ensures Linked(p.up, g) && Deficit(p.up, g) && g.Node? && g.node == p.node && g.color == p.color
      ensures Whole(p.up, g) == Whole(p, t) && PathNodes(p.up) + Nodes(g) == PathNodes(p) + Nodes(t)
    {
      GrowWhole(p, t);
      SiblingFields(p, t);
      ghost var q := SiblingPath(p, t);
      if p.LeftOf? {
        ZoomRight(p.up, Grow(p, t));
      } else {
        ZoomLeft(p.up, Grow(p, t));
      }
      SiblingPainted(p, t);
      SetColor(tmp, Red, q, p.sibling);
      ghost var s := p.sibling.(color := Red);
      ZoomOut(q, s);
      g := Grow(q, s);
      GrowWhole(q, s);
      assert Inorder(s) == Inorder(p.sibling) && Nodes(s) == Nodes(p.sibling);
    }

    /** The near nephew of a left deficit turns black and rises above its parent, which turns red. */
    method RaiseNearLeft(tmp: RbNode<K, V>, ghost q: Path<RbNode<K, V>>, ghost s: Shape<RbNode<K, V>>)
      returns (ghost s': Shape<RbNode<K, V>>)
      requires Linked(q, s) && s.Node? && s.node == tmp && s.left.Node?
      modifies this, PathNodes(q), Nodes(s)
      ensures s' == RotR(Node(Red, s.left.(color := Black), tmp, s.right)) && Linked(q, s')
    {
      Fields(q, s);
      ZoomLeft(q, s);
      var oleft := tmp.left;
      if oleft != null {
        SetColor(oleft, Black, LeftOf(s.color, tmp, s.right, q), s.left);
      }
      ghost var s1 := s.(left := s.left.(color := Black));
      ZoomOut(LeftOf(s.color, tmp, s.right, q), s1.left);
      SetColor(tmp, Red, q, s1);
      s' := RotateRight(tmp, q, s1.(color := Red));
    }

    method RaiseNearRight(tmp: RbNode<K, V>, ghost q: Path<RbNode<K, V>>, ghost s: Shape<RbNode<K, V>>)
      returns (ghost s': Shape<RbNode<K, V>>)
      requires Linked(q, s) && s.Node? && s.node == tmp && s.right.Node?
      modifies this, PathNodes(q), Nodes(s)
      ensures s' == RotL(Node(Red, s.left, tmp, s.right.(color := Black))) && Linked(q, s')
    {
      Fields(q, s);
      ZoomRight(q, s);
      var oright := tmp.right;
      if oright != null {
        SetColor(oright, Black, RightOf(s.color, tmp, s.left, q), s.right);
      }
      ghost var s1 := s.(right := s.right.(color := Black));
      ZoomOut(RightOf(s.color, tmp, s.left, q), s1.right);
      SetColor(tmp, Red, q, s1);
      s' := RotateLeft(tmp, q, s1.(color := Red));
    }

    /** The last rotation for a left deficit: the sibling takes the parent's colour, the parent
        and the far nephew turn black. */
    method PayLeft(parent: RbNode<K, V>, ghost p: Path<RbNode<K, V>>, ghost g: Shape<RbNode<K, V>>) returns (ghost g': Shape<RbNode<K, V>>)
      requires Linked(p, g) && g.Node? && g.node == parent && g.right.Node? && g.right.right.Node?
      modifies this, PathNodes(p), Nodes(g)
      ensures var s := g.right;
        g' == RotL(Node(Black, g.left, parent, Node(g.color, s.left, s.node, s.right.(color := Black))))
      ensures Linked(p, g')
    {
      Fields(p, g);
      ZoomRight(p, g);
      var tmp := parent.right;
      ghost var q, s := RightOf(g.color, parent, g.left, p), g.right;
      SetColor(tmp, parent.color, q, s);
      s := s.(color := g.color);
      ZoomOut(q, s);
      SetColor(parent, Black, p, g.(right := s));
      q := RightOf(Black, parent, g.left, p);
      ghost var g1 := Node(Black, g.left, parent, s);
      ZoomRight(p, g1);
      Fields(q, s);
      if tmp.right != null {
        ZoomRight(q, s);
        SetColor(tmp.right, Black, RightOf(s.color, tmp, s.left, q), s.right);
      }
      ghost var s1 := s.(right := s.right.(color := Black));
      ZoomOut(RightOf(s.color, tmp, s.left, q), s1.right);
      ZoomOut(q, s1);
      g' := RotateLeft(parent, p, g1.(right := s1));
    }

    method PayRight(parent: RbNode<K, V>, ghost p: Path<RbNode<K, V>>, ghost g: Shape<RbNode<K, V>>) returns (ghost g': Shape<RbNode<K, V>>)
      requires Linked(p, g) && g.Node? && g.node == parent && g.left.Node? && g.left.left.Node?
      modifies this, PathNodes(p), Nodes(g)
      ensures var s := g.left;
        g' == RotR(Node(Black, Node(g.color, s.left.(color := Black), s.node, s.right), parent, g.right))
      ensures Linked(p, g')
    {
      Fields(p, g);
      ZoomLeft(p, g);
      var tmp := parent.left;
      ghost var q, s := LeftOf(g.color, parent, g.right, p), g.left;
      SetColor(tmp, parent.color, q, s);
      s := s.(color := g.color);
      ZoomOut(q, s);
      SetColor(parent, Black, p, g.(left := s));
      q := LeftOf(Black, parent, g.right, p);
      ghost var g1 := Node(Black, s, parent, g.right);
      ZoomLeft(p, g1);
      Fields(q, s);
      if tmp.left != null {
        ZoomLeft(q, s);
        SetColor(tmp.left, Black, LeftOf(s.color, tmp, s.right, q), s.left);
      }
      ghost var s1 := s.(left := s.left.(color := Black));
      ZoomOut(LeftOf(s.color, tmp, s.right, q), s1.left);
      ZoomOut(q, s1);
      g' := RotateRight(parent, p, g1.(left := s1));
    }

    /** A red nephew of a left deficit ends the repair. */
    method FinishLeft(parent: RbNode<K, V>, tmp0: RbNode<K, V>, ghost p: Path<RbNode<K, V>>, ghost t: Shape<RbNode<K, V>>)
      returns (ghost g: Shape<RbNode<K, V>>)
      requires Linked(p, t) && p.LeftOf? && p.node == parent && RedChild(p.sibling) && p.sibling.node == tmp0
      modifies this, PathNodes(p), Nodes(t)
      ensures g == RemoveTurnLeft(p, t) && Linked(p.up, g)
    {
      SiblingFields(p, t);
      GrowWhole(p, t);
      g := Grow(p, t);
      if tmp0.right == null || tmp0.right.color == Black {
        ghost var q := SiblingPath(p, t);
        ZoomRight(p.up, g);
        ghost var s := RaiseNearLeft(tmp0, q, p.sibling);
        ZoomOut(q, s);
        g := g.(right := s);
      }
      g := PayLeft(parent, p.up, g);
    }

    method FinishRight(parent: RbNode<K, V>, tmp0: RbNode<K, V>, ghost p: Path<RbNode<K, V>>, ghost t: Shape<RbNode<K, V>>)
      returns (ghost g: Shape<RbNode<K, V>>)
      requires Linked(p, t) && p.RightOf? && p.node == parent && RedChild(p.sibling) && p.sibling.node == tmp0
      modifies this, PathNodes(p), Nodes(t)
      ensures g == RemoveTurnRight(p, t) && Linked(p.up, g)
    {
      SiblingFields(p, t);
      GrowWhole(p, t);
      g := Grow(p, t);
      if tmp0.left == null || tmp0.left.color == Black {
        ghost var q := SiblingPath(p, t);
        ZoomLeft(p.up, g);
        ghost var s := RaiseNearRight(tmp0, q, p.sibling);
        ZoomOut(q, s);
        g := g.(left := s);
      }
      g := PayRight(parent, p.up, g);
    }

    lemma RootOrPath(p: Path<RbNode<K, V>>, t: Shape<RbNode<K, V>>)
      requires Linked(p, t)
      ensures root == Ref(t) <==> p.Top?
    {
      if !p.Top? {
        RootRefInPath(p, Ref(t));
        assert t.Node? ==> t.node in Nodes(t);
      }
    }

    /** One round of the loop for a deficit on the left. */
    method RemoveStepLeft(parent0: RbNode<K, V>, ghost p0: Path<RbNode<K, V>>, ghost t0: Shape<RbNode<K, V>>)
      returns (elm: RbNode?<K, V>, parent: RbNode?<K, V>, ghost p: Path<RbNode<K, V>>, ghost t: Shape<RbNode<K, V>>)
      requires Linked(p0, t0) && p0.LeftOf? && p0.node == parent0 && Deficit(p0, t0) && !IsRed(t0)
      modifies this, PathNodes(p0), Nodes(t0)
      ensures Linked(p, t) && Deficit(p, t) && elm == Ref(t) && (!p.Top? ==> parent == Up(p))
      ensures Whole(p, t) == Whole(p0, t0) && PathNodes(p) + Nodes(t) == PathNodes(p0) + Nodes(t0)
      ensures RepairRank(p, t) < RepairRank(p0, t0)
    {
      RepairView(p0, t0);
      var tmp := parent0.right;
      if tmp.color == Red {
        ghost var q := RedSiblingLeft(parent0, tmp, p0, t0);
        RepairView(q, t0);
        elm, parent, p, t := RemoveStepLeftBlack(parent0, parent0.right, q, t0);
      } else {
        elm, parent, p, t := RemoveStepLeftBlack(parent0, tmp, p0, t0);
      }
    }

    /** The rest of the round, once the sibling is black. */
    method RemoveStepLeftBlack(parent0: RbNode<K, V>, tmp: RbNode<K, V>, ghost p0: Path<RbNode<K, V>>, ghost t0: Shape<RbNode<K, V>>)
      returns (elm: RbNode?<K, V>, parent: RbNode?<K, V>, ghost p: Path<RbNode<K, V>>, ghost t: Shape<RbNode<K, V>>)
      requires Linked(p0, t0) && p0.LeftOf? && p0.node == parent0 && Deficit(p0, t0) && !IsRed(t0)
      requires p0.sibling.Node? && p0.sibling.node == tmp && !IsRed(p0.sibling)
      modifies this, PathNodes(p0), Nodes(t0)
      ensures Linked(p, t) && Deficit(p, t) && elm == Ref(t) && (!p.Top? ==> parent == Up(p))
      ensures Whole(p, t) == Whole(p0, t0) && PathNodes(p) + Nodes(t) == PathNodes(p0) + Nodes(t0)
      ensures p.Top? || (p == p0.up && (IsRed(t) <==> p0.color == Red))
    {
      RepairView(p0, t0);
      if (tmp.left == null || tmp.left.color == Black) && (tmp.right == null || tmp.right.color == Black) {
        t := PaintSibling(tmp, p0, t0);
        p := p0.up;
        Fields(p, t);
        elm := parent0;
        parent := elm.parent;
      } else {
        t := FinishLeftWhole(parent0, tmp, p0, t0);
        p := Top;
        Fields(p, t);
        elm, parent := root, null;
      }
    }

    /** What the loop can tell from the fields around a deficit. */
    lemma RepairView(p: Path<RbNode<K, V>>, t: Shape<RbNode<K, V>>)
      requires Linked(p, t) && !p.Top? && Deficit(p, t)
      ensures p.sibling.Node?
      ensures p.sibling.node == if p.LeftOf? then p.node.right else p.node.left
      ensures p.LeftOf? <==> p.node.left == Ref(t)
      ensures var tmp := p.sibling.node;
        && (tmp.color == Red <==> IsRed(p.sibling))
        && (RedChild(p.sibling) <==> (tmp.left != null && tmp.left.color == Red) || (tmp.right != null && tmp.right.color == Red))
    {
      DeficitSibling(p, t);
      SiblingFields(p, t);
    }

    method FinishLeftWhole(parent: RbNode<K, V>, tmp: RbNode<K, V>, ghost p: Path<RbNode<K, V>>, ghost t: Shape<RbNode<K, V>>)
      returns (ghost whole: Shape<RbNode<K, V>>)
      requires Linked(p, t) && p.LeftOf? && p.node == parent && RedChild(p.sibling) && p.sibling.node == tmp
      requires Deficit(p, t) && !IsRed(t) && !IsRed(p.sibling)
      modifies this, PathNodes(p), Nodes(t)
      ensures Linked(Top, whole) && Deficit(Top, whole) && Whole(Top, whole) == Whole(p, t)
      ensures PathNodes<RbNode<K, V>>(Top) + Nodes(whole) == PathNodes(p) + Nodes(t)
    {
      RemoveTurnedLeft(p, t);
      RemoveTurnedLeftNodes(p, t);
      GrowWhole(p, t);
      ghost var g := FinishLeft(parent, tmp, p, t);
      Reassembled(p.up, g);
      PlugLinked(p.up, g);
      whole := Plug(p.up, g);
    }

    /** One round of the loop for a deficit on the right. */
    method RemoveStepRight(parent0: RbNode<K, V>, ghost p0: Path<RbNode<K, V>>, ghost t0: Shape<RbNode<K, V>>)
      returns (elm: RbNode?<K, V>, parent: RbNode?<K, V>, ghost p: Path<RbNode<K, V>>, ghost t: Shape<RbNode<K, V>>)
      requires Linked(p0, t0) && p0.RightOf? && p0.node == parent0 && Deficit(p0, t0) && !IsRed(t0)
      modifies this, PathNodes(p0), Nodes(t0)
      ensures Linked(p, t) && Deficit(p, t) && elm == Ref(t) && (!p.Top? ==> parent == Up(p))
      ensures Whole(p, t) == Whole(p0, t0) && PathNodes(p) + Nodes(t) == PathNodes(p0) + Nodes(t0)
      ensures RepairRank(p, t) < RepairRank(p0, t0)
    {
      RepairView(p0, t0);
      var tmp := parent0.left;
      if tmp.color == Red {
        ghost var q := RedSiblingRight(parent0, tmp, p0, t0);
        RepairView(q, t0);
        elm, parent, p, t := RemoveStepRightBlack(parent0, parent0.left, q, t0);
      } else {
        elm, parent, p, t := RemoveStepRightBlack(parent0, tmp, p0, t0);
      }
    }

    /** The rest of the round, once the sibling is black. */
    method RemoveStepRightBlack(parent0: RbNode<K, V>, tmp: RbNode<K, V>, ghost p0: Path<RbNode<K, V>>, ghost t0: Shape<RbNode<K, V>>)
      returns (elm: RbNode?<K, V>, parent: RbNode?<K, V>, ghost p: Path<RbNode<K, V>>, ghost t: Shape<RbNode<K, V>>)
      requires Linked(p0, t0) && p0.RightOf? && p0.node == parent0 && Deficit(p0, t0) && !IsRed(t0)
      requires p0.sibling.Node? && p0.sibling.node == tmp && !IsRed(p0.sibling)
      modifies this, PathNodes(p0), Nodes(t0)
      ensures Linked(p, t) && Deficit(p, t) && elm == Ref(t) && (!p.Top? ==> parent == Up(p))
      ensures Whole(p, t) == Whole(p0, t0) && PathNodes(p) + Nodes(t) == PathNodes(p0) + Nodes(t0)
      ensures p.Top? || (p == p0.up && (IsRed(t) <==> p0.color == Red))
    {
      RepairView(p0, t0);
      if (tmp.left == null || tmp.left.color == Black) && (tmp.right == null || tmp.right.color == Black) {
        t := PaintSibling(tmp, p0, t0);
        p := p0.up;
        Fields(p, t);
        elm := parent0;
        parent := elm.parent;
      } else {
        t := FinishRightWhole(parent0, tmp, p0, t0);
        p := Top;
        Fields(p, t);
        elm, parent := root, null;
      }
    }

    method FinishRightWhole(parent: RbNode<K, V>, tmp: RbNode<K, V>, ghost p: Path<RbNode<K, V>>, ghost t: Shape<RbNode<K, V>>)
      returns (ghost whole: Shape<RbNode<K, V>>)
      requires Linked(p, t) && p.RightOf? && p.node == parent && RedChild(p.sibling) && p.sibling.node == tmp
      requires Deficit(p, t) && !IsRed(t) && !IsRed(p.sibling)
      modifies this, PathNodes(p), Nodes(t)
      ensures Linked(Top, whole) && Deficit(Top, whole) && Whole(Top, whole) == Whole(p, t)
      ensures PathNodes<RbNode<K, V>>(Top) + Nodes(whole) == PathNodes(p) + Nodes(t)
    {
      RemoveTurnedRight(p, t);
      RemoveTurnedRightNodes(p, t);
      GrowWhole(p, t);
      ghost var g := FinishRight(parent, tmp, p, t);
      Reassembled(p.up, g);
      PlugLinked(p.up, g);
      whole := Plug(p.up, g);
    }

    /** RB_REMOVE_COLOR: from a tree that lacks one black node at the focus to a red-black tree. */
    method RemoveColor(parent0: RbNode?<K, V>, elm0: RbNode?<K, V>, ghost p0: Path<RbNode<K, V>>, ghost t0: Shape<RbNode<K, V>>)
      returns (ghost whole: Shape<RbNode<K, V>>)
      requires Linked(p0, t0) && Deficit(p0, t0) && elm0 == Ref(t0) && parent0 == Up(p0)
      modifies this, PathNodes(p0), Nodes(t0)
      ensures Linked(Top, whole) && RedBlack(whole) && Inorder(whole) == Whole(p0, t0)
      ensures Nodes(whole) == PathNodes(p0) + Nodes(t0)
    {
      hide Linked, Deficit, RedBlack;
      var elm, parent := elm0, parent0;
      ghost var p, t := p0, t0;
      ghost var all := PathNodes(p0) + Nodes(t0);
      Fields(p, t);
      RootOrPath(p, t);
      while (elm == null || elm.color == Black) && elm != root
        invariant Linked(p, t) && Deficit(p, t) && elm == Ref(t) && (!p.Top? ==> parent == Up(p))
        invariant Whole(p, t) == Whole(p0, t0) && PathNodes(p) + Nodes(t) == all
        invariant (t.Node? ==> elm.color == t.color) && (elm == root <==> p.Top?)
        decreases RepairRank(p, t)
      {
        RepairView(p, t);
        if parent.left == elm {
          elm, parent, p, t := RemoveStepLeft(parent, p, t);
        } else {
          elm, parent, p, t := RemoveStepRight(parent, p, t);
        }
        Fields(p, t);
        RootOrPath(p, t);
      }
      DeficitPaid(p, t);
      if elm != null {
        SetColor(elm, Black, p, t);
      }
      PlugLinked(p, Blacken(t));
      PlugNodes(p, Blacken(t));
      whole := Plug(p, Blacken(t));
    }

    // ----- RB_REMOVE -----

    /** The parent adopts the only child of `elm`, told by the links it changes. */
    method SpliceLinks(elm: RbNode<K, V>, child: RbNode?<K, V>, ghost all: set<RbNode<K, V>>)
      requires elm in all && child != elm && elm.parent != elm && (child != null ==> child in all && child != elm.parent)
      requires elm.parent != null ==> elm.parent in all
      modifies this, all - {elm}
      ensures root == if elm.parent == null then child else old(root)
      ensures var m, m', q := old(Picture(all)), Picture(all), old(elm.parent);
        && OnlyChanged(m, m', {child, q}) && (child != null ==> m'[child] == m[child].(parent := q))
        && (q != null ==> m'[q] == if m[q].left == elm then m[q].(left := child) else m[q].(right := child))
    {
      var parent := elm.parent;
      if child != null {
        child.parent := parent;
      }
      if parent != null {
        if parent.left == elm {
          parent.left := child;
        } else {
          parent.right := child;
        }
      } else {
        root := child;
      }
    }

    method Splice(elm: RbNode<K, V>, child: RbNode?<K, V>, ghost p: Path<RbNode<K, V>>, ghost t: Shape<RbNode<K, V>>, ghost c: Shape<RbNode<K, V>>)
      requires Linked(p, t) && t.Node? && t.node == elm && child == Ref(c)
      requires (t.left.Leaf? && c == t.right) || (t.right.Leaf? && c == t.left)
      modifies this, PathNodes(p), Nodes(c)
      ensures Linked(p, c)
    {
      ghost var all := PathNodes(p) + Nodes(t);
      ghost var m := Picture(all);
      OnlyChild(m, p, t, c);
      SpliceLinks(elm, child, all);
      ghost var m' := Picture(all);
      Spliced(m, m', p, t, c);
      ghost var rest := PathNodes(p) + Nodes(c);
      TreeKept(m', Picture(rest), c, Up(p));
      PathKept(m', Picture(rest), p, Ref(c));
    }

    /** `elm` takes over the fields and the place of `old'`, told by the links it changes. */
    method ReplaceLinks(old': RbNode<K, V>, elm: RbNode<K, V>, ghost all: set<RbNode<K, V>>)
      requires old' in all && elm in all && elm != old' && old'.left != null && old'.left in all && old'.left != elm
      requires old'.left != old'.parent && old'.right != old'.left && old'.left != old'
      requires old'.right != null ==> old'.right in all && old'.right != elm && old'.right != old' && old'.right != old'.parent
      requires old'.parent != null ==> old'.parent in all && old'.parent != elm && old'.parent != old'
      modifies this, all - {old'}
      ensures root == if old'.parent == null then elm else old(root)
      ensures var m, m', q, l, r := old(Picture(all)), Picture(all), old(old'.parent), old(old'.left), old(old'.right);
        && OnlyChanged(m, m', {elm, q, l, r}) && m'[elm] == m[old']
        && m'[l] == m[l].(parent := elm) && (r != null ==> m'[r] == m[r].(parent := elm))
        && (q != null ==> m'[q] == if m[q].left == old' then m[q].(left := elm) else m[q].(right := elm))
    {
      elm.left, elm.right, elm.parent, elm.color := old'.left, old'.right, old'.parent, old'.color;
      if old'.parent != null {
        if old'.parent.left == old' {
          old'.parent.left := elm;
        } else {
          old'.parent.right := elm;
        }
      } else {
        root := elm;
      }
      old'.left.parent := elm;
      if old'.right != null {
        old'.right.parent := elm;
      }
    }

    method Replace(old': RbNode<K, V>, elm: RbNode<K, V>, ghost p: Path<RbNode<K, V>>, ghost t: Shape<RbNode<K, V>>)
      requires Linked(p, t) && t.Node? && t.node == old' && t.left.Node? && elm !in PathNodes(p) + Nodes(t)
      modifies this, elm, PathNodes(p), Nodes(t) - {old'}
      ensures Linked(p, Node(t.color, t.left, elm, t.right))
    {
      ghost var all := PathNodes(p) + Nodes(t) + {elm};
      ghost var m := Picture(all);
      TreeKept(Picture(PathNodes(p) + Nodes(t)), m, t, Up(p));
      PathKept(Picture(PathNodes(p) + Nodes(t)), m, p, old');
      TwoChildren(m, p, t);
      ReplaceLinks(old', elm, all);
      ghost var m' := Picture(all);
      Replaced(m, m', p, t, elm);
      ghost var t' := Node(t.color, t.left, elm, t.right);
      ghost var rest := PathNodes(p) + Nodes(t');
      TreeKept(m', Picture(rest), t', Up(p));
      PathKept(m', Picture(rest), p, elm);
    }

    lemma GraftLinked(q: Path<RbNode<K, V>>, base: Path<RbNode<K, V>>, t: Shape<RbNode<K, V>>)
      ensures Linked(Graft(q, base), t) <==> Linked(base, Plug(q, t))
    {
      PlugLinked(Graft(q, base), t);
      PlugLinked(base, Plug(q, t));
      GraftPlug(q, base, t);
    }

    /** The tree with `removed` unlinked, before the colours are repaired. */
    ghost predicate Unlinked(p: Path<RbNode<K, V>>, t: Shape<RbNode<K, V>>, color: Color)
      reads this`root, PathNodes(p), Nodes(t)
    {
      Linked(p, t) && if color == Black then Deficit(p, t) else Balanced(t) && Fits(p, t)
    }

    method UnlinkOnlyChild(elm: RbNode<K, V>, ghost p: Path<RbNode<K, V>>, ghost t: Shape<RbNode<K, V>>)
      returns (parent: RbNode?<K, V>, child: RbNode?<K, V>, color: Color, ghost c: Shape<RbNode<K, V>>)
      requires Linked(p, t) && Balanced(t) && Fits(p, t) && t.Node? && t.node == elm && (elm.left == null || elm.right == null)
      modifies this, PathNodes(p), Nodes(t)
      ensures Unlinked(p, c, color) && child == Ref(c) && parent == Up(p)
      ensures PathNodes(p) + Nodes(c) == PathNodes(p) + Nodes(t) - {elm}
      ensures OneRemoved(Whole(p, t), elm, Whole(p, c))
    {
      Fields(p, t);
      if elm.left == null {
        child, c := elm.right, t.right;
      } else {
        child, c := elm.left, t.left;
      }
      parent, color := elm.parent, elm.color;
      OnlyChildRemoved(p, t, c);
      OnlyChildOrder(p, t, c);
      Splice(elm, child, p, t, c);
    }

    /** The leftmost node below the right child of `old'`. */
    method Successor(old': RbNode<K, V>, ghost p: Path<RbNode<K, V>>, ghost t: Shape<RbNode<K, V>>)
      returns (elm: RbNode<K, V>, ghost q: Path<RbNode<K, V>>, ghost s: Shape<RbNode<K, V>>)
      requires Linked(p, t) && t.Node? && t.node == old' && t.right.Node?
      ensures Linked(Graft(q, RightOf(t.color, old', t.left, p)), s) && Plug(q, s) == t.right
      ensures s.Node? && s.node == elm && s.left.Leaf? && Before(q) == []
    {
      Fields(p, t);
      ZoomRight(p, t);
      ghost var base := RightOf(t.color, old', t.left, p);
      elm := old'.right;
      q, s := Top, t.right;
      Fields(base, s);
      var left := elm.left;
      while left != null
        invariant Linked(Graft(q, base), s) && Plug(q, s) == t.right && Before(q) == []
        invariant s.Node? && s.node == elm && left == Ref(s.left)
        decreases s
      {
        ZoomLeft(Graft(q, base), s);
        q, s := LeftOf(s.color, s.node, s.right, q), s.left;
        elm := left;
        Fields(Graft(q, base), s);
        left := elm.left;
      }
    }

    /** The successor of `old'` leaves its own place to its only child. */
    method DetachSuccessor(old': RbNode<K, V>, ghost p: Path<RbNode<K, V>>, ghost t: Shape<RbNode<K, V>>)
      returns (elm: RbNode<K, V>, parent: RbNode?<K, V>, child: RbNode?<K, V>, color: Color,
               ghost q: Path<RbNode<K, V>>, ghost s: Shape<RbNode<K, V>>)
      requires Linked(p, t) && Balanced(t) && Fits(p, t) && t.Node? && t.node == old' && t.right.Node?
      modifies this, PathNodes(p), Nodes(t)
      ensures s.Node? && s.node == elm && s.left.Leaf? && Before(q) == [] && Plug(q, s) == t.right
      ensures Linked(p, Node(t.color, t.left, old', Plug(q, s.right)))
      ensures child == Ref(s.right) && color == s.color && parent == if q.Top? then elm else q.node
    {
      elm, q, s := Successor(old', p, t);
      ghost var base := RightOf(t.color, old', t.left, p);
      SuccessorBalance(p, t, q, s);
      SuccessorRegion(p, t, q, s);
      Fields(Graft(q, base), s);
      child, parent, color := elm.right, elm.parent, elm.color;
      Splice(elm, child, Graft(q, base), s, s.right);
      if elm.parent == old' {
        parent := elm;
      }
      GraftLinked(q, base, s.right);
      ZoomOut(base, Plug(q, s.right));
    }

    /** A node with two children: its successor leaves its own place and takes over the node's. */
    method UnlinkInner(old': RbNode<K, V>, ghost p: Path<RbNode<K, V>>, ghost t: Shape<RbNode<K, V>>)
      returns (parent: RbNode?<K, V>, child: RbNode?<K, V>, color: Color, ghost p': Path<RbNode<K, V>>, ghost c: Shape<RbNode<K, V>>)
      requires Linked(p, t) && Balanced(t) && Fits(p, t) && t.Node? && t.node == old' && t.left.Node? && t.right.Node?
      modifies this, PathNodes(p), Nodes(t)
      ensures Unlinked(p', c, color) && child == Ref(c) && parent == Up(p')
      ensures PathNodes(p') + Nodes(c) == PathNodes(p) + Nodes(t) - {old'}
      ensures OneRemoved(Whole(p, t), old', Whole(p', c))
    {
      ghost var q, s;
      var elm;
      elm, parent, child, color, q, s := DetachSuccessor(old', p, t);
      SuccessorNodes(p, t, q, s);
      p', c := Graft(q, RightOf(t.color, elm, t.left, p)), s.right;
      InstallSuccessor(old', elm, p, Node(t.color, t.left, old', Plug(q, c)), q, c);
      SuccessorMovedBalance(p, t, q, s);
      SuccessorMovedOrder(p, t, q, s);
    }

    method InstallSuccessor(old': RbNode<K, V>, elm: RbNode<K, V>, ghost p: Path<RbNode<K, V>>, ghost t: Shape<RbNode<K, V>>,
                            ghost q: Path<RbNode<K, V>>, ghost c: Shape<RbNode<K, V>>)
      requires Linked(p, t) && t.Node? && t.node == old' && t.left.Node? && elm !in PathNodes(p) + Nodes(t) && t.right == Plug(q, c)
      modifies this, elm, PathNodes(p), Nodes(t) - {old'}
      ensures Linked(Graft(q, RightOf(t.color, elm, t.left, p)), c)
    {
      Replace(old', elm, p, t);
      ZoomRight(p, t.(node := elm));
      GraftLinked(q, RightOf(t.color, elm, t.left, p), c);
    }

    method Remove(elm: RbNode<K, V>)
      requires Valid() && elm in Nodes(shape)
      modifies this, Nodes(shape)
      ensures Valid() && Nodes(shape) == old(Nodes(shape)) - {elm}
      ensures OneRemoved(old(Order()), elm, Order())
    {
      ghost var p, t := Locate(shape, elm);
      PlugLinked(p, t);
      PlugRedBlack(p, t);
      PlugInorder(p, t);
      PlugNodes(p, t);
      Fields(p, t);
      ghost var c, p';
      var parent, child, color;
      if elm.left == null || elm.right == null {
        parent, child, color, c := UnlinkOnlyChild(elm, p, t);
        p' := p;
      } else {
        parent, child, color, p', c := UnlinkInner(elm, p, t);
      }
      SortedRemove(cmp, Whole(p, t), elm, Whole(p', c));
      Removal(p', c, parent, child, color);
    }

    /** The end of RB_REMOVE: repair the colours if a black node left. */
    method Removal(ghost p: Path<RbNode<K, V>>, ghost c: Shape<RbNode<K, V>>, parent: RbNode?<K, V>, child: RbNode?<K, V>, color: Color)
      requires TotalOrder(cmp) && Unlinked(p, c, color) && child == Ref(c) && parent == Up(p)
      requires Sorted(cmp, Whole(p, c))
      modifies this, PathNodes(p), Nodes(c)
      ensures Valid() && Order() == Whole(p, c) && Nodes(shape) == PathNodes(p) + Nodes(c)
    {
      if color == Black {
        shape := RemoveColor(parent, child, p, c);
      } else {
        PlugRedBlack(p, c);
        PlugInorder(p, c);
        PlugNodes(p, c);
        PlugLinked(p, c);
        shape := Plug(p, c);
      }
      assert Linked(Top, shape);
    }
  }
}
