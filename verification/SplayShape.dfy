/** The mathematics of top-down splaying, free of pointers. A tree is splayed into three parts: what
    is left in the middle, and what has been linked off to the left and to the right. */
module SplayShape {
  import opened Basics

  datatype Tree<N> = Leaf | Node(left: Tree<N>, node: N, right: Tree<N>)

  /** The nodes linked off to one side, last one first, each with the subtree it kept. */
  datatype Spine<N> = End | Add(up: Spine<N>, node: N, sub: Tree<N>)

  function Inorder<N>(t: Tree<N>): seq<N> {
    if t.Leaf? then [] else Inorder(t.left) + [t.node] + Inorder(t.right)
  }

  function LeftOrder<N>(s: Spine<N>): seq<N> {
    if s.End? then [] else LeftOrder(s.up) + (Inorder(s.sub) + [s.node])
  }

  function RightOrder<N>(s: Spine<N>): seq<N> {
    if s.End? then [] else ([s.node] + Inorder(s.sub)) + RightOrder(s.up)
  }

  /** Everything, in order. */
  function Whole<N>(l: Spine<N>, t: Tree<N>, r: Spine<N>): seq<N> {
    LeftOrder(l) + Inorder(t) + RightOrder(r)
  }

  /** The left part as a tree, with `t` where it was open. */
  function CloseLeft<N>(s: Spine<N>, t: Tree<N>): Tree<N>
    decreases s
  {
    if s.End? then t else CloseLeft(s.up, Node(s.sub, s.node, t))
  }

  function CloseRight<N>(s: Spine<N>, t: Tree<N>): Tree<N>
    decreases s
  {
    if s.End? then t else CloseRight(s.up, Node(t, s.node, s.sub))
  }

  lemma {:induction false} CloseLeftOrder<N>(s: Spine<N>, t: Tree<N>)
    ensures Inorder(CloseLeft(s, t)) == LeftOrder(s) + Inorder(t)
    decreases s
  {
    if s.Add? {
      CloseLeftOrder(s.up, Node(s.sub, s.node, t));
      Assoc(LeftOrder(s.up), Inorder(s.sub) + [s.node], Inorder(t));
    } else {
      assert [] + Inorder(t) == Inorder(t);
    }
  }

  lemma {:induction false} CloseRightOrder<N>(s: Spine<N>, t: Tree<N>)
    ensures Inorder(CloseRight(s, t)) == Inorder(t) + RightOrder(s)
    decreases s
  {
    if s.Add? {
      CloseRightOrder(s.up, Node(t, s.node, s.sub));
      Assoc(Inorder(t), [s.node], Inorder(s.sub));
      Assoc(Inorder(t), [s.node] + Inorder(s.sub), RightOrder(s.up));
    } else {
      assert Inorder(t) + [] == Inorder(t);
    }
  }

  function Assembled<N>(l: Spine<N>, t: Tree<N>, r: Spine<N>): Tree<N>
    requires t.Node?
  {
    Node(CloseLeft(l, t.left), t.node, CloseRight(r, t.right))
  }

  /** Putting the parts together again keeps the order. */
  lemma AssembledOrder<N>(l: Spine<N>, t: Tree<N>, r: Spine<N>)
    requires t.Node?
    ensures Inorder(Assembled(l, t, r)) == Whole(l, t, r)
    ensures Inorder(CloseLeft(l, t.left)) == LeftOrder(l) + Inorder(t.left)
    ensures Inorder(CloseRight(r, t.right)) == Inorder(t.right) + RightOrder(r)
  {
    CloseLeftOrder(l, t.left);
    CloseRightOrder(r, t.right);
    var a, b, x, c, d := LeftOrder(l), Inorder(t.left), [t.node], Inorder(t.right), RightOrder(r);
    assert ((a + b) + x) + (c + d) == (a + ((b + x) + c)) + d;
  }

  function RotateRight<N>(t: Tree<N>): Tree<N>
    requires t.Node? && t.left.Node?
  {
    Node(t.left.left, t.left.node, Node(t.left.right, t.node, t.right))
  }

  function RotateLeft<N>(t: Tree<N>): Tree<N>
    requires t.Node? && t.right.Node?
  {
    Node(Node(t.left, t.node, t.right.left), t.right.node, t.right.right)
  }

  lemma RotateRightOrder<N>(t: Tree<N>)
    requires t.Node? && t.left.Node?
    ensures Inorder(RotateRight(t)) == Inorder(t)
  {
    var a, x, b, y, c := Inorder(t.left.left), [t.left.node], Inorder(t.left.right), [t.node], Inorder(t.right);
    assert a + x + ((b + y) + c) == ((a + x) + b) + y + c;
  }

  lemma RotateLeftOrder<N>(t: Tree<N>)
    requires t.Node? && t.right.Node?
    ensures Inorder(RotateLeft(t)) == Inorder(t)
  {
    var a, x, b, y, c := Inorder(t.left), [t.node], Inorder(t.right.left), [t.right.node], Inorder(t.right.right);
    assert ((a + x) + b) + y + c == a + x + ((b + y) + c);
  }

  /** Linking the root off to the right, with its right subtree. */
  lemma LinkRightOrder<N>(l: Spine<N>, t: Tree<N>, r: Spine<N>)
    requires t.Node?
    ensures Whole(l, t.left, Add(r, t.node, t.right)) == Whole(l, t, r)
  {
    var a, b, x, c, d := LeftOrder(l), Inorder(t.left), [t.node], Inorder(t.right), RightOrder(r);
    assert (a + b) + ((x + c) + d) == (a + ((b + x) + c)) + d;
  }

  lemma LinkLeftOrder<N>(l: Spine<N>, t: Tree<N>, r: Spine<N>)
    requires t.Node?
    ensures Whole(Add(l, t.node, t.left), t.right, r) == Whole(l, t, r)
  {
    var a, b, x, c, d := LeftOrder(l), Inorder(t.left), [t.node], Inorder(t.right), RightOrder(r);
    assert ((a + (b + x)) + c) + d == (a + ((b + x) + c)) + d;
  }
}
