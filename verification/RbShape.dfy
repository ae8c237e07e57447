/** The mathematics of red-black trees, free of pointers.
    A `Shape` is a tree of node identities with their colours; a `Path` is the way from a
    position up to the root. `Plug(p, t)` is the whole tree with `t` in the position `p` leads to.
    The pointer code of RbTree keeps its links equal to a shape and a path; every fact about
    balance and order is proved here. */
module RbShape {
  import opened Basics

  datatype Color = Red | Black

  datatype Shape<N> = Leaf | Node(color: Color, left: Shape<N>, node: N, right: Shape<N>)

  /** `LeftOf(c, n, s, up)`: the position is the left child of `n` (colour `c`, right subtree `s`). */
  datatype Path<N> =
    | Top
    | LeftOf(color: Color, node: N, sibling: Shape<N>, up: Path<N>)
    | RightOf(color: Color, node: N, sibling: Shape<N>, up: Path<N>)

  function Plug<N>(p: Path<N>, t: Shape<N>): Shape<N>
    decreases p
  {
    match p
    case Top => t
    case LeftOf(c, n, s, up) => Plug(up, Node(c, t, n, s))
    case RightOf(c, n, s, up) => Plug(up, Node(c, s, n, t))
  }

  /** The subtree one step further up. */
  function Grow<N>(p: Path<N>, t: Shape<N>): Shape<N>
    requires !p.Top?
  {
    if p.LeftOf? then Node(p.color, t, p.node, p.sibling) else Node(p.color, p.sibling, p.node, t)
  }

  /** The path to the sibling of the position at the end of `p`. */
  function SiblingPath<N>(p: Path<N>, t: Shape<N>): Path<N>
    requires !p.Top?
  {
    if p.LeftOf? then RightOf(p.color, p.node, t, p.up) else LeftOf(p.color, p.node, t, p.up)
  }

  /** The path that first follows `q` upwards and then continues with `base`. */
  function Graft<N>(q: Path<N>, base: Path<N>): Path<N>
  {
    match q
    case Top => base
    case LeftOf(c, n, s, up) => LeftOf(c, n, s, Graft(up, base))
    case RightOf(c, n, s, up) => RightOf(c, n, s, Graft(up, base))
  }

  /** A left rotation: the right child rises above the root. */
  function RotL<N>(t: Shape<N>): Shape<N>
    requires t.Node? && t.right.Node?
  {
    var r := t.right;
    Node(r.color, Node(t.color, t.left, t.node, r.left), r.node, r.right)
  }

  function RotR<N>(t: Shape<N>): Shape<N>
    requires t.Node? && t.left.Node?
  {
    var l := t.left;
    Node(l.color, l.left, l.node, Node(t.color, l.right, t.node, t.right))
  }

  function Depth<N>(p: Path<N>): nat {
    if p.Top? then 0 else 1 + Depth(p.up)
  }

  // ----- node identities -----

  function Nodes<N(==)>(t: Shape<N>): set<N> {
    match t
    case Leaf => {}
    case Node(_, l, n, r) => Nodes(l) + {n} + Nodes(r)
  }

  function PathNodes<N(==)>(p: Path<N>): set<N> {
    if p.Top? then {} else {p.node} + Nodes(p.sibling) + PathNodes(p.up)
  }

  /** No node occurs twice. */
  ghost predicate NoRepeats<N>(t: Shape<N>) {
    match t
    case Leaf => true
    case Node(_, l, n, r) =>
      && n !in Nodes(l) && n !in Nodes(r) && Nodes(l) !! Nodes(r)
      && NoRepeats(l) && NoRepeats(r)
  }

  ghost predicate PathDistinct<N>(p: Path<N>) {
    p.Top? ||
    (&& p.node !in Nodes(p.sibling) && p.node !in PathNodes(p.up)
     && Nodes(p.sibling) !! PathNodes(p.up)
     && NoRepeats(p.sibling) && PathDistinct(p.up))
  }

  ghost predicate Apart<N>(p: Path<N>, t: Shape<N>) {
    PathDistinct(p) && NoRepeats(t) && PathNodes(p) !! Nodes(t)
  }

  // ----- in-order sequence -----

  function Inorder<N>(t: Shape<N>): seq<N> {
    match t
    case Leaf => []
    case Node(_, l, n, r) => Inorder(l) + [n] + Inorder(r)
  }

  /** What the whole tree visits before (after) the subtree at the position. */
  function Before<N>(p: Path<N>): seq<N> {
    match p
    case Top => []
    case LeftOf(_, _, _, up) => Before(up)
    case RightOf(_, n, s, up) => Before(up) + (Inorder(s) + [n])
  }

  function After<N>(p: Path<N>): seq<N> {
    match p
    case Top => []
    case LeftOf(_, n, s, up) => ([n] + Inorder(s)) + After(up)
    case RightOf(_, _, _, up) => After(up)
  }

  function Whole<N>(p: Path<N>, t: Shape<N>): seq<N> {
    Before(p) + Inorder(t) + After(p)
  }

  lemma {:induction false} PlugInorder<N>(p: Path<N>, t: Shape<N>)
    ensures Inorder(Plug(p, t)) == Whole(p, t)
    decreases p
  {
    match p
    case Top =>
    case LeftOf(c, n, s, up) =>
      PlugInorder(up, Node(c, t, n, s));
      assert Whole(p, t) == Whole(up, Node(c, t, n, s));
    case RightOf(c, n, s, up) =>
      PlugInorder(up, Node(c, s, n, t));
      assert Whole(p, t) == Whole(up, Node(c, s, n, t));
  }

  /** Growing the focus and repainting it keep the in-order sequence of the whole tree. */
  lemma GrowWhole<N>(p: Path<N>, t: Shape<N>)
    requires !p.Top?
    ensures Whole(p.up, Grow(p, t)) == Whole(p, t)
    ensures PathNodes(p.up) + Nodes(Grow(p, t)) == PathNodes(p) + Nodes(t)
  {
    PlugInorder(p, t);
    PlugInorder(p.up, Grow(p, t));
  }

  lemma EmptyWhole<N>(p: Path<N>)
    ensures Whole(p, Leaf) == Before(p) + After(p)
  {
    assert Inorder<N>(Leaf) == [];
  }

  lemma LeafWhole<N>(p: Path<N>, c: Color, n: N)
    ensures Whole(p, Node(c, Leaf, n, Leaf)) == Before(p) + [n] + After(p)
  {
    assert Inorder(Node(c, Leaf, n, Leaf)) == [n];
  }

  lemma FamilyWhole<N>(p: Path<N>, t: Shape<N>)
    requires !p.Top? && !p.up.Top?
    ensures var g := Grow(p.up, Grow(p, t));
      Whole(p.up.up, g) == Whole(p, t) && PathNodes(p.up.up) + Nodes(g) == PathNodes(p) + Nodes(t)
  {
    GrowWhole(p, t);
    GrowWhole(p.up, Grow(p, t));
  }

  lemma RotLInorder<N>(t: Shape<N>)
    requires t.Node? && t.right.Node?
    ensures Inorder(RotL(t)) == Inorder(t) && Nodes(RotL(t)) == Nodes(t)
  {
    var r := t.right;
    var l' := RotL(t).left;
    assert Inorder(r) == Inorder(r.left) + [r.node] + Inorder(r.right);
    assert Inorder(l') == Inorder(t.left) + [t.node] + Inorder(r.left);
    assert Nodes(r) == Nodes(r.left) + {r.node} + Nodes(r.right);
    assert Nodes(l') == Nodes(t.left) + {t.node} + Nodes(r.left);
  }

  lemma RotRInorder<N>(t: Shape<N>)
    requires t.Node? && t.left.Node?
    ensures Inorder(RotR(t)) == Inorder(t) && Nodes(RotR(t)) == Nodes(t)
  {
    assert RotL(RotR(t)) == t;
    RotLInorder(RotR(t));
  }

  lemma {:induction false} InorderNodes<N>(t: Shape<N>)
    ensures forall n :: n in Inorder(t) ==> n in Nodes(t)
    ensures forall n :: n in Nodes(t) ==> n in Inorder(t)
  {
    if t.Node? {
      InorderNodes(t.left);
      InorderNodes(t.right);
    }
  }

  lemma {:induction false} PlugNodes<N>(p: Path<N>, t: Shape<N>)
    ensures Nodes(Plug(p, t)) == PathNodes(p) + Nodes(t)
    decreases p
  {
    match p
    case Top =>
    case LeftOf(c, n, s, up) => PlugNodes(up, Node(c, t, n, s));
    case RightOf(c, n, s, up) => PlugNodes(up, Node(c, s, n, t));
  }

  lemma {:induction false} PlugDistinct<N>(p: Path<N>, t: Shape<N>)
    ensures NoRepeats(Plug(p, t)) <==> Apart(p, t)
    decreases p
  {
    match p
    case Top =>
    case LeftOf(c, n, s, up) => PlugDistinct(up, Node(c, t, n, s));
    case RightOf(c, n, s, up) => PlugDistinct(up, Node(c, s, n, t));
  }

  lemma {:induction false} GraftPlug<N>(q: Path<N>, base: Path<N>, t: Shape<N>)
    ensures Plug(Graft(q, base), t) == Plug(base, Plug(q, t))
    decreases q
  {
    match q
    case Top =>
    case LeftOf(c, n, s, up) => GraftPlug(up, base, Node(c, t, n, s));
    case RightOf(c, n, s, up) => GraftPlug(up, base, Node(c, s, n, t));
  }

  /** Every node of a tree sits at some position. */
  lemma {:induction false} Locate<N>(whole: Shape<N>, n: N) returns (p: Path<N>, t: Shape<N>)
    requires n in Nodes(whole)
    ensures t.Node? && t.node == n && Plug(p, t) == whole
  {
    var q := Top;
    t := whole;
    while t.node != n
      invariant t.Node? && n in Nodes(t) && Plug(q, t) == whole
      decreases t
    {
      if n in Nodes(t.left) {
        q, t := LeftOf(t.color, t.node, t.right, q), t.left;
      } else {
        q, t := RightOf(t.color, t.node, t.left, q), t.right;
      }
    }
    p := q;
  }

  // ----- red-black balance -----

  predicate IsRed<N>(t: Shape<N>) {
    t.Node? && t.color == Red
  }

  predicate PathRed<N>(p: Path<N>) {
    !p.Top? && p.color == Red
  }

  function Weight(c: Color): nat {
    if c == Black then 1 else 0
  }

  /** Number of black nodes on the leftmost path. */
  function BlackHeight<N>(t: Shape<N>): nat {
    match t
    case Leaf => 0
    case Node(c, l, _, _) => BlackHeight(l) + Weight(c)
  }

  /** All paths carry the same number of black nodes and no red node has a red child. */
  ghost predicate Balanced<N>(t: Shape<N>) {
    match t
    case Leaf => true
    case Node(c, l, _, r) =>
      && Balanced(l) && Balanced(r) && BlackHeight(l) == BlackHeight(r)
      && (c == Red ==> !IsRed(l) && !IsRed(r))
  }

  ghost predicate RedBlack<N>(t: Shape<N>) {
    Balanced(t) && !IsRed(t)
  }

  /** Plugging a balanced tree of black height `h` gives a red-black tree, if the colours agree. */
  ghost predicate PathBalanced<N>(p: Path<N>, h: int) {
    p.Top? ||
    (&& Balanced(p.sibling) && BlackHeight(p.sibling) == h
     && (p.color == Red ==> !IsRed(p.sibling) && !p.up.Top? && !PathRed(p.up))
     && PathBalanced(p.up, h + Weight(p.color)))
  }

  ghost predicate Fits<N>(p: Path<N>, t: Shape<N>) {
    PathBalanced(p, BlackHeight(t)) && !(IsRed(t) && (p.Top? || PathRed(p)))
  }

  lemma GrowFits<N>(p: Path<N>, t: Shape<N>)
    requires !p.Top?
    ensures Balanced(t) && Fits(p, t) <==> Balanced(Grow(p, t)) && Fits(p.up, Grow(p, t))
    ensures Plug(p, t) == Plug(p.up, Grow(p, t))
  {
  }

  lemma {:induction false} PlugRedBlack<N>(p: Path<N>, t: Shape<N>)
    ensures RedBlack(Plug(p, t)) <==> Balanced(t) && Fits(p, t)
    decreases p
  {
    if !p.Top? {
      GrowFits(p, t);
      hide Balanced, Fits, RedBlack, Plug;
      PlugRedBlack(p.up, Grow(p, t));
    }
  }

  /** A red focus that may clash with a red parent: the state of the insertion repair. */
  ghost predicate RedFocus<N>(p: Path<N>, t: Shape<N>) {
    IsRed(t) && Balanced(t) && PathBalanced(p, BlackHeight(t))
  }

  /** The grandparent's subtree while repairing an insertion. */
  lemma RedFamily<N>(p: Path<N>, t: Shape<N>)
    requires RedFocus(p, t) && PathRed(p)
    ensures !p.up.Top? && p.up.color == Black
    ensures var g := Grow(p.up, Grow(p, t));
      && PathBalanced(p.up.up, BlackHeight(g)) && BlackHeight(g) == BlackHeight(t) + 1
      && BlackHeight(g.left) == BlackHeight(g.right) == BlackHeight(t)
      && Balanced(p.up.sibling) && Balanced(p.sibling) && !IsRed(p.sibling)
  {
    var l := Grow(p, t);
    assert PathBalanced(p.up, BlackHeight(t));
    assert BlackHeight(l) == BlackHeight(t);
  }

  /** Insertion repair below a left-child parent whose sibling is not red: the subtree that
      replaces the grandparent's. */
  function InsertTurnLeft<N>(p: Path<N>, t: Shape<N>): (g: Shape<N>)
    requires t.Node? && !p.Top? && p.up.LeftOf?
    ensures g.Node?
  {
    var l := if p.RightOf? then RotL(Grow(p, t)) else Grow(p, t);
    RotR(Node(Red, l.(color := Black), p.up.node, p.up.sibling))
  }

  lemma InsertTurnedLeft<N>(p: Path<N>, t: Shape<N>)
    requires RedFocus(p, t) && PathRed(p) && p.up.LeftOf? && !IsRed(p.up.sibling)
    ensures var g := InsertTurnLeft(p, t);
      && g.color == Black && RedFocus(LeftOf(Black, g.node, g.right, p.up.up), g.left)
  {
    RedFamily(p, t);
    var g := InsertTurnLeft(p, t);
    assert PathBalanced(p.up, BlackHeight(t));
    assert Balanced(g.left) && BlackHeight(g.left) == BlackHeight(t);
    assert Balanced(g.right) && BlackHeight(g.right) == BlackHeight(t);
  }

  lemma InsertTurnedLeftNodes<N>(p: Path<N>, t: Shape<N>)
    requires t.Node? && !p.Top? && p.up.LeftOf?
    ensures var g := InsertTurnLeft(p, t);
      Inorder(g) == Inorder(Grow(p.up, Grow(p, t))) && Nodes(g) == Nodes(Grow(p.up, Grow(p, t)))
  {
    var l0 := Grow(p, t);
    var l := if p.RightOf? then RotL(l0) else l0;
    if p.RightOf? {
      RotLInorder(l0);
    }
    assert Inorder(l.(color := Black)) == Inorder(l) && Nodes(l.(color := Black)) == Nodes(l);
    RotRInorder(Node(Red, l.(color := Black), p.up.node, p.up.sibling));
  }

  /** The mirror image, below a right-child parent. */
  function InsertTurnRight<N>(p: Path<N>, t: Shape<N>): (g: Shape<N>)
    requires t.Node? && !p.Top? && p.up.RightOf?
    ensures g.Node?
  {
    var r := if p.LeftOf? then RotR(Grow(p, t)) else Grow(p, t);
    RotL(Node(Red, p.up.sibling, p.up.node, r.(color := Black)))
  }

  lemma InsertTurnedRight<N>(p: Path<N>, t: Shape<N>)
    requires RedFocus(p, t) && PathRed(p) && p.up.RightOf? && !IsRed(p.up.sibling)
    ensures var g := InsertTurnRight(p, t);
      && g.color == Black && RedFocus(RightOf(Black, g.node, g.left, p.up.up), g.right)
  {
    RedFamily(p, t);
    var g := InsertTurnRight(p, t);
    assert PathBalanced(p.up, BlackHeight(t));
    assert Balanced(g.left) && BlackHeight(g.left) == BlackHeight(t);
    assert Balanced(g.right) && BlackHeight(g.right) == BlackHeight(t);
  }

  lemma InsertTurnedRightNodes<N>(p: Path<N>, t: Shape<N>)
    requires t.Node? && !p.Top? && p.up.RightOf?
    ensures var g := InsertTurnRight(p, t);
      Inorder(g) == Inorder(Grow(p.up, Grow(p, t))) && Nodes(g) == Nodes(Grow(p.up, Grow(p, t)))
  {
    var r0 := Grow(p, t);
    var r := if p.LeftOf? then RotR(r0) else r0;
    if p.LeftOf? {
      RotRInorder(r0);
    }
    assert Inorder(r.(color := Black)) == Inorder(r) && Nodes(r.(color := Black)) == Nodes(r);
    RotLInorder(Node(Red, p.up.sibling, p.up.node, r.(color := Black)));
  }

  /** Insertion repair with a red uncle: the clash moves two levels up. */
  lemma InsertRecolored<N>(p: Path<N>, t: Shape<N>)
    requires RedFocus(p, t) && PathRed(p) && IsRed(p.up.sibling)
    ensures var g := Grow(p.up, Grow(p, t)); var g' := Node(Red, g.left.(color := Black), g.node, g.right.(color := Black));
      RedFocus(p.up.up, g') && Inorder(g') == Inorder(g) && Nodes(g') == Nodes(g)
  {
    RedFamily(p, t);
    var l := Grow(p, t);
    assert Balanced(l.(color := Black)) && Balanced(p.up.sibling.(color := Black));
    assert Inorder(l.(color := Black)) == Inorder(l) && Nodes(l.(color := Black)) == Nodes(l);
    var u := p.up.sibling;
    assert Inorder(u.(color := Black)) == Inorder(u) && Nodes(u.(color := Black)) == Nodes(u);
  }

  // ----- removal repair -----

  function Blacken<N>(t: Shape<N>): Shape<N> {
    if t.Leaf? then t else t.(color := Black)
  }

  /** A focus that lacks one black node (and whose root may be red above a red child): the state
      of the removal repair. */
  ghost predicate Deficit<N>(p: Path<N>, t: Shape<N>) {
    Balanced(Blacken(t)) && PathBalanced(p, BlackHeight(t) + 1)
  }

  function RepairRank<N>(p: Path<N>, t: Shape<N>): nat {
    2 * Depth(p) + (if IsRed(t) then 0 else 1)
  }

  /** Blackening a red focus pays the deficit; at the root nothing is owed. */
  lemma DeficitPaid<N>(p: Path<N>, t: Shape<N>)
    requires Deficit(p, t) && (p.Top? || IsRed(t))
    ensures RedBlack(Plug(p, Blacken(t))) && Inorder(Plug(p, Blacken(t))) == Whole(p, t)
    ensures Nodes(Blacken(t)) == Nodes(t)
  {
    PlugRedBlack(p, Blacken(t));
    PlugInorder(p, Blacken(t));
    assert Inorder(Blacken(t)) == Inorder(t);
  }

  lemma DeficitSibling<N>(p: Path<N>, t: Shape<N>)
    requires Deficit(p, t) && !p.Top?
    ensures p.sibling.Node? && (IsRed(p.sibling) ==> p.color == Black && p.sibling.left.Node? && p.sibling.right.Node?)
  {
    assert Balanced(p.sibling) && BlackHeight(p.sibling) == BlackHeight(t) + 1;
  }

  /** The path after a red sibling has been rotated above the parent. */
  function RedSiblingPath<N>(p: Path<N>): Path<N>
    requires !p.Top? && p.sibling.Node?
  {
    var s := p.sibling;
    if p.LeftOf? then LeftOf(Red, p.node, s.left, LeftOf(Black, s.node, s.right, p.up))
    else RightOf(Red, p.node, s.right, RightOf(Black, s.node, s.left, p.up))
  }

  lemma RedSibling<N>(p: Path<N>, t: Shape<N>)
    requires Deficit(p, t) && !IsRed(t) && !p.Top? && IsRed(p.sibling)
    ensures var q := RedSiblingPath(p); Deficit(q, t) && !IsRed(q.sibling)
  {
    var s, q := p.sibling, RedSiblingPath(p);
    assert Balanced(s.left) && Balanced(s.right) && BlackHeight(s.left) == BlackHeight(s.right) == BlackHeight(t) + 1;
    assert PathBalanced(q.up, BlackHeight(t) + 1);
  }

  predicate RedChild<N>(t: Shape<N>) {
    t.Node? && (IsRed(t.left) || IsRed(t.right))
  }

  /** Painting the sibling red moves the deficit one level up. */
  lemma SiblingPainted<N>(p: Path<N>, t: Shape<N>)
    requires Deficit(p, t) && !p.Top? && p.sibling.Node? && !IsRed(p.sibling) && !RedChild(p.sibling) && !IsRed(t)
    ensures Deficit(p.up, Grow(p.(sibling := p.sibling.(color := Red)), t))
  {
    var s := p.sibling.(color := Red);
    assert Balanced(s) && BlackHeight(s) == BlackHeight(t);
    assert Blacken(t) == t;
  }

  /** The last rotations of the removal repair, for a deficit on the left. */
  function RemoveTurnLeft<N>(p: Path<N>, t: Shape<N>): (g: Shape<N>)
    requires p.LeftOf? && RedChild(p.sibling)
  {
    var s0 := p.sibling;
    var s := if IsRed(s0.right) then s0 else RotR(Node(Red, s0.left.(color := Black), s0.node, s0.right));
    RotL(Node(Black, t, p.node, Node(p.color, s.left, s.node, s.right.(color := Black))))
  }

  lemma RemoveTurnedLeft<N>(p: Path<N>, t: Shape<N>)
    requires Deficit(p, t) && !IsRed(t) && p.LeftOf? && RedChild(p.sibling) && !IsRed(p.sibling)
    ensures var g := RemoveTurnLeft(p, t); Balanced(g) && Fits(p.up, g)
  {
    var s, g := p.sibling, RemoveTurnLeft(p, t);
    var h := BlackHeight(t);
    assert Balanced(s.left) && Balanced(s.right) && BlackHeight(s.left) == BlackHeight(s.right) == h;
    if !IsRed(s.right) {
      assert Balanced(s.left.left) && Balanced(s.left.right) && BlackHeight(s.left.left) == BlackHeight(s.left.right) == h;
    }
    assert Balanced(g.left) && BlackHeight(g.left) == h + 1;
    assert Balanced(g.right) && BlackHeight(g.right) == h + 1;
  }

  lemma RemoveTurnedLeftNodes<N>(p: Path<N>, t: Shape<N>)
    requires p.LeftOf? && RedChild(p.sibling)
    ensures var g := RemoveTurnLeft(p, t); Inorder(g) == Inorder(Grow(p, t)) && Nodes(g) == Nodes(Grow(p, t))
  {
    var s0 := p.sibling;
    var s1 := if IsRed(s0.right) then s0 else Node(Red, s0.left.(color := Black), s0.node, s0.right);
    assert Inorder(s1) == Inorder(s0) && Nodes(s1) == Nodes(s0);
    var s := if IsRed(s0.right) then s0 else RotR(s1);
    if !IsRed(s0.right) {
      RotRInorder(s1);
    }
    var s2 := Node(p.color, s.left, s.node, s.right.(color := Black));
    assert Nodes(s2.right) == Nodes(s.right) && Inorder(s2) == Inorder(s);
    RotLInorder(Node(Black, t, p.node, s2));
  }

  function RemoveTurnRight<N>(p: Path<N>, t: Shape<N>): (g: Shape<N>)
    requires p.RightOf? && RedChild(p.sibling)
  {
    var s0 := p.sibling;
    var s := if IsRed(s0.left) then s0 else RotL(Node(Red, s0.left, s0.node, s0.right.(color := Black)));
    RotR(Node(Black, Node(p.color, s.left.(color := Black), s.node, s.right), p.node, t))
  }

  lemma RemoveTurnedRight<N>(p: Path<N>, t: Shape<N>)
    requires Deficit(p, t) && !IsRed(t) && p.RightOf? && RedChild(p.sibling) && !IsRed(p.sibling)
    ensures var g := RemoveTurnRight(p, t); Balanced(g) && Fits(p.up, g)
  {
    var s, g := p.sibling, RemoveTurnRight(p, t);
    var h := BlackHeight(t);
    assert Balanced(s.left) && Balanced(s.right) && BlackHeight(s.left) == BlackHeight(s.right) == h;
    if !IsRed(s.left) {
      assert Balanced(s.right.left) && Balanced(s.right.right) && BlackHeight(s.right.left) == BlackHeight(s.right.right) == h;
    }
    assert Balanced(g.left) && BlackHeight(g.left) == h + 1;
    assert Balanced(g.right) && BlackHeight(g.right) == h + 1;
  }

  lemma RemoveTurnedRightNodes<N>(p: Path<N>, t: Shape<N>)
    requires p.RightOf? && RedChild(p.sibling)
    ensures var g := RemoveTurnRight(p, t); Inorder(g) == Inorder(Grow(p, t)) && Nodes(g) == Nodes(Grow(p, t))
  {
    var s0 := p.sibling;
    var s1 := if IsRed(s0.left) then s0 else Node(Red, s0.left, s0.node, s0.right.(color := Black));
    assert Inorder(s1) == Inorder(s0) && Nodes(s1) == Nodes(s0);
    var s := if IsRed(s0.left) then s0 else RotL(s1);
    if !IsRed(s0.left) {
      RotLInorder(s1);
    }
    var s2 := Node(p.color, s.left.(color := Black), s.node, s.right);
    assert Nodes(s2.left) == Nodes(s.left) && Inorder(s2) == Inorder(s);
    RotRInorder(Node(Black, s2, p.node, t));
  }

  lemma Reassembled<N>(p: Path<N>, g: Shape<N>)
    requires Balanced(g) && Fits(p, g)
    ensures Deficit(Top, Plug(p, g)) && Whole(Top, Plug(p, g)) == Whole(p, g)
    ensures PathNodes<N>(Top) + Nodes(Plug(p, g)) == PathNodes(p) + Nodes(g)
  {
    PlugRedBlack(p, g);
    PlugInorder(p, g);
    PlugNodes(p, g);
    PlugInorder(Top, Plug(p, g));
  }

  // ----- one node less -----

  /** What is left when a node with at most one child gives its place to that child. */
  lemma OnlyChildRemoved<N>(p: Path<N>, t: Shape<N>, c: Shape<N>)
    requires Balanced(t) && Fits(p, t) && t.Node?
    requires (t.left.Leaf? && c == t.right) || (t.right.Leaf? && c == t.left)
    ensures if t.color == Black then Deficit(p, c) else Balanced(c) && Fits(p, c) && !IsRed(c)
  {
    assert Balanced(c) && BlackHeight(c) == 0;
    assert c.Node? ==> Balanced(c.left) && Balanced(c.right);
  }

  lemma OnlyChildOrder<N>(p: Path<N>, t: Shape<N>, c: Shape<N>)
    requires t.Node? && ((t.left.Leaf? && c == t.right) || (t.right.Leaf? && c == t.left))
    ensures OneRemoved(Whole(p, t), t.node, Whole(p, c))
  {
    MiddleRemoved(Before(p), Inorder(t.left), t.node, Inorder(t.right), After(p));
    assert Inorder(c) == Inorder(t.left) + Inorder(t.right);
  }

  lemma MiddleRemoved<N>(a: seq<N>, l: seq<N>, x: N, r: seq<N>, b: seq<N>)
    ensures var w, k := a + (l + [x] + r) + b, |a| + |l|;
      k < |w| && w[k] == x && RemovedAt(w, k) == a + (l + r) + b
  {
    var w, k := a + (l + [x] + r) + b, |a| + |l|;
    assert w[..k] == a + l;
    assert w[k + 1..] == r + b;
  }

  lemma LeftmostFirst<N>(q: Path<N>, s: Shape<N>)
    requires s.Node? && s.left.Leaf? && Before(q) == []
    ensures Inorder(Plug(q, s)) == [s.node] + Inorder(Plug(q, s.right))
  {
    PlugInorder(q, s);
    PlugInorder(q, s.right);
    hide Plug, Before, After, Inorder;
    LeafInorder(s);
    assert [] + Inorder(s) == Inorder(s) && [] + Inorder(s.right) == Inorder(s.right);
    Assoc([s.node], Inorder(s.right), After(q));
  }

  lemma LeafInorder<N>(s: Shape<N>)
    requires s.Node? && s.left.Leaf?
    ensures Inorder(s) == [s.node] + Inorder(s.right)
  {
  }

  /** The leftmost node of the right subtree takes the place of the removed node. */
  lemma SuccessorOrder<N>(p: Path<N>, t: Shape<N>, q: Path<N>, s: Shape<N>)
    requires t.Node? && s.Node? && s.left.Leaf? && Plug(q, s) == t.right && Before(q) == []
    ensures OneRemoved(Whole(p, t), t.node, Whole(p, Node(t.color, t.left, s.node, Plug(q, s.right))))
  {
    var l, r := Inorder(t.left), Inorder(Plug(q, s.right));
    LeftmostFirst(q, s);
    MiddleRemoved(Before(p), l, t.node, [s.node] + r, After(p));
    assert l + [s.node] + r == l + ([s.node] + r);
  }

  /** The same nodes remain, but for the removed one. */
  lemma SuccessorNodes<N>(p: Path<N>, t: Shape<N>, q: Path<N>, s: Shape<N>)
    requires t.Node? && s.Node? && s.left.Leaf? && Plug(q, s) == t.right && Apart(p, t)
    ensures PathNodes(p) + Nodes(Node(t.color, t.left, s.node, Plug(q, s.right))) == PathNodes(p) + Nodes(t) - {t.node}
    ensures s.node !in PathNodes(p) + Nodes(Node(t.color, t.left, t.node, Plug(q, s.right)))
  {
    hide Plug, Apart, PathNodes, Nodes, NoRepeats;
    ApartNodes(p, t);
    PlugWithout(q, s);
    OneNodeLess(t, s.node, Plug(q, s.right));
  }

  lemma PlugWithout<N>(q: Path<N>, s: Shape<N>)
    requires s.Node? && s.left.Leaf? && NoRepeats(Plug(q, s))
    ensures Nodes(Plug(q, s)) == Nodes(Plug(q, s.right)) + {s.node} && s.node !in Nodes(Plug(q, s.right))
  {
    hide Plug;
    PlugNodes(q, s);
    PlugNodes(q, s.right);
    PlugDistinct(q, s);
  }

  lemma ApartNodes<N>(p: Path<N>, t: Shape<N>)
    requires Apart(p, t)
    ensures PathNodes(p) !! Nodes(t) && NoRepeats(t)
    ensures t.Node? ==> NoRepeats(t.right) && t.node in Nodes(t) && Nodes(t.right) <= Nodes(t)
  {
  }

  lemma OneNodeLess<N>(t: Shape<N>, n: N, right: Shape<N>)
    requires t.Node? && Nodes(t.right) == Nodes(right) + {n} && n !in Nodes(right) && NoRepeats(t)
    ensures Nodes(Node(t.color, t.left, n, right)) == Nodes(t) - {t.node}
    ensures n !in Nodes(Node(t.color, t.left, t.node, right))
  {
  }

  /** Renaming the node at the foot of a grafted path changes no colour and no height. */
  lemma {:induction false} RenamedBalance<N>(q: Path<N>, c: Color, l: Shape<N>, m: N, n: N, p: Path<N>, h: int)
    ensures PathBalanced(Graft(q, RightOf(c, m, l, p)), h) == PathBalanced(Graft(q, RightOf(c, n, l, p)), h)
    decreases q
  {
    hide Balanced, BlackHeight, IsRed;
    if !q.Top? {
      RenamedBalance(q.up, c, l, m, n, p, h + Weight(q.color));
      assert Graft(q.up, RightOf(c, m, l, p)).Top? == Graft(q.up, RightOf(c, n, l, p)).Top?;
      assert PathRed(Graft(q.up, RightOf(c, m, l, p))) == PathRed(Graft(q.up, RightOf(c, n, l, p)));
    }
  }

  lemma {:induction false} RenamedNodes<N>(q: Path<N>, c: Color, l: Shape<N>, m: N, p: Path<N>)
    ensures PathNodes(Graft(q, RightOf(c, m, l, p))) == PathNodes(q) + {m} + Nodes(l) + PathNodes(p)
    decreases q
  {
    if !q.Top? {
      RenamedNodes(q.up, c, l, m, p);
    }
  }

  /** The position of the successor in the whole tree. */
  lemma SuccessorBalance<N>(p: Path<N>, t: Shape<N>, q: Path<N>, s: Shape<N>)
    requires t.Node? && Plug(q, s) == t.right && Balanced(t) && Fits(p, t)
    ensures Balanced(s) && Fits(Graft(q, RightOf(t.color, t.node, t.left, p)), s)
  {
    var base := RightOf(t.color, t.node, t.left, p);
    GraftPlug(q, base, s);
    PlugRedBlack(p, t);
    PlugRedBlack(Graft(q, base), s);
  }

  lemma SuccessorRegion<N>(p: Path<N>, t: Shape<N>, q: Path<N>, s: Shape<N>)
    requires t.Node? && Plug(q, s) == t.right && NoRepeats(t)
    ensures PathNodes(Graft(q, RightOf(t.color, t.node, t.left, p))) + Nodes(s) == PathNodes(p) + Nodes(t)
    ensures t.node !in PathNodes(q)
  {
    RenamedNodes(q, t.color, t.left, t.node, p);
    PlugNodes(q, s);
  }

  /** The state once the successor, now called `s.node`, stands in the removed node's place. */
  lemma SuccessorMovedBalance<N>(p: Path<N>, t: Shape<N>, q: Path<N>, s: Shape<N>)
    requires t.Node? && Plug(q, s) == t.right && Balanced(t) && Fits(p, t) && s.Node? && s.left.Leaf?
    ensures var p', c := Graft(q, RightOf(t.color, s.node, t.left, p)), s.right;
      if s.color == Black then Deficit(p', c) else Balanced(c) && Fits(p', c)
  {
    var c := s.right;
    SuccessorBalance(p, t, q, s);
    OnlyChildRemoved(Graft(q, RightOf(t.color, t.node, t.left, p)), s, c);
    RenamedBalance(q, t.color, t.left, t.node, s.node, p, if s.color == Black then BlackHeight(c) + 1 else BlackHeight(c));
  }

  lemma SuccessorMovedOrder<N>(p: Path<N>, t: Shape<N>, q: Path<N>, s: Shape<N>)
    requires t.Node? && Plug(q, s) == t.right && s.Node? && s.left.Leaf? && Before(q) == [] && Apart(p, t)
    ensures var p', c := Graft(q, RightOf(t.color, s.node, t.left, p)), s.right;
      && PathNodes(p') + Nodes(c) == PathNodes(p) + Nodes(t) - {t.node}
      && OneRemoved(Whole(p, t), t.node, Whole(p', c))
  {
    var base', c := RightOf(t.color, s.node, t.left, p), s.right;
    var t' := Node(t.color, t.left, s.node, Plug(q, c));
    SuccessorOrder(p, t, q, s);
    SuccessorNodes(p, t, q, s);
    GraftPlug(q, base', c);
    PlugInorder(Graft(q, base'), c);
    PlugInorder(p, t');
    PlugNodes(Graft(q, base'), c);
    PlugNodes(p, t');
    assert Plug(Graft(q, base'), c) == Plug(p, t');
  }

  // ----- height -----

  function Max(a: nat, b: nat): nat { if a < b then b else a }

  function Height<N>(t: Shape<N>): nat {
    if t.Leaf? then 0 else 1 + Max(Height(t.left), Height(t.right))
  }

  lemma {:induction false} HeightByBlackHeight<N>(t: Shape<N>)
    requires Balanced(t)
    ensures Height(t) <= 2 * BlackHeight(t) + (if IsRed(t) then 1 else 0)
    ensures |Inorder(t)| + 1 >= Pow2(BlackHeight(t))
  {
    if t.Node? {
      HeightByBlackHeight(t.left);
      HeightByBlackHeight(t.right);
    }
  }

  lemma {:induction false} Pow2Add(a: nat, b: nat)
    ensures Pow2(a + b) == Pow2(a) * Pow2(b)
  {
    if a > 0 {
      Pow2Add(a - 1, b);
      assert Pow2(a + b) == 2 * Pow2(a - 1 + b);
    }
  }

  lemma {:induction false} Pow2Monotone(a: nat, b: nat)
    requires a <= b
    ensures 1 <= Pow2(a) <= Pow2(b)
    decreases b
  {
    if a < b {
      Pow2Monotone(a, b - 1);
    } else if a > 0 {
      Pow2Monotone(a - 1, b - 1);
    }
  }

  /** The height h of a red-black tree of n nodes is at most 2 lg (n+1), that is 2^h <= (n+1)^2. */
  lemma HeightBound<N>(t: Shape<N>)
    requires RedBlack(t)
    ensures Pow2(Height(t)) <= (|Inorder(t)| + 1) * (|Inorder(t)| + 1)
  {
    HeightByBlackHeight(t);
    Pow2Monotone(Height(t), BlackHeight(t) + BlackHeight(t));
    Pow2Add(BlackHeight(t), BlackHeight(t));
    SquareMonotone(Pow2(BlackHeight(t)), |Inorder(t)| + 1);
  }

  lemma SquareMonotone(a: nat, b: nat)
    requires a <= b
    ensures a * a <= b * b
  {
    assert a * a <= a * b <= b * b;
  }
}
