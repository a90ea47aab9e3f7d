/** The abstract shape of a red-black tree: which node object sits where, and in what colour.
    A position in the tree is a subtree together with the path that leads up from it, so that a
    loop climbing by parent pointers is a walk along such a path. */
module RbShape {

  datatype Color = Red | Black

  /** One node of a tree, or the sentinel. No operation of the tree ever writes the key. */
  class RbNode<K> {
    var parent: RbNode<K>
    var left: RbNode<K>
    var right: RbNode<K>
    const key: K
    var color: Color

    /** A black node linked to itself: the sentinel, or a node not yet handed to a tree. */
    constructor (key: K)
      ensures this.key == key && color == Black
      ensures parent == left == right == this
    {
      parent, left, right, color := this, this, this, Black;
      this.key := key;
    }
  }

  datatype Tree<!K> = Leaf | Bin(left: Tree<K>, node: RbNode<K>, color: Color, right: Tree<K>)

  /** The way up from a subtree: InLeft means that the subtree hangs to the left of `node`. */
  datatype Path<!K> =
    | Top
    | InLeft(node: RbNode<K>, color: Color, sibling: Tree<K>, up: Path<K>)
    | InRight(sibling: Tree<K>, node: RbNode<K>, color: Color, up: Path<K>)

  function RootOf<K>(t: Tree<K>, nil: RbNode<K>): RbNode<K> {
    match t
    case Leaf => nil
    case Bin(_, n, _, _) => n
  }

  function ParentOf<K>(path: Path<K>, nil: RbNode<K>): RbNode<K> {
    if path.Top? then nil else path.node
  }

  /** Fills the hole of `path` with `t`. */
  function Plug<K>(path: Path<K>, t: Tree<K>): Tree<K>
    decreases path
  {
    match path
    case Top => t
    case InLeft(n, c, sibling, up) => Plug(up, Bin(t, n, c, sibling))
    case InRight(sibling, n, c, up) => Plug(up, Bin(sibling, n, c, t))
  }

  /** One step up: the subtree whose root is the node at the end of `path`. */
  function Join<K>(path: Path<K>, t: Tree<K>): (joined: Tree<K>)
    requires !path.Top?
    ensures Plug(path.up, joined) == Plug(path, t)
  {
    if path.InLeft? then Bin(t, path.node, path.color, path.sibling) else Bin(path.sibling, path.node, path.color, t)
  }

  /** The path to the sibling, when `t` hangs from `path`. */
  function Beside<K>(path: Path<K>, t: Tree<K>): (beside: Path<K>)
    requires !path.Top?
    ensures Plug(beside, path.sibling) == Plug(path, t)
  {
    if path.InLeft? then InRight(t, path.node, path.color, path.up) else InLeft(path.node, path.color, t, path.up)
  }

  /** The path with another sibling, or another colour, at its end. */
  function WithSibling<K>(path: Path<K>, sibling: Tree<K>): Path<K>
    requires !path.Top?
  {
    match path
    case InLeft(n, c, _, up) => InLeft(n, c, sibling, up)
    case InRight(_, n, c, up) => InRight(sibling, n, c, up)
  }

  function WithColor<K>(path: Path<K>, color: Color): Path<K>
    requires !path.Top?
  {
    match path
    case InLeft(n, _, sibling, up) => InLeft(n, color, sibling, up)
    case InRight(sibling, n, _, up) => InRight(sibling, n, color, up)
  }

  function Inorder<K>(t: Tree<K>): seq<RbNode<K>> {
    match t
    case Leaf => []
    case Bin(l, n, _, r) => Inorder(l) + [n] + Inorder(r)
  }

  /** The nodes that precede, and those that follow, the hole of a path. */
  function Before<K>(path: Path<K>): seq<RbNode<K>> {
    match path
    case Top => []
    case InLeft(_, _, _, up) => Before(up)
    case InRight(sibling, n, _, up) => Before(up) + Inorder(sibling) + [n]
  }

  function After<K>(path: Path<K>): seq<RbNode<K>> {
    match path
    case Top => []
    case InLeft(n, _, sibling, up) => [n] + Inorder(sibling) + After(up)
    case InRight(_, _, _, up) => After(up)
  }

  lemma {:induction false} Regroup<T>(a: seq<T>, b: seq<T>, c: seq<T>, d: seq<T>, e: seq<T>)
    ensures a + (b + c + d) + e == a + b + (c + d + e)
    ensures a + (b + c + d) + e == (a + b + c) + d + e
    ensures a + (b + c + d) + e == (a + b) + c + (d + e)
    ensures c + d + e == c + (d + e)
  {
  }

  lemma {:induction false} InorderPlug<K>(path: Path<K>, t: Tree<K>)
    ensures Inorder(Plug(path, t)) == Before(path) + Inorder(t) + After(path)
    decreases path
  {
    match path
    case Top =>
    case InLeft(n, c, sibling, up) =>
      InorderPlug(up, Bin(t, n, c, sibling));
      Regroup(Before(up), Inorder(t), [n], Inorder(sibling), After(up));
    case InRight(sibling, n, c, up) =>
      InorderPlug(up, Bin(sibling, n, c, t));
      Regroup(Before(up), Inorder(sibling), [n], Inorder(t), After(up));
  }

  // ----- No node occurs twice -----

  function Nodes<K>(t: Tree<K>): set<RbNode<K>> {
    match t
    case Leaf => {}
    case Bin(l, n, _, r) => Nodes(l) + {n} + Nodes(r)
  }

  function PathNodes<K>(path: Path<K>): set<RbNode<K>> {
    match path
    case Top => {}
    case InLeft(n, _, sibling, up) => Nodes(sibling) + {n} + PathNodes(up)
    case InRight(sibling, n, _, up) => Nodes(sibling) + {n} + PathNodes(up)
  }

  ghost predicate Separate<K>(t: Tree<K>) {
    match t
    case Leaf => true
    case Bin(l, n, _, r) =>
      && Separate(l) && Separate(r)
      && n !in Nodes(l) && n !in Nodes(r) && Nodes(l) !! Nodes(r)
  }

  ghost predicate PathSeparate<K>(path: Path<K>) {
    match path
    case Top => true
    case InLeft(n, _, sibling, up) =>
      && Separate(sibling) && PathSeparate(up)
      && n !in Nodes(sibling) && n !in PathNodes(up) && Nodes(sibling) !! PathNodes(up)
    case InRight(sibling, n, _, up) =>
      && Separate(sibling) && PathSeparate(up)
      && n !in Nodes(sibling) && n !in PathNodes(up) && Nodes(sibling) !! PathNodes(up)
  }

  ghost predicate Apart<K>(path: Path<K>, t: Tree<K>, nil: RbNode<K>) {
    && nil !in Nodes(t) && nil !in PathNodes(path)
    && Separate(t) && PathSeparate(path) && Nodes(t) !! PathNodes(path)
  }

  // ----- The fields of the node objects agree with the shape -----

  datatype Fields<!K> = Fields(parent: RbNode<K>, left: RbNode<K>, right: RbNode<K>, color: Color)

  /** The fields of a set of nodes at one moment. */
  type Snapshot<!K> = map<RbNode<K>, Fields<K>>

  ghost predicate Linked<K>(h: Snapshot<K>, t: Tree<K>, parent: RbNode<K>, nil: RbNode<K>) {
    match t
    case Leaf => true
    case Bin(l, n, c, r) =>
      && n in h && h[n] == Fields(parent, RootOf(l, nil), RootOf(r, nil), c)
      && Linked(h, l, n, nil) && Linked(h, r, n, nil)
  }

  ghost predicate PathLinked<K>(h: Snapshot<K>, path: Path<K>, child: RbNode<K>, nil: RbNode<K>) {
    match path
    case Top => true
    case InLeft(n, c, sibling, up) =>
      && n in h && h[n] == Fields(ParentOf(up, nil), child, RootOf(sibling, nil), c)
      && Linked(h, sibling, n, nil) && PathLinked(h, up, n, nil)
    case InRight(sibling, n, c, up) =>
      && n in h && h[n] == Fields(ParentOf(up, nil), RootOf(sibling, nil), child, c)
      && Linked(h, sibling, n, nil) && PathLinked(h, up, n, nil)
  }

  /** The node at the very top when the hole of `path` holds `child`. */
  function TopNode<K>(path: Path<K>, child: RbNode<K>): RbNode<K> {
    match path
    case Top => child
    case InLeft(n, _, _, up) => TopNode(up, n)
    case InRight(_, n, _, up) => TopNode(up, n)
  }

  lemma {:induction false} TopNodeOnPath<K>(path: Path<K>, child: RbNode<K>)
    ensures TopNode(path, child) in PathNodes(path) + {child}
    ensures !path.Top? ==> TopNode(path, child) in PathNodes(path)
  {
    if !path.Top? {
      TopNodeOnPath(path.up, path.node);
    }
  }

  ghost predicate Agree<K>(g: Snapshot<K>, h: Snapshot<K>, s: set<RbNode<K>>) {
    forall n | n in s && n in g :: n in h && h[n] == g[n]
  }

  lemma {:induction false} Frame<K>(g: Snapshot<K>, h: Snapshot<K>, t: Tree<K>, parent: RbNode<K>, nil: RbNode<K>)
    requires Linked(g, t, parent, nil) && Agree(g, h, Nodes(t))
    ensures Linked(h, t, parent, nil)
  {
    match t
    case Leaf =>
    case Bin(l, n, _, r) =>
      Frame(g, h, l, n, nil);
      Frame(g, h, r, n, nil);
  }

  lemma {:induction false} FramePath<K>(g: Snapshot<K>, h: Snapshot<K>, path: Path<K>, child: RbNode<K>, nil: RbNode<K>)
    requires PathLinked(g, path, child, nil) && Agree(g, h, PathNodes(path))
    ensures PathLinked(h, path, child, nil)
  {
    match path
    case Top =>
    case InLeft(n, _, sibling, up) =>
      Frame(g, h, sibling, n, nil);
      FramePath(g, h, up, n, nil);
    case InRight(sibling, n, _, up) =>
      Frame(g, h, sibling, n, nil);
      FramePath(g, h, up, n, nil);
  }

  /** Only the root of `t` changed, and only its parent and its colour. */
  lemma {:induction false} Reparent<K>(g: Snapshot<K>, h: Snapshot<K>, t: Tree<K>, was: RbNode<K>, parent: RbNode<K>,
                                       nil: RbNode<K>)
    requires Separate(t) && Linked(g, t, was, nil)
    requires Agree(g, h, Nodes(t) - {RootOf(t, nil)})
    requires t.Bin? ==> t.node in h && h[t.node] == g[t.node].(parent := parent)
    ensures Linked(h, t, parent, nil)
  {
    if t.Bin? {
      Frame(g, h, t.left, t.node, nil);
      Frame(g, h, t.right, t.node, nil);
    }
  }

  /** Only the innermost node of `path` changed, and only the child that fills the hole. */
  lemma {:induction false} Rehang<K>(g: Snapshot<K>, h: Snapshot<K>, path: Path<K>, was: RbNode<K>, child: RbNode<K>,
                                     nil: RbNode<K>)
    requires PathSeparate(path) && PathLinked(g, path, was, nil)
    requires Agree(g, h, PathNodes(path) - {ParentOf(path, nil)})
    requires !path.Top? ==> path.node in h
    requires path.InLeft? ==> h[path.node] == g[path.node].(left := child)
    requires path.InRight? ==> h[path.node] == g[path.node].(right := child)
    ensures PathLinked(h, path, child, nil)
  {
    if !path.Top? {
      Frame(g, h, path.sibling, path.node, nil);
      FramePath(g, h, path.up, path.node, nil);
    }
  }

  /** The snapshot and the root pointer hold the tree Plug(path, t), seen from its subtree `t`. */
  ghost predicate Holds<K>(h: Snapshot<K>, root: RbNode<K>, path: Path<K>, t: Tree<K>, nil: RbNode<K>) {
    && Apart(path, t, nil)
    && Linked(h, t, ParentOf(path, nil), nil) && PathLinked(h, path, RootOf(t, nil), nil)
    && root == TopNode(path, RootOf(t, nil))
  }

  function Extent<K>(path: Path<K>, t: Tree<K>): set<RbNode<K>> {
    PathNodes(path) + Nodes(t)
  }

  // ----- The same tree, seen from the top or from a position inside it -----

  lemma {:induction false} PlugNodes<K>(path: Path<K>, t: Tree<K>)
    ensures Nodes(Plug(path, t)) == Extent(path, t)
    decreases path
  {
    match path
    case Top =>
    case InLeft(n, c, sibling, up) => PlugNodes(up, Bin(t, n, c, sibling));
    case InRight(sibling, n, c, up) => PlugNodes(up, Bin(sibling, n, c, t));
  }

  lemma {:induction false} Focus<K>(h: Snapshot<K>, root: RbNode<K>, path: Path<K>, t: Tree<K>, nil: RbNode<K>)
    ensures Holds(h, root, path, t, nil) <==> Holds(h, root, Top, Plug(path, t), nil)
    decreases path
  {
    match path
    case Top =>
    case InLeft(n, c, sibling, up) => Focus(h, root, up, Bin(t, n, c, sibling), nil);
    case InRight(sibling, n, c, up) => Focus(h, root, up, Bin(sibling, n, c, t), nil);
  }

  // ----- Repainting one node -----

  lemma {:induction false} PaintHolds<K>(g: Snapshot<K>, h: Snapshot<K>, root: RbNode<K>, path: Path<K>,
                                         t: Tree<K>, color: Color, nil: RbNode<K>)
    requires Holds(g, root, path, t, nil) && t.Bin?
    requires t.node in h && h[t.node] == g[t.node].(color := color) && Agree(g, h, Extent(path, t) - {t.node})
    ensures Holds(h, root, path, t.(color := color), nil)
    ensures Extent(path, t.(color := color)) == Extent(path, t)
    ensures Inorder(Plug(path, t.(color := color))) == Inorder(Plug(path, t))
  {
    InorderPlug(path, t);
    InorderPlug(path, t.(color := color));
    assert t.node in Nodes(t);
    Frame(g, h, t.left, t.node, nil);
    Frame(g, h, t.right, t.node, nil);
    FramePath(g, h, path, t.node, nil);
  }

  // ----- Rotations -----

  function TurnLeft<K>(t: Tree<K>): (r: Tree<K>)
    requires t.Bin? && t.right.Bin?
  {
    Bin(Bin(t.left, t.node, t.color, t.right.left), t.right.node, t.right.color, t.right.right)
  }

  function TurnRight<K>(t: Tree<K>): (r: Tree<K>)
    requires t.Bin? && t.left.Bin?
  {
    Bin(t.left.left, t.left.node, t.left.color, Bin(t.left.right, t.node, t.color, t.right))
  }

  lemma {:induction false} TurnLeftInorder<K>(t: Tree<K>)
    requires t.Bin? && t.right.Bin?
    ensures Inorder(TurnLeft(t)) == Inorder(t)
  {
    var b := t.right;
    assert Inorder(t) == Inorder(t.left) + [t.node] + (Inorder(b.left) + [b.node] + Inorder(b.right));
  }

  lemma {:induction false} TurnLeftKeeps<K>(path: Path<K>, t: Tree<K>)
    requires t.Bin? && t.right.Bin?
    ensures Extent(path, TurnLeft(t)) == Extent(path, t)
    ensures Inorder(Plug(path, TurnLeft(t))) == Inorder(Plug(path, t))
  {
    TurnLeftInorder(t);
    InorderPlug(path, t);
    InorderPlug(path, TurnLeft(t));
    var b := t.right;
    assert Nodes(t) == Nodes(t.left) + {t.node} + (Nodes(b.left) + {b.node} + Nodes(b.right));
    assert Nodes(TurnLeft(t)) == (Nodes(t.left) + {t.node} + Nodes(b.left)) + {b.node} + Nodes(b.right);
  }

  lemma {:induction false} TurnRightKeeps<K>(path: Path<K>, t: Tree<K>)
    requires t.Bin? && t.left.Bin?
    ensures Extent(path, TurnRight(t)) == Extent(path, t)
    ensures Inorder(Plug(path, TurnRight(t))) == Inorder(Plug(path, t))
  {
    assert TurnLeft(TurnRight(t)) == t;
    TurnLeftKeeps(path, TurnRight(t));
  }

  /** The pointers that a left rotation at `x` rewrites: `y` rises, and `b` moves over. */
  ghost predicate LeftEffect<K>(g: Snapshot<K>, h: Snapshot<K>, x: RbNode<K>, y: RbNode<K>, b: RbNode<K>,
                                up: RbNode<K>) {
    && g.Keys == h.Keys && x in g && y in g
    && h[x] == g[x].(right := b, parent := y)
    && h[y] == g[y].(left := x, parent := up)
    && (b in g ==> h[b] == g[b].(parent := x))
    && (up in g ==> h[up] == if g[up].left == x then g[up].(left := y) else g[up].(right := y))
    && forall n | n in g && n != x && n != y && n != b && n != up :: h[n] == g[n]
  }

  ghost predicate RightEffect<K>(g: Snapshot<K>, h: Snapshot<K>, x: RbNode<K>, y: RbNode<K>, b: RbNode<K>,
                                 up: RbNode<K>) {
    && g.Keys == h.Keys && x in g && y in g
    && h[x] == g[x].(left := b, parent := y)
    && h[y] == g[y].(right := x, parent := up)
    && (b in g ==> h[b] == g[b].(parent := x))
    && (up in g ==> h[up] == if g[up].right == x then g[up].(right := y) else g[up].(left := y))
    && forall n | n in g && n != x && n != y && n != b && n != up :: h[n] == g[n]
  }

  /** Where the nodes of a left rotation are. */
  lemma {:induction false} AroundLeft<K>(h: Snapshot<K>, root: RbNode<K>, path: Path<K>, t: Tree<K>, nil: RbNode<K>)
    requires t.Bin? && t.right.Bin? && Holds(h, root, path, t, nil)
    ensures var s, x, y, b := Extent(path, t), t.node, t.right.node, RootOf(t.right.left, nil);
      && nil !in s && x in s && x in h && y in s - {x} && y in h
      && (path.Top? <==> root == x)
      && h[x] == Fields(ParentOf(path, nil), RootOf(t.left, nil), y, t.color)
      && h[y] == Fields(x, b, RootOf(t.right.right, nil), t.right.color)
      && (b == nil || b in s - {x, y})
      && (path.Top? || path.node in s - {x, y, b})
  {
    var b := t.right;
    TopNodeOnPath(path, t.node);
    assert Linked(h, b, t.node, nil) && Separate(b);
    assert b.node in Nodes(b);
    assert b.left.Bin? ==> b.left.node in Nodes(b.left);
  }

  lemma {:induction false} AroundRight<K>(h: Snapshot<K>, root: RbNode<K>, path: Path<K>, t: Tree<K>, nil: RbNode<K>)
    requires t.Bin? && t.left.Bin? && Holds(h, root, path, t, nil)
    ensures var s, x, y, b := Extent(path, t), t.node, t.left.node, RootOf(t.left.right, nil);
      && nil !in s && x in s && x in h && y in s - {x} && y in h
      && (path.Top? <==> root == x)
      && h[x] == Fields(ParentOf(path, nil), y, RootOf(t.right, nil), t.color)
      && h[y] == Fields(x, RootOf(t.left.left, nil), b, t.left.color)
      && (b == nil || b in s - {x, y})
      && (path.Top? || path.node in s - {x, y, b})
  {
    var b := t.left;
    TopNodeOnPath(path, t.node);
    assert Linked(h, b, t.node, nil) && Separate(b);
    assert b.node in Nodes(b);
    assert b.right.Bin? ==> b.right.node in Nodes(b.right);
  }

  lemma {:induction false} TurnLeftLinked<K>(g: Snapshot<K>, h: Snapshot<K>, path: Path<K>, t: Tree<K>, nil: RbNode<K>)
    requires t.Bin? && t.right.Bin? && Apart(path, t, nil) && nil !in g
    requires Linked(g, t, ParentOf(path, nil), nil) && PathLinked(g, path, t.node, nil)
    requires LeftEffect(g, h, t.node, t.right.node, RootOf(t.right.left, nil), ParentOf(path, nil))
    ensures Linked(h, TurnLeft(t), ParentOf(path, nil), nil) && PathLinked(h, path, t.right.node, nil)
  {
    var a, x, b, y, c := t.left, t.node, t.right.left, t.right.node, t.right.right;
    assert Linked(g, t.right, x, nil) && Separate(t.right);
    assert b.Bin? ==> b.node in Nodes(b);
    assert !path.Top? ==> path.node in PathNodes(path);
    var changed := {x, y, RootOf(b, nil), ParentOf(path, nil)};
    assert forall n | n in g && n !in changed :: h[n] == g[n];
    assert Linked(h, a, x, nil) by {
      assert Nodes(a) !! changed;
      Frame(g, h, a, x, nil);
    }
    assert Linked(h, c, y, nil) by {
      assert Nodes(c) !! changed;
      Frame(g, h, c, y, nil);
    }
    assert Linked(h, b, x, nil) by {
      assert (Nodes(b) - {RootOf(b, nil)}) !! changed;
      Reparent(g, h, b, y, x, nil);
    }
    assert PathLinked(h, path, y, nil) by {
      assert (PathNodes(path) - {ParentOf(path, nil)}) !! changed;
      Rehang(g, h, path, x, y, nil);
    }
    assert Linked(h, Bin(a, x, t.color, b), y, nil);
  }

  lemma {:induction false} TurnRightLinked<K>(g: Snapshot<K>, h: Snapshot<K>, path: Path<K>, t: Tree<K>, nil: RbNode<K>)
    requires t.Bin? && t.left.Bin? && Apart(path, t, nil) && nil !in g
    requires Linked(g, t, ParentOf(path, nil), nil) && PathLinked(g, path, t.node, nil)
    requires RightEffect(g, h, t.node, t.left.node, RootOf(t.left.right, nil), ParentOf(path, nil))
    ensures Linked(h, TurnRight(t), ParentOf(path, nil), nil) && PathLinked(h, path, t.left.node, nil)
  {
    var a, y, b, x, c := t.left.left, t.left.node, t.left.right, t.node, t.right;
    assert Linked(g, t.left, x, nil) && Separate(t.left);
    assert b.Bin? ==> b.node in Nodes(b);
    assert !path.Top? ==> path.node in PathNodes(path);
    var changed := {x, y, RootOf(b, nil), ParentOf(path, nil)};
    assert forall n | n in g && n !in changed :: h[n] == g[n];
    assert Linked(h, a, y, nil) by {
      assert Nodes(a) !! changed;
      Frame(g, h, a, y, nil);
    }
    assert Linked(h, c, x, nil) by {
      assert Nodes(c) !! changed;
      Frame(g, h, c, x, nil);
    }
    assert Linked(h, b, x, nil) by {
      assert (Nodes(b) - {RootOf(b, nil)}) !! changed;
      Reparent(g, h, b, y, x, nil);
    }
    assert PathLinked(h, path, y, nil) by {
      assert (PathNodes(path) - {ParentOf(path, nil)}) !! changed;
      Rehang(g, h, path, x, y, nil);
    }
    assert Linked(h, Bin(b, x, t.color, c), y, nil);
  }

  /** Two ways to say that five parts are apart. */
  lemma {:induction false} ApartEitherWay<T>(a: set<T>, x: T, b: set<T>, y: T, c: set<T>)
    ensures x !in a && x !in b + {y} + c && a !! b + {y} + c && y !in b && y !in c && b !! c <==>
      y !in a + {x} + b && y !in c && a + {x} + b !! c && x !in a && x !in b && a !! b
  {
  }

  lemma {:induction false} TurnLeftSeparate<K>(t: Tree<K>)
    requires t.Bin? && t.right.Bin?
    ensures Separate(t) <==> Separate(TurnLeft(t))
  {
    var a, b, c, x, y := t.left, t.right.left, t.right.right, t.node, t.right.node;
    ApartEitherWay(Nodes(a), x, Nodes(b), y, Nodes(c));
    assert Separate(t.right) <==>
      Separate(b) && Separate(c) && y !in Nodes(b) && y !in Nodes(c) && Nodes(b) !! Nodes(c);
    assert Separate(TurnLeft(t).left) <==>
      Separate(a) && Separate(b) && x !in Nodes(a) && x !in Nodes(b) && Nodes(a) !! Nodes(b);
  }

  lemma {:induction false} TurnLeftApart<K>(path: Path<K>, t: Tree<K>, nil: RbNode<K>)
    requires t.Bin? && t.right.Bin?
    ensures Apart(path, t, nil) <==> Apart(path, TurnLeft(t), nil)
  {
    hide Separate, PathSeparate;
    TurnLeftKeeps(path, t);
    TurnLeftSeparate(t);
    assert Nodes(TurnLeft(t)) == Nodes(t);
  }

  lemma {:induction false} TurnLeftHolds<K>(g: Snapshot<K>, h: Snapshot<K>, root: RbNode<K>, newRoot: RbNode<K>,
                                            path: Path<K>, t: Tree<K>, nil: RbNode<K>)
    requires t.Bin? && t.right.Bin? && Holds(g, root, path, t, nil) && nil !in g
    requires LeftEffect(g, h, t.node, t.right.node, RootOf(t.right.left, nil), ParentOf(path, nil))
    requires newRoot == if path.Top? then t.right.node else root
    ensures Holds(h, newRoot, path, TurnLeft(t), nil)
  {
    TurnLeftApart(path, t, nil);
    TurnLeftLinked(g, h, path, t, nil);
  }

  lemma {:induction false} TurnRightHolds<K>(g: Snapshot<K>, h: Snapshot<K>, root: RbNode<K>, newRoot: RbNode<K>,
                                             path: Path<K>, t: Tree<K>, nil: RbNode<K>)
    requires t.Bin? && t.left.Bin? && Holds(g, root, path, t, nil) && nil !in g
    requires RightEffect(g, h, t.node, t.left.node, RootOf(t.left.right, nil), ParentOf(path, nil))
    requires newRoot == if path.Top? then t.left.node else root
    ensures Holds(h, newRoot, path, TurnRight(t), nil)
  {
    TurnLeftApart(path, TurnRight(t), nil);
    TurnRightLinked(g, h, path, t, nil);
  }

  // ----- Hanging a new node into an empty place, and taking a node with one child out -----

  lemma {:induction false} HookHolds<K>(g: Snapshot<K>, h: Snapshot<K>, root: RbNode<K>, newRoot: RbNode<K>,
                                        path: Path<K>, data: RbNode<K>, nil: RbNode<K>)
    requires Holds(g, root, path, Leaf, nil) && data !in Extent(path, Leaf) && data != nil
    requires data in h && h[data] == Fields(ParentOf(path, nil), nil, nil, Red)
    requires Agree(g, h, Extent(path, Leaf) - {ParentOf(path, nil)})
    requires !path.Top? ==> path.node in g && path.node in h
    requires path.InLeft? ==> h[path.node] == g[path.node].(left := data)
    requires path.InRight? ==> h[path.node] == g[path.node].(right := data)
    requires newRoot == if path.Top? then data else root
    ensures Holds(h, newRoot, path, Bin(Leaf, data, Red, Leaf), nil)
    ensures Extent(path, Bin(Leaf, data, Red, Leaf)) == Extent(path, Leaf) + {data}
  {
    Rehang(g, h, path, nil, data, nil);
  }

  /** The one subtree of a node that has at most one child. */
  function OnlyChild<K>(t: Tree<K>): Tree<K>
    requires t.Bin?
  {
    if t.left.Bin? then t.left else t.right
  }

  lemma {:induction false} SpliceHolds<K>(g: Snapshot<K>, h: Snapshot<K>, root: RbNode<K>, newRoot: RbNode<K>,
                                          path: Path<K>, t: Tree<K>, nil: RbNode<K>)
    requires t.Bin? && (t.left.Leaf? || t.right.Leaf?) && Holds(g, root, path, t, nil)
    requires var child := OnlyChild(t);
      && Agree(g, h, Extent(path, child) - {RootOf(child, nil), ParentOf(path, nil)})
      && (child.Bin? ==>
            child.node in g && child.node in h && h[child.node] == g[child.node].(parent := ParentOf(path, nil)))
      && (!path.Top? ==> path.node in h)
      && (path.InLeft? ==> h[path.node] == g[path.node].(left := RootOf(child, nil)))
      && (path.InRight? ==> h[path.node] == g[path.node].(right := RootOf(child, nil)))
      && newRoot == if path.Top? then RootOf(child, nil) else root
    ensures Holds(h, newRoot, path, OnlyChild(t), nil)
    ensures Extent(path, OnlyChild(t)) == Extent(path, t) - {t.node}
  {
    var child := OnlyChild(t);
    assert Nodes(child) <= Nodes(t);
    assert child.Bin? ==> child.node in Nodes(child);
    assert !path.Top? ==> path.node in PathNodes(path);
    Reparent(g, h, child, t.node, ParentOf(path, nil), nil);
    Rehang(g, h, path, t.node, RootOf(child, nil), nil);
  }

  // ----- Two nodes trading places -----

  function Other<K>(n: RbNode<K>, d: RbNode<K>, m: RbNode<K>): RbNode<K> {
    if n == d then m else if n == m then d else n
  }

  /** The tree in which `d` and `m` have traded places; colours belong to places. */
  function Exchange<K>(t: Tree<K>, d: RbNode<K>, m: RbNode<K>): Tree<K> {
    match t
    case Leaf => Leaf
    case Bin(l, n, c, r) => Bin(Exchange(l, d, m), Other(n, d, m), c, Exchange(r, d, m))
  }

  function ExchangePath<K>(path: Path<K>, d: RbNode<K>, m: RbNode<K>): Path<K> {
    match path
    case Top => Top
    case InLeft(n, c, sibling, up) => InLeft(Other(n, d, m), c, Exchange(sibling, d, m), ExchangePath(up, d, m))
    case InRight(sibling, n, c, up) => InRight(Exchange(sibling, d, m), Other(n, d, m), c, ExchangePath(up, d, m))
  }

  lemma {:induction false} ExchangePlug<K>(path: Path<K>, t: Tree<K>, d: RbNode<K>, m: RbNode<K>)
    ensures Exchange(Plug(path, t), d, m) == Plug(ExchangePath(path, d, m), Exchange(t, d, m))
    decreases path
  {
    match path
    case Top =>
    case InLeft(n, c, sibling, up) => ExchangePlug(up, Bin(t, n, c, sibling), d, m);
    case InRight(sibling, n, c, up) => ExchangePlug(up, Bin(sibling, n, c, t), d, m);
  }

  lemma {:induction false} ExchangeNodes<K>(t: Tree<K>, d: RbNode<K>, m: RbNode<K>)
    ensures forall n | n in Nodes(Exchange(t, d, m)) :: Other(n, d, m) in Nodes(t)
    ensures forall n | n in Nodes(t) :: Other(n, d, m) in Nodes(Exchange(t, d, m))
  {
    if t.Bin? {
      ExchangeNodes(t.left, d, m);
      ExchangeNodes(t.right, d, m);
    }
  }

  lemma {:induction false} ExchangeSameNodes<K>(t: Tree<K>, d: RbNode<K>, m: RbNode<K>)
    requires d in Nodes(t) && m in Nodes(t)
    ensures Nodes(Exchange(t, d, m)) == Nodes(t)
  {
    ExchangeNodes(t, d, m);
    forall n | n in Nodes(t)
      ensures n in Nodes(Exchange(t, d, m))
    {
      assert Other(Other(n, d, m), d, m) == n && Other(n, d, m) in Nodes(t);
    }
    forall n | n in Nodes(Exchange(t, d, m))
      ensures n in Nodes(t)
    {
      assert Other(n, d, m) in Nodes(t);
    }
  }

  lemma {:induction false} ExchangeSeparate<K>(t: Tree<K>, d: RbNode<K>, m: RbNode<K>)
    requires Separate(t)
    ensures Separate(Exchange(t, d, m))
  {
    if t.Bin? {
      ExchangeSeparate(t.left, d, m);
      ExchangeSeparate(t.right, d, m);
      ExchangeNodes(t.left, d, m);
      ExchangeNodes(t.right, d, m);
      assert Other(Other(t.node, d, m), d, m) == t.node;
      forall n | n in Nodes(Exchange(t.left, d, m))
        ensures n !in Nodes(Exchange(t.right, d, m))
      {
        assert Other(n, d, m) in Nodes(t.left);
      }
    }
  }

  function Traded<K>(f: Fields<K>, d: RbNode<K>, m: RbNode<K>): Fields<K> {
    Fields(Other(f.parent, d, m), Other(f.left, d, m), Other(f.right, d, m), f.color)
  }

  /** Every pointer to `d` now leads to `m` and the other way round, and the two swapped their fields. */
  ghost predicate ExchangeEffect<K>(g: Snapshot<K>, h: Snapshot<K>, d: RbNode<K>, m: RbNode<K>) {
    forall n | n in g ::
      && Other(n, d, m) in h
      && h[Other(n, d, m)] == Traded(g[n], d, m)
  }

  lemma {:induction false} ExchangeLinked<K>(g: Snapshot<K>, h: Snapshot<K>, t: Tree<K>, parent: RbNode<K>,
                                             d: RbNode<K>, m: RbNode<K>, nil: RbNode<K>)
    requires Linked(g, t, parent, nil) && ExchangeEffect(g, h, d, m) && nil != d && nil != m
    ensures Linked(h, Exchange(t, d, m), Other(parent, d, m), nil)
  {
    if t.Bin? {
      ExchangeLinked(g, h, t.left, t.node, d, m, nil);
      ExchangeLinked(g, h, t.right, t.node, d, m, nil);
    }
  }

  lemma {:induction false} ExchangeHolds<K>(g: Snapshot<K>, h: Snapshot<K>, root: RbNode<K>, t: Tree<K>,
                                            d: RbNode<K>, m: RbNode<K>, nil: RbNode<K>)
    requires Holds(g, root, Top, t, nil) && ExchangeEffect(g, h, d, m) && d in Nodes(t) && m in Nodes(t)
    ensures Holds(h, Other(root, d, m), Top, Exchange(t, d, m), nil)
    ensures Nodes(Exchange(t, d, m)) == Nodes(t)
  {
    ExchangeLinked(g, h, t, nil, d, m, nil);
    ExchangeSeparate(t, d, m);
    ExchangeSameNodes(t, d, m);
  }

  /** Who can point to a node: its parent from above, its children from below, and nobody else. */
  ghost predicate Mutual<K>(h: Snapshot<K>, s: set<RbNode<K>>, top: RbNode<K>, nil: RbNode<K>) {
    forall n | n in s ::
      && n in h
      && (h[n].left != nil ==> h[n].left in h && h[n].left in s && h[h[n].left].parent == n)
      && (h[n].right != nil ==> h[n].right in h && h[n].right in s && h[h[n].right].parent == n)
      && h[n].parent != n && (h[n].left == h[n].right ==> h[n].left == nil)
      && (n != top ==> h[n].parent in h && h[n].parent in s && (h[h[n].parent].left == n || h[h[n].parent].right == n))
  }

  lemma {:induction false} LinksAreMutual<K>(h: Snapshot<K>, t: Tree<K>, parent: RbNode<K>, nil: RbNode<K>)
    requires Linked(h, t, parent, nil) && Separate(t) && nil !in Nodes(t) && parent !in Nodes(t)
    ensures Mutual(h, Nodes(t), RootOf(t, nil), nil)
  {
    if t.Bin? {
      LinksAreMutual(h, t.left, t.node, nil);
      LinksAreMutual(h, t.right, t.node, nil);
      assert t.left.Bin? ==> t.left.node in Nodes(t.left);
      assert t.right.Bin? ==> t.right.node in Nodes(t.right);
    }
  }
}
