/** The colour rules: what makes a shape a red-black tree, what a path demands of the subtree
    that hangs from it, and how few nodes a tree of a given depth can have. */
module RbBalance {
  import opened RbShape

  function ColorOf<K>(t: Tree<K>): Color {
    if t.Leaf? then Black else t.color
  }

  /** No red node has a red child, and every way down passes `h` black nodes. */
  ghost predicate Balanced<K>(t: Tree<K>, h: nat) {
    match t
    case Leaf => h == 0
    case Bin(l, _, Red, r) => ColorOf(l) == Black && ColorOf(r) == Black && Balanced(l, h) && Balanced(r, h)
    case Bin(l, _, Black, r) => h > 0 && Balanced(l, h - 1) && Balanced(r, h - 1)
  }

  ghost predicate RedBlack<K>(t: Tree<K>) {
    ColorOf(t) == Black && exists h: nat :: Balanced(t, h)
  }

  /** The path turns any balanced subtree of black height `h`, red at its root only if `color` is Red,
      into a red-black tree. */
  ghost predicate Accepts<K>(path: Path<K>, color: Color, h: nat)
    decreases path
  {
    match path
    case Top => color == Black
    case InLeft(_, c, sibling, up) =>
      && Balanced(sibling, h)
      && if c == Red
         then color == Black && ColorOf(sibling) == Black && Accepts(up, Red, h)
         else Accepts(up, Black, h + 1)
    case InRight(sibling, _, c, up) =>
      && Balanced(sibling, h)
      && if c == Red
         then color == Black && ColorOf(sibling) == Black && Accepts(up, Red, h)
         else Accepts(up, Black, h + 1)
  }

  lemma {:induction false} AcceptsBlack<K>(path: Path<K>, h: nat)
    requires Accepts(path, Red, h)
    ensures Accepts(path, Black, h)
  {
  }

  lemma {:induction false} PlugRedBlack<K>(path: Path<K>, t: Tree<K>, h: nat)
    requires Balanced(t, h) && Accepts(path, ColorOf(t), h)
    ensures RedBlack(Plug(path, t))
    decreases path
  {
    match path
    case Top =>
    case InLeft(n, c, sibling, up) =>
      if ColorOf(t) == Red { AcceptsBlack(path, h); }
      PlugRedBlack(up, Bin(t, n, c, sibling), if c == Red then h else h + 1);
    case InRight(sibling, n, c, up) =>
      if ColorOf(t) == Red { AcceptsBlack(path, h); }
      PlugRedBlack(up, Bin(sibling, n, c, t), if c == Red then h else h + 1);
  }

  /** In a red-black tree every path accepts the subtree that hangs from it. */
  lemma {:induction false} SubtreeAccepted<K>(path: Path<K>, t: Tree<K>) returns (h: nat)
    requires RedBlack(Plug(path, t))
    ensures Balanced(t, h) && Accepts(path, ColorOf(t), h)
    decreases path
  {
    match path
    case Top =>
      h :| Balanced(t, h);
    case InLeft(n, c, sibling, up) =>
      var g := SubtreeAccepted(up, Bin(t, n, c, sibling));
      h := if c == Red then g else g - 1;
    case InRight(sibling, n, c, up) =>
      var g := SubtreeAccepted(up, Bin(sibling, n, c, t));
      h := if c == Red then g else g - 1;
  }

  /** What red-black means, node by node: a black root, and no red node with a red child. */
  lemma {:induction false} RedBlackMeans<K>(path: Path<K>, t: Tree<K>)
    requires RedBlack(Plug(path, t)) && t.Bin?
    ensures path.Top? ==> t.color == Black
    ensures t.color == Red ==> (t.left.Bin? ==> t.left.color == Black) && (t.right.Bin? ==> t.right.color == Black)
    ensures t.color == Red && !path.Top? ==> path.color == Black
  {
    var h := SubtreeAccepted(path, t);
  }

  /** What is left to do once a red subtree has no red parent: its root, if it is the whole tree, turns black. */
  lemma {:induction false} BlackRoot<K>(path: Path<K>, t: Tree<K>, h: nat)
    requires t.Bin? && t.color == Red && Balanced(t, h) && Accepts(path, Black, h)
    requires !path.Top? ==> path.color == Black
    ensures Plug(path, t).Bin? && RedBlack(Plug(path, t).(color := Black))
  {
    if path.Top? {
      assert Balanced(t.(color := Black), h + 1);
    } else {
      PlugRedBlack(path, t, h);
      PlugIsBin(path, t);
      assert Plug(path, t).(color := Black) == Plug(path, t);
    }
  }

  lemma {:induction false} PlugIsBin<K>(path: Path<K>, t: Tree<K>)
    requires t.Bin?
    ensures Plug(path, t).Bin?
    decreases path
  {
    if !path.Top? { PlugIsBin(path.up, Join(path, t)); }
  }

  /** What is left to do once a node with at most one child has been taken out. */
  lemma {:induction false} AfterUnlink<K>(path: Path<K>, t: Tree<K>, h: nat)
    requires t.Bin? && (t.left.Leaf? || t.right.Leaf?) && Balanced(t, h) && Accepts(path, t.color, h)
    ensures var child := OnlyChild(t);
      && (t.color == Red ==> RedBlack(Plug(path, child)))
      && (t.color == Black && ColorOf(child) == Red ==> RedBlack(Plug(path, child.(color := Black))))
      && (t.color == Black && ColorOf(child) == Black ==> h > 0 && Balanced(child, h - 1) && Accepts(path, Black, h))
  {
    var child := OnlyChild(t);
    if t.color == Red {
      AcceptsBlack(path, h);
      PlugRedBlack(path, child, h);
    } else if ColorOf(child) == Red {
      assert Balanced(child, h - 1);
      PlugRedBlack(path, child.(color := Black), h);
    }
  }

  // ----- The rotations that make good a missing black node -----

  lemma {:induction false} StraightenedLeft<K>(s: Tree<K>, h: nat)
    requires s.Bin? && s.color == Black && Balanced(s, h + 1)
    requires ColorOf(s.right) == Red && ColorOf(s.left) == Black
    ensures var r := TurnLeft(s.(color := Red, right := s.right.(color := Black)));
      Balanced(r, h + 1) && r.color == Black && ColorOf(r.left) == Red
  {
    assert Balanced(s.right, h) && Balanced(s.right.left, h) && Balanced(s.right.right, h);
    assert Balanced(Bin(s.left, s.node, Red, s.right.left), h);
  }

  lemma {:induction false} StraightenedRight<K>(s: Tree<K>, h: nat)
    requires s.Bin? && s.color == Black && Balanced(s, h + 1)
    requires ColorOf(s.left) == Red && ColorOf(s.right) == Black
    ensures var r := TurnRight(s.(color := Red, left := s.left.(color := Black)));
      Balanced(r, h + 1) && r.color == Black && ColorOf(r.right) == Red
  {
    assert Balanced(s.left, h) && Balanced(s.left.left, h) && Balanced(s.left.right, h);
    assert Balanced(Bin(s.left.right, s.node, Red, s.right), h);
  }

  /** `u` is what RotateAndExchange makes of the short subtree `t`, its parent and its sibling `s`. */
  lemma {:induction false} MadeGoodLeft<K>(t: Tree<K>, n: RbNode<K>, c: Color, s: Tree<K>, h: nat)
    requires Balanced(t, h) && s.Bin? && s.color == Black && Balanced(s, h + 1) && ColorOf(s.right) == Red
    ensures Balanced(Bin(Bin(t, n, Black, s.left), s.node, c, s.right.(color := Black)),
                     if c == Red then h + 1 else h + 2)
  {
    assert Balanced(s.left, h) && Balanced(s.right, h);
    assert Balanced(Bin(t, n, Black, s.left), h + 1) && Balanced(s.right.(color := Black), h + 1);
  }

  lemma {:induction false} MadeGoodRight<K>(t: Tree<K>, n: RbNode<K>, c: Color, s: Tree<K>, h: nat)
    requires Balanced(t, h) && s.Bin? && s.color == Black && Balanced(s, h + 1) && ColorOf(s.left) == Red
    ensures Balanced(Bin(s.left.(color := Black), s.node, c, Bin(s.right, n, Black, t)),
                     if c == Red then h + 1 else h + 2)
  {
    assert Balanced(s.left, h) && Balanced(s.right, h);
    assert Balanced(Bin(s.right, n, Black, t), h + 1) && Balanced(s.left.(color := Black), h + 1);
  }

  // ----- The same rules, stated path by path -----

  /** `way` (true for left) leads from the root of `t` to an empty place. */
  ghost predicate WayDown<K>(t: Tree<K>, way: seq<bool>) {
    match t
    case Leaf => way == []
    case Bin(l, _, _, r) => way != [] && WayDown(if way[0] then l else r, way[1..])
  }

  function BlackNodes<K>(t: Tree<K>, way: seq<bool>): nat {
    match t
    case Leaf => 0
    case Bin(l, _, c, r) =>
      (if c == Black then 1 else 0) + if way == [] then 0 else BlackNodes(if way[0] then l else r, way[1..])
  }

  lemma {:induction false} EqualBlackCounts<K>(t: Tree<K>, h: nat, way: seq<bool>)
    requires Balanced(t, h) && WayDown(t, way)
    ensures BlackNodes(t, way) == h
  {
    match t
    case Leaf =>
    case Bin(l, _, c, r) =>
      EqualBlackCounts(if way[0] then l else r, if c == Red then h else h - 1, way[1..]);
  }

  /** A way down is at most twice as long as its black nodes are many. */
  lemma {:induction false} NoWayIsLong<K>(t: Tree<K>, h: nat, way: seq<bool>)
    requires Balanced(t, h) && WayDown(t, way)
    ensures |way| <= 2 * h + if ColorOf(t) == Red then 1 else 0
  {
    match t
    case Leaf =>
    case Bin(l, _, c, r) =>
      NoWayIsLong(if way[0] then l else r, if c == Red then h else h - 1, way[1..]);
  }

  function Pow2(k: nat): (p: nat)
    ensures p >= 1
  {
    if k == 0 then 1 else 2 * Pow2(k - 1)
  }

  /** The powers of two, by their laws. */
  lemma {:induction false} Pow2Laws(a: nat, b: nat)
    ensures Pow2(0) == 1 && Pow2(1) == 2 && Pow2(a + b) == Pow2(a) * Pow2(b)
  {
    if a > 0 {
      Pow2Laws(a - 1, b);
      assert Pow2(a + b) == 2 * Pow2(a - 1 + b);
      assert 2 * (Pow2(a - 1) * Pow2(b)) == (2 * Pow2(a - 1)) * Pow2(b);
    }
  }

  lemma {:induction false} Pow2Monotone(j: nat, k: nat)
    requires j <= k
    ensures Pow2(j) <= Pow2(k)
  {
    if j < k { Pow2Monotone(j, k - 1); }
  }

  lemma {:induction false} ManyNodes<K>(t: Tree<K>, h: nat)
    requires Balanced(t, h)
    ensures |Inorder(t)| >= Pow2(h) - 1
  {
    match t
    case Leaf =>
    case Bin(l, _, c, r) =>
      var g := if c == Red then h else h - 1;
      ManyNodes(l, g);
      ManyNodes(r, g);
  }

  /** How many nodes lie on the path, and the bound on them that the colours give. */
  function Depth<K>(path: Path<K>): nat {
    if path.Top? then 0 else 1 + Depth(path.up)
  }

  function BlacksAbove<K>(path: Path<K>): nat {
    if path.Top? then 0 else (if path.color == Black then 1 else 0) + BlacksAbove(path.up)
  }

  lemma {:induction false} PathBlacks<K>(path: Path<K>, color: Color, h: nat)
    requires Accepts(path, color, h)
    ensures Depth(path) + (if color == Red then 1 else 0) <= 2 * BlacksAbove(path)
    decreases path
  {
    if !path.Top? {
      PathBlacks(path.up, path.color, if path.color == Red then h else h + 1);
    }
  }

  lemma {:induction false} PlugHeight<K>(path: Path<K>, t: Tree<K>, h: nat)
    requires Balanced(t, h) && Accepts(path, ColorOf(t), h)
    ensures Balanced(Plug(path, t), h + BlacksAbove(path))
    decreases path
  {
    if !path.Top? {
      var joined := if path.InLeft? then Bin(t, path.node, path.color, path.sibling)
        else Bin(path.sibling, path.node, path.color, t);
      PlugHeight(path.up, joined, if path.color == Red then h else h + 1);
    }
  }

  /** A search that has visited k nodes proves the tree to hold at least 2^ceil(k/2) - 1 of them. */
  lemma {:induction false} DeepTreesAreLarge<K>(path: Path<K>, t: Tree<K>, visited: nat)
    requires RedBlack(Plug(path, t)) && visited <= Depth(path) + if t.Bin? then 1 else 0
    ensures |Inorder(Plug(path, t))| >= Pow2((visited + 1) / 2) - 1
  {
    var h := SubtreeAccepted(path, t);
    PathBlacks(path, ColorOf(t), h);
    PlugHeight(path, t, h);
    ManyNodes(Plug(path, t), h + BlacksAbove(path));
    Pow2Monotone((visited + 1) / 2, h + BlacksAbove(path));
  }

  // ----- Trading places moves nodes, not colours -----

  lemma {:induction false} ExchangeBalanced<K>(t: Tree<K>, h: nat, d: RbNode<K>, m: RbNode<K>)
    ensures Balanced(Exchange(t, d, m), h) == Balanced(t, h) && ColorOf(Exchange(t, d, m)) == ColorOf(t)
  {
    if t.Bin? {
      if t.color == Red {
        ExchangeBalanced(t.left, h, d, m);
        ExchangeBalanced(t.right, h, d, m);
      } else if h > 0 {
        ExchangeBalanced(t.left, h - 1, d, m);
        ExchangeBalanced(t.right, h - 1, d, m);
      }
    }
  }

  lemma {:induction false} ExchangeRedBlack<K>(t: Tree<K>, d: RbNode<K>, m: RbNode<K>)
    requires RedBlack(t)
    ensures RedBlack(Exchange(t, d, m))
  {
    var h :| Balanced(t, h);
    ExchangeBalanced(t, h, d, m);
  }
}
