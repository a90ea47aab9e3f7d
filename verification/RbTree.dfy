/** The red-black tree itself: nodes on the heap, rotated, repainted and relinked in place. */
module RbTree {
  import opened RbShape
  import opened RbBalance
  import opened RbOrder

  class RbTree<K(!new)> {
    var root: RbNode<K>
    var count: nat
    const cmp: (K, K) -> int
    /** The empty node. Trees may share it, and none ever writes to it. */
    const nil: RbNode<K>
    /** The keys that this tree may be used with. */
    ghost const domain: iset<K>
    /** The tree that the heap holds. */
    ghost var tree: Tree<K>
    /** Its nodes. */
    ghost var nodes: set<RbNode<K>>
    /** Rotations performed so far. */
    ghost var rotations: nat

    ghost function FieldsOf(n: RbNode<K>): Fields<K>
      reads n
    {
      Fields(n.parent, n.left, n.right, n.color)
    }

    ghost function Now(s: set<RbNode<K>>): Snapshot<K>
      reads s
    {
      map n | n in s :: FieldsOf(n)
    }

    ghost predicate SentinelIntact()
      reads nil
    {
      nil.parent == nil.left == nil.right == nil && nil.color == Black
    }

    /** The pointers and colours in the heap are those of `tree`. */
    ghost predicate Intact()
      reads `root, `tree, `nodes, nil, nodes
    {
      nodes == Nodes(tree) && SentinelIntact() && Holds(Now(nodes), root, Top, tree, nil)
    }

    ghost predicate Valid()
      reads this, nil, nodes
    {
      Intact() && RedBlack(tree) && Ordered(cmp, domain, Inorder(tree)) && count == |Inorder(tree)|
    }

    constructor (cmp: (K, K) -> int, nil: RbNode<K>, ghost domain: iset<K>)
      requires TotalOrder(cmp, domain)
      requires nil.parent == nil.left == nil.right == nil && nil.color == Black
      ensures Valid() && tree == Leaf
      ensures this.cmp == cmp && this.nil == nil && this.domain == domain
    {
      this.cmp, this.nil, this.domain := cmp, nil, domain;
      root, count, tree, nodes, rotations := nil, 0, Leaf, {}, 0;
      new;
      assert Balanced(tree, 0);
    }

    // ----- Positions in the tree -----

    lemma {:induction false} Visit(path: Path<K>, t: Tree<K>)
      requires Intact() && tree == Plug(path, t)
      ensures Holds(Now(nodes), root, path, t, nil) && nodes == Extent(path, t)
    {
      PlugNodes(path, t);
      Focus(Now(nodes), root, path, t, nil);
    }

    lemma {:induction false} Settle(path: Path<K>, t: Tree<K>)
      requires SentinelIntact() && tree == Plug(path, t) && nodes == Extent(path, t)
      requires Holds(Now(nodes), root, path, t, nil)
      ensures Intact()
    {
      PlugNodes(path, t);
      Focus(Now(nodes), root, path, t, nil);
    }

    lemma {:induction false} NodesOfTree()
      requires Intact()
      ensures nodes == Nodes(tree) && nil !in nodes
    {
    }

    lemma {:induction false} Members()
      requires Intact()
      ensures forall n :: n in nodes <==> n in Inorder(tree)
      ensures nil !in Inorder(tree)
    {
      NodesAreInorder(tree);
    }

    /** What the pointers at a position are. */
    lemma {:induction false} Look(path: Path<K>, t: Tree<K>)
      requires Intact() && tree == Plug(path, t)
      ensures t.Bin? ==>
        && t.node in nodes && t.node != nil
        && t.node.left == RootOf(t.left, nil) && t.node.right == RootOf(t.right, nil)
        && t.node.parent == ParentOf(path, nil) && t.node.color == t.color
        && (root == t.node <==> path.Top?)
      ensures t.Leaf? ==> RootOf(t, nil) == nil
      ensures nil.left == nil && nil.right == nil && nil.color == Black
      ensures path.Top? ==> root == RootOf(t, nil)
    {
      Visit(path, t);
      TopNodeOnPath(path, RootOf(t, nil));
    }

    /** What the pointers around the parent of a position are. */
    lemma {:induction false} LookUp(path: Path<K>, t: Tree<K>)
      requires Intact() && tree == Plug(path, t) && !path.Top?
      ensures path.node in nodes && path.node != nil
      ensures path.node.parent == ParentOf(path.up, nil) && path.node.color == path.color
      ensures path.InLeft? ==> path.node.left == RootOf(t, nil) && path.node.right == RootOf(path.sibling, nil)
      ensures path.InRight? ==> path.node.right == RootOf(t, nil) && path.node.left == RootOf(path.sibling, nil)
      ensures path.sibling.Bin? ==>
        path.sibling.node in nodes && path.sibling.node != nil && path.sibling.node.color == path.sibling.color
      ensures t.Bin? || path.sibling.Bin? ==> RootOf(t, nil) != RootOf(path.sibling, nil)
      ensures path.sibling.Leaf? ==> RootOf(path.sibling, nil).color == Black
    {
      Visit(path, t);
      assert t.Bin? ==> t.node in Nodes(t);
      assert path.sibling.Bin? ==> path.sibling.node in Nodes(path.sibling);
    }

    /** What the pointers say about a node that sits at the end of `path`. */
    ghost predicate Around(path: Path<K>, node: RbNode<K>)
      reads this, node, ParentOf(path, nil)
    {
      && node != nil && node.parent == ParentOf(path, nil) && (root == node <==> path.Top?)
      && (!path.Top? ==>
            path.node != nil && path.node.color == path.color && path.node.parent == ParentOf(path.up, nil))
      && (path.InLeft? ==> path.node.left == node && path.node.right != node)
      && (path.InRight? ==> path.node.right == node && path.node.left != node)
    }

    lemma {:induction false} LookAround(path: Path<K>, t: Tree<K>)
      requires Intact() && tree == Plug(path, t) && t.Bin?
      ensures Around(path, t.node) && t.node in nodes
      ensures !path.Top? ==> path.node in nodes
    {
      Look(path, t);
      if !path.Top? { LookUp(path, t); }
    }

    // ----- Elementary steps -----

    /** node->color = color */
    method Paint(node: RbNode<K>, color: Color, ghost path: Path<K>, ghost t: Tree<K>)
      requires Intact() && tree == Plug(path, t) && t.Bin? && t.node == node
      modifies `tree, node`color
      ensures Intact() && tree == Plug(path, t.(color := color)) && nodes == old(nodes)
      ensures Inorder(tree) == old(Inorder(tree))
    {
      hide Linked, PathLinked, Holds, Extent, Apart, Nodes, PathNodes, Separate, PathSeparate, Plug, TopNode;
      ghost var s := nodes;
      Visit(path, t);
      Look(path, t);
      node.color := color;
      tree := Plug(path, t.(color := color));
      PaintHolds(old(Now(s)), Now(s), root, path, t, color, nil);
      Settle(path, t.(color := color));
    }

    method RotateLeft(node: RbNode<K>, ghost s: set<RbNode<K>>, ghost after: Tree<K>)
      requires nil !in s && node in s && node.right in s - {node}
      requires node.right.left in s - {node, node.right} || node.right.left == nil
      requires node.parent == nil || node.parent in s - {node, node.right, node.right.left}
      modifies `root, `tree, `rotations, s
      ensures tree == after && rotations == old(rotations) + 1
      ensures LeftEffect(old(Now(s)), Now(s), node, old(node.right), old(node.right.left), old(node.parent))
      ensures root == if old(node.parent) == nil then old(node.right) else old(root)
    {
      var right := node.right;
      node.right := right.left;
      if right.left != nil {
        right.left.parent := node;
      }
      right.parent := node.parent;
      if node.parent != nil {
        if node == node.parent.left {
          node.parent.left := right;
        } else {
          node.parent.right := right;
        }
      } else {
        root := right;
      }
      right.left := node;
      node.parent := right;
      tree, rotations := after, rotations + 1;
    }

    method RotateRight(node: RbNode<K>, ghost s: set<RbNode<K>>, ghost after: Tree<K>)
      requires nil !in s && node in s && node.left in s - {node}
      requires node.left.right in s - {node, node.left} || node.left.right == nil
      requires node.parent == nil || node.parent in s - {node, node.left, node.left.right}
      modifies `root, `tree, `rotations, s
      ensures tree == after && rotations == old(rotations) + 1
      ensures RightEffect(old(Now(s)), Now(s), node, old(node.left), old(node.left.right), old(node.parent))
      ensures root == if old(node.parent) == nil then old(node.left) else old(root)
    {
      var left := node.left;
      node.left := left.right;
      if left.right != nil {
        left.right.parent := node;
      }
      left.parent := node.parent;
      if node.parent != nil {
        if node == node.parent.right {
          node.parent.right := left;
        } else {
          node.parent.left := left;
        }
      } else {
        root := left;
      }
      left.right := node;
      node.parent := left;
      tree, rotations := after, rotations + 1;
    }

    /** The rotation, as a step on the tree that the heap holds. */
    method RotateLeftAt(node: RbNode<K>, ghost path: Path<K>, ghost t: Tree<K>)
      requires Intact() && tree == Plug(path, t) && t.Bin? && t.node == node && t.right.Bin?
      modifies `root, `tree, `rotations, nodes
      ensures Intact() && tree == Plug(path, TurnLeft(t)) && nodes == old(nodes)
      ensures rotations == old(rotations) + 1 && Inorder(tree) == old(Inorder(tree))
    {
      hide Linked, PathLinked, Holds, Extent, Apart, Nodes, PathNodes, Separate, PathSeparate, Plug, TopNode,
        LeftEffect;
      ghost var s := nodes;
      Visit(path, t);
      AroundLeft(Now(s), root, path, t, nil);
      RotateLeft(node, s, Plug(path, TurnLeft(t)));
      TurnLeftHolds(old(Now(s)), Now(s), old(root), root, path, t, nil);
      TurnLeftKeeps(path, t);
      Settle(path, TurnLeft(t));
    }

    method RotateRightAt(node: RbNode<K>, ghost path: Path<K>, ghost t: Tree<K>)
      requires Intact() && tree == Plug(path, t) && t.Bin? && t.node == node && t.left.Bin?
      modifies `root, `tree, `rotations, nodes
      ensures Intact() && tree == Plug(path, TurnRight(t)) && nodes == old(nodes)
      ensures rotations == old(rotations) + 1 && Inorder(tree) == old(Inorder(tree))
    {
      hide Linked, PathLinked, Holds, Extent, Apart, Nodes, PathNodes, Separate, PathSeparate, Plug, TopNode,
        RightEffect;
      ghost var s := nodes;
      Visit(path, t);
      AroundRight(Now(s), root, path, t, nil);
      RotateRight(node, s, Plug(path, TurnRight(t)));
      TurnRightHolds(old(Now(s)), Now(s), old(root), root, path, t, nil);
      TurnRightKeeps(path, t);
      Settle(path, TurnRight(t));
    }

    // ----- Insertion -----

    /** A red uncle: parent and uncle take over the blackness of the grandparent, where the loop goes on. */
    method PushBlackDown(node: RbNode<K>, uncle: RbNode<K>, ghost path: Path<K>, ghost t: Tree<K>, ghost h: nat)
      returns (ghost p: Path<K>, ghost u: Tree<K>)
      requires Intact() && tree == Plug(path, t) && t.Bin? && t.node == node && t.color == Red
      requires Balanced(t, h) && Accepts(path, Black, h) && !path.Top? && path.color == Red
      requires !path.up.Top? && path.up.sibling.Bin? && path.up.sibling.node == uncle && path.up.sibling.color == Red
      modifies `tree, nodes`color
      ensures Intact() && tree == Plug(p, u) && nodes == old(nodes) && Inorder(tree) == old(Inorder(tree))
      ensures p == path.up.up && u.Bin? && u.node == path.up.node && u.color == Red
      ensures Balanced(u, h + 1) && Accepts(p, Black, h + 1)
    {
      hide Linked, PathLinked, Holds, Extent, Apart, Nodes, PathNodes, Separate, PathSeparate, TopNode, Intact, Inorder;
      ghost var joined := Join(path, t);
      Look(path, t);
      LookUp(path, t);
      LookUp(path.up, joined);
      Paint(node.parent, Black, path.up, joined);
      joined := joined.(color := Black);
      ghost var aside := path.up.sibling;
      Paint(uncle, Black, Beside(path.up, joined), aside);
      aside := aside.(color := Black);
      p, u := path.up.up, Join(WithSibling(path.up, aside), joined);
      Paint(node.parent.parent, Red, p, u);
      u := u.(color := Red);
    }

    /** `node` and its parent are red left children: the parent rises over the black grandparent. */
    method RaiseLeftParent(node: RbNode<K>, ghost path: Path<K>, ghost t: Tree<K>, ghost h: nat)
      returns (ghost p: Path<K>)
      requires Intact() && tree == Plug(path, t) && t.Bin? && t.node == node && t.color == Red
      requires Balanced(t, h) && Accepts(path, Black, h) && path.InLeft? && path.color == Red
      requires path.up.InLeft? && ColorOf(path.up.sibling) == Black
      modifies `root, `tree, `rotations, nodes
      ensures Intact() && tree == Plug(p, t) && nodes == old(nodes) && Inorder(tree) == old(Inorder(tree))
      ensures !p.Top? && p.color == Black && p.up == path.up.up && Accepts(p, Black, h)
      ensures rotations == old(rotations) + 1
    {
      hide Linked, PathLinked, Holds, Extent, Apart, Nodes, PathNodes, Separate, PathSeparate, TopNode, Intact, Inorder;
      ghost var joined := Join(path, t);
      Look(path, t);
      LookUp(path, t);
      LookUp(path.up, joined);
      Paint(node.parent, Black, path.up, joined);
      joined := joined.(color := Black);
      ghost var top := Join(path.up, joined);
      Paint(node.parent.parent, Red, path.up.up, top);
      top := top.(color := Red);
      RotateRightAt(node.parent.parent, path.up.up, top);
      p := InLeft(path.node, Black, TurnRight(top).right, path.up.up);
    }

    method RaiseRightParent(node: RbNode<K>, ghost path: Path<K>, ghost t: Tree<K>, ghost h: nat)
      returns (ghost p: Path<K>)
      requires Intact() && tree == Plug(path, t) && t.Bin? && t.node == node && t.color == Red
      requires Balanced(t, h) && Accepts(path, Black, h) && path.InRight? && path.color == Red
      requires path.up.InRight? && ColorOf(path.up.sibling) == Black
      modifies `root, `tree, `rotations, nodes
      ensures Intact() && tree == Plug(p, t) && nodes == old(nodes) && Inorder(tree) == old(Inorder(tree))
      ensures !p.Top? && p.color == Black && p.up == path.up.up && Accepts(p, Black, h)
      ensures rotations == old(rotations) + 1
    {
      hide Linked, PathLinked, Holds, Extent, Apart, Nodes, PathNodes, Separate, PathSeparate, TopNode, Intact, Inorder;
      ghost var joined := Join(path, t);
      Look(path, t);
      LookUp(path, t);
      LookUp(path.up, joined);
      Paint(node.parent, Black, path.up, joined);
      joined := joined.(color := Black);
      ghost var top := Join(path.up, joined);
      Paint(node.parent.parent, Red, path.up.up, top);
      top := top.(color := Red);
      RotateLeftAt(node.parent.parent, path.up.up, top);
      p := InRight(TurnLeft(top).left, path.node, Black, path.up.up);
    }

    /** A black uncle on the right: a red right child first becomes the left one, then its parent rises. */
    method LeftWithBlackUncle(child: RbNode<K>, ghost path: Path<K>, ghost t: Tree<K>, ghost h: nat)
      returns (node: RbNode<K>, ghost p: Path<K>, ghost u: Tree<K>)
      requires Intact() && tree == Plug(path, t) && t.Bin? && t.node == child && t.color == Red
      requires Balanced(t, h) && Accepts(path, Black, h) && !path.Top? && path.color == Red
      requires path.up.InLeft? && ColorOf(path.up.sibling) == Black
      modifies `root, `tree, `rotations, nodes
      ensures Intact() && tree == Plug(p, u) && nodes == old(nodes) && Inorder(tree) == old(Inorder(tree))
      ensures u.Bin? && u.node == node && u.color == Red && Balanced(u, h)
      ensures !p.Top? && p.color == Black && p.up == path.up.up && Accepts(p, Black, h)
      ensures rotations <= old(rotations) + 2
    {
      hide Linked, PathLinked, Holds, Extent, Apart, Nodes, PathNodes, Separate, PathSeparate, TopNode, Intact, Inorder;
      node, p, u := child, path, t;
      LookAround(path, t);
      if node == node.parent.right {
        ghost var joined := Join(path, t);
        LookAround(path.up, joined);
        node := node.parent;
        RotateLeftAt(node, path.up, joined);
        p, u := InLeft(t.node, Red, t.right, path.up), TurnLeft(joined).left;
      }
      p := RaiseLeftParent(node, p, u, h);
    }

    /** The mirror image. */
    method RightWithBlackUncle(child: RbNode<K>, ghost path: Path<K>, ghost t: Tree<K>, ghost h: nat)
      returns (node: RbNode<K>, ghost p: Path<K>, ghost u: Tree<K>)
      requires Intact() && tree == Plug(path, t) && t.Bin? && t.node == child && t.color == Red
      requires Balanced(t, h) && Accepts(path, Black, h) && !path.Top? && path.color == Red
      requires path.up.InRight? && ColorOf(path.up.sibling) == Black
      modifies `root, `tree, `rotations, nodes
      ensures Intact() && tree == Plug(p, u) && nodes == old(nodes) && Inorder(tree) == old(Inorder(tree))
      ensures u.Bin? && u.node == node && u.color == Red && Balanced(u, h)
      ensures !p.Top? && p.color == Black && p.up == path.up.up && Accepts(p, Black, h)
      ensures rotations <= old(rotations) + 2
    {
      hide Linked, PathLinked, Holds, Extent, Apart, Nodes, PathNodes, Separate, PathSeparate, TopNode, Intact, Inorder;
      node, p, u := child, path, t;
      LookAround(path, t);
      if node == node.parent.left {
        ghost var joined := Join(path, t);
        LookAround(path.up, joined);
        node := node.parent;
        RotateRightAt(node, path.up, joined);
        p, u := InRight(t.left, t.node, Red, path.up), TurnRight(joined).right;
      }
      p := RaiseRightParent(node, p, u, h);
    }

    /** One round of the loop: the red node with a red parent is two levels higher, or its parent is black. */
    method InsertRound(child: RbNode<K>, ghost path: Path<K>, ghost t: Tree<K>, ghost h: nat)
      returns (node: RbNode<K>, ghost p: Path<K>, ghost u: Tree<K>, ghost k: nat)
      requires Intact() && tree == Plug(path, t) && t.Bin? && t.node == child && t.color == Red
      requires Balanced(t, h) && Accepts(path, Black, h) && Around(path, child) && !path.Top? && path.color == Red
      modifies `root, `tree, `rotations, nodes
      ensures Intact() && tree == Plug(p, u) && nodes == old(nodes) && Inorder(tree) == old(Inorder(tree))
      ensures u.Bin? && u.node == node && u.color == Red
      ensures Balanced(u, k) && Accepts(p, Black, k) && Around(p, node)
      ensures !path.up.Top? && Depth(p) < Depth(path)
      ensures || (p == path.up.up && k == h + 1 && rotations == old(rotations))
              || (!p.Top? && p.color == Black && p.up == path.up.up && k == h && rotations <= old(rotations) + 2)
    {
      hide Linked, PathLinked, Holds, Extent, Apart, Nodes, PathNodes, Separate, PathSeparate, TopNode, Intact, Inorder;
      node, k := child, h;
      LookAround(path.up, Join(path, t));
      LookUp(path.up, Join(path, t));
      var uncle: RbNode<K>;
      if node.parent == node.parent.parent.left {
        uncle := node.parent.parent.right;
        if uncle.color == Red {
          p, u := PushBlackDown(node, uncle, path, t, h);
          k := h + 1;
          node := node.parent.parent;
        } else {
          node, p, u := LeftWithBlackUncle(node, path, t, h);
        }
      } else {
        uncle := node.parent.parent.left;
        if uncle.color == Red {
          p, u := PushBlackDown(node, uncle, path, t, h);
          k := h + 1;
          node := node.parent.parent;
        } else {
          node, p, u := RightWithBlackUncle(node, path, t, h);
        }
      }
      LookAround(p, u);
    }

    method InsertFixup(data: RbNode<K>, ghost path0: Path<K>, ghost t0: Tree<K>, ghost h0: nat)
      requires Intact() && tree == Plug(path0, t0) && t0.Bin? && t0.node == data && t0.color == Red
      requires Balanced(t0, h0) && Accepts(path0, Black, h0)
      modifies `root, `tree, `rotations, nodes
      ensures Intact() && RedBlack(tree)
      ensures Inorder(tree) == old(Inorder(tree)) && nodes == old(nodes)
      ensures rotations <= old(rotations) + 2
    {
      hide Linked, PathLinked, Holds, Extent, Apart, Nodes, PathNodes, Separate, PathSeparate, TopNode, Intact, Inorder;
      var node := data;
      ghost var path, t, h := path0, t0, h0;
      LookAround(path, t);
      while node != root && node.parent.color == Red
        invariant Intact() && tree == Plug(path, t) && t.Bin? && t.node == node && t.color == Red
        invariant Balanced(t, h) && Accepts(path, Black, h)
        invariant Inorder(tree) == old(Inorder(tree)) && nodes == old(nodes)
        invariant rotations == old(rotations) || (!path.Top? && path.color == Black && rotations <= old(rotations) + 2)
        invariant Around(path, node)
        decreases Depth(path)
      {
        node, path, t, h := InsertRound(node, path, t, h);
      }
      BlackRoot(path, t, h);
      Look(Top, tree);
      Paint(root, Black, Top, tree);
    }

    /** Links `data` into the empty place below `parent` that the search ended at. */
    method Hook(data: RbNode<K>, parent: RbNode<K>, r: int, ghost path: Path<K>)
      requires Intact() && tree == Plug(path, Leaf) && data !in nodes && data != nil
      requires parent == ParentOf(path, nil) && (path.InLeft? ==> r < 0) && (path.InRight? ==> r > 0)
      modifies `root, `tree, `nodes, data, nodes
      ensures Intact() && tree == Plug(path, Bin(Leaf, data, Red, Leaf)) && nodes == old(nodes) + {data}
    {
      hide Linked, PathLinked, Holds, Extent, Apart, Nodes, PathNodes, Separate, PathSeparate, TopNode, Plug;
      ghost var s := nodes;
      NodesOfTree();
      Visit(path, Leaf);
      Look(path, Leaf);
      if !path.Top? { LookUp(path, Leaf); }
      data.parent := parent;
      data.left, data.right := nil, nil;
      data.color := Red;
      if parent != nil {
        if r < 0 {
          parent.left := data;
        } else {
          parent.right := data;
        }
      } else {
        root := data;
      }
      tree, nodes := Plug(path, Bin(Leaf, data, Red, Leaf)), nodes + {data};
      HookHolds(old(Now(s)), Now(nodes), old(root), root, path, data, nil);
      Settle(path, Bin(Leaf, data, Red, Leaf));
    }

    method Insert(data: RbNode<K>) returns (r: RbNode?<K>)
      requires Valid() && data != nil && data.key in domain
      modifies this, data, nodes
      ensures Valid() && rotations <= old(rotations) + 2
      ensures HasKey(old(Inorder(tree)), data.key) ==>
        r == null && unchanged(this) && unchanged(data) && Now(nodes) == old(Now(nodes))
      ensures !HasKey(old(Inorder(tree)), data.key) ==>
        && r == data && count == old(count) + 1
        && Inorder(tree) == InsertAt(old(Inorder(tree)), Rank(cmp, old(Inorder(tree)), data.key), data)
        && nodes == old(nodes) + {data}
    {
      hide Linked, PathLinked, Holds, Extent, Apart, Nodes, PathNodes, Separate, PathSeparate, TopNode, Accepts;
      hide Ordered, Between, Intact, RedBlack, Rank;
      ghost var s := Inorder(tree);
      var c := 0;
      var node := root;
      var parent := nil;
      ghost var path, t := Path.Top, tree;
      Look(path, t);
      BetweenAtTop(cmp, data.key);
      while node != nil
        invariant unchanged(this) && unchanged(data) && Now(nodes) == old(Now(nodes)) && Intact()
        invariant tree == Plug(path, t) && node == RootOf(t, nil) && parent == ParentOf(path, nil)
        invariant node == nil <==> t.Leaf?
        invariant Between(cmp, path, data.key)
        invariant (path.InLeft? ==> c < 0) && (path.InRight? ==> c > 0)
        decreases t
      {
        Look(path, t);
        Compared(cmp, domain, path, t, data.key);
        c := cmp(data.key, node.key);
        if c == 0 {
          assert HasKey(s, data.key);
          return null;
        }
        parent := node;
        if c < 0 {
          node := node.left;
          path, t := InLeft(t.node, t.color, t.right, path), t.left;
        } else {
          node := node.right;
          path, t := InRight(t.left, t.node, t.color, path), t.right;
        }
        Look(path, t);
      }
      NotFound(cmp, domain, path, data.key);
      HookInorder(cmp, domain, path, data);
      NodesOfTree();
      ghost var h := SubtreeAccepted(path, t);
      Hook(data, parent, c, path);
      count := count + 1;
      InsertFixup(data, path, Bin(Leaf, data, Red, Leaf), h);
      r := data;
    }

    // ----- Searching -----

    /** How many nodes a search for the key compares with. */
    ghost function Comparisons(t: Tree<K>, key: K): nat {
      if t.Leaf? then 0
      else
        var r := cmp(key, t.node.key);
        1 + if r == 0 then 0 else if r < 0 then Comparisons(t.left, key) else Comparisons(t.right, key)
    }

    /** The node with the key, or else the last node before it. `visited` counts the nodes compared with. */
    method FindLessEqual(key: K) returns (exact: bool, result: RbNode?<K>, ghost visited: nat)
      requires Valid() && key in domain
      ensures exact <==> HasKey(Inorder(tree), key)
      ensures var s, i := Inorder(tree), Rank(cmp, Inorder(tree), key);
        && (exact ==> i < |s| && s[i].key == key && result == s[i])
        && (!exact ==> result == if i == 0 then null else s[i - 1])
      ensures visited == Comparisons(tree, key) && count >= Pow2((visited + 1) / 2) - 1
    {
      hide Linked, PathLinked, Holds, Extent, Apart, Nodes, PathNodes, Separate, PathSeparate, TopNode, Accepts;
      hide Ordered, Between, Intact, RedBlack, Rank, Inorder, Pow2;
      var node := root;
      ghost var path, t := Path.Top, tree;
      result, visited := null, 0;
      Look(path, t);
      BetweenAtTop(cmp, key);
      while node != nil
        invariant tree == Plug(path, t) && node == RootOf(t, nil)
        invariant node == nil <==> t.Leaf?
        invariant Between(cmp, path, key)
        invariant result == if Before(path) == [] then null else Before(path)[|Before(path)| - 1]
        invariant visited == Depth(path) && visited + Comparisons(t, key) == Comparisons(tree, key)
        decreases t
      {
        Look(path, t);
        Compared(cmp, domain, path, t, key);
        DeepTreesAreLarge(path, t, visited + 1);
        var r := cmp(key, node.key);
        if r == 0 {
          assert HasKey(Inorder(tree), key);
          return true, node, visited + 1;
        }
        visited := visited + 1;
        if r < 0 {
          node := node.left;
          path, t := InLeft(t.node, t.color, t.right, path), t.left;
        } else {
          result := node;
          node := node.right;
          path, t := InRight(t.left, t.node, t.color, path), t.right;
        }
        Look(path, t);
      }
      NotFound(cmp, domain, path, key);
      DeepTreesAreLarge(path, t, visited);
      exact := false;
    }

    method Search(key: K) returns (result: RbNode?<K>)
      requires Valid() && key in domain
      ensures result == null <==> !HasKey(Inorder(tree), key)
      ensures var s, i := Inorder(tree), Rank(cmp, Inorder(tree), key);
        result != null ==> i < |s| && s[i].key == key && result == s[i]
    {
      var exact, node, _ := FindLessEqual(key);
      if exact {
        return node;
      } else {
        return null;
      }
    }

    // ----- Walking in order -----

    /** The first node of a subtree. */
    method Leftmost(start: RbNode<K>, ghost path: Path<K>, ghost t: Tree<K>) returns (node: RbNode<K>)
      requires Intact() && tree == Plug(path, t) && start == RootOf(t, nil)
      ensures t.Leaf? ==> node == nil
      ensures t.Bin? ==> |Before(path)| < |Inorder(tree)| && node == Inorder(tree)[|Before(path)|]
    {
      hide Linked, PathLinked, Holds, Extent, Apart, Nodes, PathNodes, Separate, PathSeparate, TopNode, Intact;
      node := start;
      ghost var p, u := path, t;
      Look(p, u);
      while node.left != nil
        invariant tree == Plug(p, u) && node == RootOf(u, nil) && (t.Bin? ==> u.Bin?) && Before(p) == Before(path)
        invariant node.left == if u.Bin? then RootOf(u.left, nil) else nil
        decreases u
      {
        node := node.left;
        p, u := InLeft(u.node, u.color, u.right, p), u.left;
        Look(p, u);
      }
      if u.Bin? {
        Look(InLeft(u.node, u.color, u.right, p), u.left);
        IndexOf(p, u);
      }
    }

    method Rightmost(start: RbNode<K>, ghost path: Path<K>, ghost t: Tree<K>) returns (node: RbNode<K>)
      requires Intact() && tree == Plug(path, t) && start == RootOf(t, nil)
      ensures t.Leaf? ==> node == nil
      ensures t.Bin? ==> |After(path)| < |Inorder(tree)| && node == Inorder(tree)[|Inorder(tree)| - |After(path)| - 1]
    {
      hide Linked, PathLinked, Holds, Extent, Apart, Nodes, PathNodes, Separate, PathSeparate, TopNode, Intact;
      node := start;
      ghost var p, u := path, t;
      Look(p, u);
      while node.right != nil
        invariant tree == Plug(p, u) && node == RootOf(u, nil) && (t.Bin? ==> u.Bin?) && After(p) == After(path)
        invariant node.right == if u.Bin? then RootOf(u.right, nil) else nil
        decreases u
      {
        node := node.right;
        p, u := InRight(u.left, u.node, u.color, p), u.right;
        Look(p, u);
      }
      if u.Bin? {
        Look(InRight(u.left, u.node, u.color, p), u.right);
        IndexOf(p, u);
        InorderPlug(p, u);
      }
    }

    method First() returns (node: RbNode<K>)
      requires Intact()
      ensures node == if Inorder(tree) == [] then nil else Inorder(tree)[0]
    {
      hide Linked, PathLinked, Holds, Extent, Apart, Nodes, PathNodes, Separate, PathSeparate, TopNode;
      Look(Top, tree);
      node := Leftmost(root, Top, tree);
    }

    method Last() returns (node: RbNode<K>)
      requires Intact()
      ensures node == if Inorder(tree) == [] then nil else Inorder(tree)[|Inorder(tree)| - 1]
    {
      hide Linked, PathLinked, Holds, Extent, Apart, Nodes, PathNodes, Separate, PathSeparate, TopNode;
      Look(Top, tree);
      node := Rightmost(root, Top, tree);
    }

    method Next(start: RbNode<K>, ghost i: nat) returns (node: RbNode<K>)
      requires Intact() && i < |Inorder(tree)| && Inorder(tree)[i] == start
      ensures node == if i + 1 < |Inorder(tree)| then Inorder(tree)[i + 1] else nil
    {
      hide Linked, PathLinked, Holds, Extent, Apart, Nodes, PathNodes, Separate, PathSeparate, TopNode, Intact;
      ghost var path, t := LocateAt(Top, tree, i);
      Look(path, t);
      node := start;
      if node.right != nil {
        path, t := InRight(t.left, t.node, t.color, path), t.right;
        node := Leftmost(node.right, path, t);
      } else {
        var parent := node.parent;
        Look(InRight(t.left, t.node, t.color, path), t.right);
        LookAround(path, t);
        while parent != nil && node == parent.right
          invariant tree == Plug(path, t) && t.Bin? && node == t.node && parent == ParentOf(path, nil)
          invariant |Before(path)| + |Inorder(t)| == i + 1
          invariant Around(path, node)
          decreases path
        {
          assert path.InRight?;
          path, t := path.up, Join(path, t);
          node := parent;
          parent := parent.parent;
          LookAround(path, t);
        }
        InorderPlug(path, t);
        if !path.Top? { IndexOf(path.up, Join(path, t)); }
        node := parent;
      }
    }

    method Previous(start: RbNode<K>, ghost i: nat) returns (node: RbNode<K>)
      requires Intact() && i < |Inorder(tree)| && Inorder(tree)[i] == start
      ensures node == if i > 0 then Inorder(tree)[i - 1] else nil
    {
      hide Linked, PathLinked, Holds, Extent, Apart, Nodes, PathNodes, Separate, PathSeparate, TopNode, Intact;
      ghost var path, t := LocateAt(Top, tree, i);
      Look(path, t);
      node := start;
      if node.left != nil {
        InorderPlug(path, t);
        path, t := InLeft(t.node, t.color, t.right, path), t.left;
        node := Rightmost(node.left, path, t);
      } else {
        var parent := node.parent;
        Look(InLeft(t.node, t.color, t.right, path), t.left);
        LookAround(path, t);
        while parent != nil && node == parent.left
          invariant tree == Plug(path, t) && t.Bin? && node == t.node && parent == ParentOf(path, nil)
          invariant |Before(path)| == i
          invariant Around(path, node)
          decreases path
        {
          assert path.InLeft?;
          path, t := path.up, Join(path, t);
          node := parent;
          parent := parent.parent;
          LookAround(path, t);
        }
        if !path.Top? { IndexOf(path.up, Join(path, t)); }
        node := parent;
      }
    }

    /** RBTREE_FOR: from the first node to the sentinel by Next. */
    method ForEach() returns (visited: seq<RbNode<K>>)
      requires Intact()
      ensures visited == Inorder(tree)
    {
      hide Linked, PathLinked, Holds, Extent, Apart, Nodes, PathNodes, Separate, PathSeparate, TopNode, Intact, Inorder;
      var node := First();
      visited := [];
      while node != nil
        invariant |visited| <= |Inorder(tree)| && visited == Inorder(tree)[..|visited|]
        invariant node == if |visited| < |Inorder(tree)| then Inorder(tree)[|visited|] else nil
        decreases |Inorder(tree)| - |visited|
      {
        ghost var i := |visited|;
        visited := visited + [node];
        node := Next(node, i);
      }
      Members();
    }

    /** Stepping forward from a node that is not the last, and back again. */
    method ThereAndBack(start: RbNode<K>, ghost i: nat) returns (node: RbNode<K>)
      requires Intact() && i + 1 < |Inorder(tree)| && Inorder(tree)[i] == start
      ensures node == start
    {
      node := Next(start, i);
      node := Previous(node, i + 1);
    }

    /** The recursive descent that calls its function on children before parents. */
    method TraversePost(node: RbNode<K>, ghost path: Path<K>, ghost t: Tree<K>) returns (visited: seq<RbNode<K>>)
      requires Intact() && tree == Plug(path, t) && node == RootOf(t, nil)
      ensures visited == Postorder(t)
      decreases t
    {
      hide Linked, PathLinked, Holds, Extent, Apart, Nodes, PathNodes, Separate, PathSeparate, TopNode, Intact;
      Look(path, t);
      if node == nil {
        return [];
      }
      var left := TraversePost(node.left, InLeft(t.node, t.color, t.right, path), t.left);
      var right := TraversePost(node.right, InRight(t.left, t.node, t.color, path), t.right);
      visited := left + right + [node];
    }

    // ----- Deletion -----

    /** Whatever led down from `parent`, or from the tree, to `was` leads to `now`. */
    method ChangeParentPtr(parent: RbNode<K>, was: RbNode<K>, now: RbNode<K>)
      modifies `root, if parent == nil then {} else {parent}
      ensures root == if parent == nil && old(root) == was then now else old(root)
      ensures parent != nil ==>
        && parent.left == (if old(parent.left) == was then now else old(parent.left))
        && parent.right == (if old(parent.right) == was then now else old(parent.right))
        && parent.parent == old(parent.parent) && parent.color == old(parent.color)
    {
      if parent == nil {
        if root == was {
          root := now;
        }
        return;
      }
      if parent.left == was {
        parent.left := now;
      }
      if parent.right == was {
        parent.right := now;
      }
    }

    /** If `child` hung below `was`, it hangs below `now`. */
    method ChangeChildPtr(child: RbNode<K>, was: RbNode<K>, now: RbNode<K>)
      modifies if child == nil then {} else {child}
      ensures child != nil ==>
        && child.parent == (if old(child.parent) == was then now else old(child.parent))
        && child.left == old(child.left) && child.right == old(child.right) && child.color == old(child.color)
    {
      if child == nil {
        return;
      }
      if child.parent == was {
        child.parent := now;
      }
    }

    /** Who points to the two nodes, and that they do not stand in each other's way. */
    ghost predicate Swappable(toDelete: RbNode<K>, smright: RbNode<K>, s: set<RbNode<K>>)
      reads `root, s
    {
      var d, m := toDelete, smright;
      && nil !in s && d in s && m in s && d != m && root != m
      && (d.parent == nil || d.parent in s - {d, m}) && (root == d <==> d.parent == nil)
      && m.parent in s - {m} && m.parent != d.parent && (m.parent == d <==> d.right == m)
      && d.left in s - {d, m} && d.right in s - {d} && m.left == nil && (m.right == nil || m.right in s - {d, m})
      && (forall n | n in s && (n.left == d || n.right == d) :: n == d.parent)
      && (forall n | n in s && (n.left == m || n.right == m) :: n == m.parent)
      && (forall n | n in s :: n.parent == d <==> n == d.left || n == d.right)
      && (forall n | n in s :: n.parent == m <==> n == m.right)
    }

    /** The colours of the two nodes, and the child pointers of their parents. */
    method SwapInParents(toDelete: RbNode<K>, smright: RbNode<K>, ghost s: set<RbNode<K>>)
      requires Swappable(toDelete, smright, s)
      modifies `root, s
      ensures forall n | n in s - {toDelete, smright} ::
        && n.parent == old(n.parent) && n.color == old(n.color)
        && n.left == Other(old(n.left), toDelete, smright) && n.right == Other(old(n.right), toDelete, smright)
      ensures toDelete.color == old(smright.color) && smright.color == old(toDelete.color)
      ensures forall n | n in {toDelete, smright} ::
        n.parent == old(n.parent) && n.left == old(n.left) && n.right == old(n.right)
      ensures root == Other(old(root), toDelete, smright)
    {
      toDelete.color, smright.color := smright.color, toDelete.color;

      ChangeParentPtr(toDelete.parent, toDelete, smright);
      if toDelete.right != smright {
        ChangeParentPtr(smright.parent, smright, toDelete);
      }
    }

    /** The parent pointers of their children. */
    method SwapInChildren(toDelete: RbNode<K>, smright: RbNode<K>, ghost s: set<RbNode<K>>)
      requires {toDelete, toDelete.left, toDelete.right, smright} <= s && nil !in s && smright.left == nil
      requires smright.right == nil || smright.right in s - {toDelete, smright}
      requires toDelete.left !in {toDelete, smright} && toDelete.right != toDelete
      requires toDelete != smright
      requires forall n | n in s :: n.parent == toDelete <==> n == toDelete.left || n == toDelete.right
      requires forall n | n in s :: n.parent == smright <==> n == smright.right
      modifies s
      ensures forall n | n in s - {toDelete, smright} ::
        && n.parent == Other(old(n.parent), toDelete, smright)
        && n.left == old(n.left) && n.right == old(n.right) && n.color == old(n.color)
      ensures forall n | n in {toDelete, smright} ::
        n.parent == old(n.parent) && n.left == old(n.left) && n.right == old(n.right) && n.color == old(n.color)
    {
      ChangeChildPtr(smright.left, smright, toDelete);
      ChangeChildPtr(smright.left, smright, toDelete);
      ChangeChildPtr(smright.right, smright, toDelete);
      ChangeChildPtr(smright.right, smright, toDelete);
      ChangeChildPtr(toDelete.left, toDelete, smright);
      if toDelete.right != smright {
        ChangeChildPtr(toDelete.right, toDelete, smright);
      }
    }

    /** The pointers of the two nodes themselves. */
    method SwapOwn(toDelete: RbNode<K>, smright: RbNode<K>)
      requires toDelete != smright
      modifies toDelete`parent, toDelete`left, toDelete`right, smright`parent, smright`left, smright`right
      ensures toDelete.left == old(smright.left) && toDelete.right == old(smright.right)
      ensures smright.left == old(toDelete.left) && smright.parent == old(toDelete.parent)
      ensures old(toDelete.right) == smright ==> toDelete.parent == smright && smright.right == toDelete
      ensures old(toDelete.right) != smright ==>
        toDelete.parent == old(smright.parent) && smright.right == old(toDelete.right)
    {
      if toDelete.right == smright {
        toDelete.right := toDelete;
        smright.parent := smright;
      }
      toDelete.parent, smright.parent := smright.parent, toDelete.parent;
      toDelete.left, smright.left := smright.left, toDelete.left;
      toDelete.right, smright.right := smright.right, toDelete.right;
    }

    /** All of this together: the two nodes have traded places. */
    method SwapLinks(toDelete: RbNode<K>, smright: RbNode<K>, ghost s: set<RbNode<K>>)
      requires Swappable(toDelete, smright, s)
      modifies `root, s
      ensures forall n | n in s - {toDelete, smright} :: FieldsOf(n) == Traded(old(FieldsOf(n)), toDelete, smright)
      ensures FieldsOf(toDelete) == Traded(old(FieldsOf(smright)), toDelete, smright)
      ensures FieldsOf(smright) == Traded(old(FieldsOf(toDelete)), toDelete, smright)
      ensures root == Other(old(root), toDelete, smright)
    {
      SwapInParents(toDelete, smright, s);
      SwapInChildren(toDelete, smright, s);
      SwapOwn(toDelete, smright);
    }

    method SwapPlaces(toDelete: RbNode<K>, smright: RbNode<K>)
      requires Swappable(toDelete, smright, nodes) && toDelete in nodes && smright in nodes
      modifies `root, `tree, nodes
      ensures ExchangeEffect(old(Now(nodes)), Now(nodes), toDelete, smright)
      ensures root == Other(old(root), toDelete, smright) && tree == Exchange(old(tree), toDelete, smright)
    {
      hide Exchange, Swappable, Traded;
      SwapLinks(toDelete, smright, nodes);
      tree := Exchange(tree, toDelete, smright);
      ghost var g, h := old(Now(nodes)), Now(nodes);
      forall n | n in g
        ensures Other(n, toDelete, smright) in h && h[Other(n, toDelete, smright)] == Traded(g[n], toDelete, smright)
      {
        if n != toDelete && n != smright { assert n in nodes - {toDelete, smright}; }
      }
    }

    lemma {:induction false} MutualNow()
      requires Intact()
      ensures Mutual(Now(nodes), nodes, root, nil)
      ensures forall n | n in nodes :: Now(nodes)[n] == FieldsOf(n)
      ensures nil !in nodes && (root == nil || (root in nodes && root.parent == nil))
    {
      LinksAreMutual(Now(nodes), tree, nil, nil);
      Look(Top, tree);
    }

    /** A node of the right subtree is neither the node itself nor next to it on any other side. */
    lemma {:induction false} BelowRight(path: Path<K>, t: Tree<K>, m: RbNode<K>)
      requires Intact() && tree == Plug(path, t) && t.Bin? && t.left.Bin? && t.right.Bin?
      requires m in Nodes(t.right)
      ensures m in nodes - {t.node, root} && m != t.node.left && m != t.node.parent
      ensures m.parent in Nodes(t.right) + {t.node}
    {
      Visit(path, t);
      Look(path, t);
      TopNodeOnPath(path, t.node);
      assert t.left.node in Nodes(t.left);
      assert Linked(Now(nodes), t.right, t.node, nil);
      ParentBelow(Now(nodes), t.right, t.node, m);
    }

    /** The parent of a node of a subtree is in the subtree, or above its root. */
    lemma {:induction false} ParentBelow(h: Snapshot<K>, t: Tree<K>, parent: RbNode<K>, m: RbNode<K>)
      requires Linked(h, t, parent, nil) && m in Nodes(t)
      ensures m in h && h[m].parent in Nodes(t) + {parent}
    {
      if m in Nodes(t.left) {
        ParentBelow(h, t.left, t.node, m);
      } else if m in Nodes(t.right) {
        ParentBelow(h, t.right, t.node, m);
      }
    }

    /** Who stands next to a node, and that nobody else points to it. */
    lemma {:induction false} Neighbours(x: RbNode<K>)
      requires Intact() && x in nodes
      ensures x != nil && (if x == root then x.parent == nil else x.parent in nodes - {x})
      ensures (x.left == nil || x.left in nodes - {x}) && (x.right == nil || x.right in nodes - {x})
      ensures forall n | n in nodes && (n.left == x || n.right == x) :: n == x.parent
      ensures forall n | n in nodes :: n.parent == x <==> n == x.left || n == x.right
    {
      hide Intact;
      MutualNow();
    }

    lemma {:induction false} CanSwap(path: Path<K>, t: Tree<K>, m: RbNode<K>)
      requires Intact() && tree == Plug(path, t) && t.Bin? && t.left.Bin? && t.right.Bin?
      requires m in Nodes(t.right) && m.left == nil
      ensures Swappable(t.node, m, nodes) && t.node in nodes && m in nodes
    {
      hide Linked, PathLinked, Holds, Extent, Apart, PathNodes, Separate, PathSeparate, TopNode, Intact, Plug;
      NodesOfTree();
      LookKids(path, t);
      BelowRight(path, t, m);
      ParentElsewhere(path, t);
      Neighbours(t.node);
      Neighbours(m);
    }

    lemma {:induction false} ParentElsewhere(path: Path<K>, t: Tree<K>)
      requires Intact() && tree == Plug(path, t) && t.Bin?
      ensures t.node.parent !in Nodes(t) && t.node.left != t.node && t.node.right != t.node
      ensures t.left.Bin? && t.right.Bin? ==> t.node.left != t.node.right
    {
      Visit(path, t);
      assert t.left.Bin? ==> t.left.node in Nodes(t.left);
      assert t.right.Bin? ==> t.right.node in Nodes(t.right);
    }

    method SwapAt(toDelete: RbNode<K>, smright: RbNode<K>, ghost path: Path<K>, ghost t: Tree<K>)
      requires Intact() && tree == Plug(path, t) && t.Bin? && t.left.Bin? && t.right.Bin? && t.node == toDelete
      requires smright in Nodes(t.right) && smright.left == nil
      modifies `root, `tree, nodes
      ensures Intact() && tree == Exchange(old(tree), toDelete, smright) && nodes == old(nodes)
    {
      hide Linked, PathLinked, Extent, Apart, Nodes, PathNodes, Separate, PathSeparate, Plug, TopNode, Holds, Exchange,
        Swappable, ExchangeEffect;
      CanSwap(path, t, smright);
      NodesOfTree();
      SwapPlaces(toDelete, smright);
      ExchangeHolds(old(Now(nodes)), Now(nodes), old(root), old(tree), toDelete, smright, nil);
    }

    /** Trades places with the smallest node of the right subtree, which has no left child. */
    method SwapWithSuccessor(toDelete: RbNode<K>, ghost path: Path<K>, ghost t: Tree<K>, ghost i: nat)
      returns (ghost p: Path<K>, ghost u: Tree<K>)
      requires Intact() && tree == Plug(path, t) && t.Bin? && t.left.Bin? && t.right.Bin? && t.node == toDelete
      requires RedBlack(tree) && i == |Before(path)| + |Inorder(t.left)| && Distinct(Inorder(tree))
      modifies `root, `tree, nodes
      ensures Intact() && nodes == old(nodes) && RedBlack(tree)
      ensures tree == Plug(p, u) && u.Bin? && u.left.Leaf? && u.node == toDelete
      ensures |Before(p)| == i + 1 < |Inorder(tree)| == old(|Inorder(tree)|)
      ensures RemoveAt(Inorder(tree), i + 1) == RemoveAt(old(Inorder(tree)), i)
    {
      hide Linked, PathLinked, Extent, Apart, PathNodes, Separate, PathSeparate, TopNode, Holds, Intact, RedBlack,
        RemoveAt, Distinct;
      Look(path, t);
      var smright := toDelete.right;
      p, u := InRight(t.left, t.node, t.color, path), t.right;
      Look(p, u);
      while smright.left != nil
        invariant Intact() && tree == old(tree) && nodes == old(nodes)
        invariant tree == Plug(p, u) && u.Bin? && smright == u.node && Nodes(u) <= Nodes(t.right)
        invariant smright.left == RootOf(u.left, nil)
        invariant Before(p) == Before(path) + Inorder(t.left) + [toDelete]
        decreases u
      {
        smright := smright.left;
        p, u := InLeft(u.node, u.color, u.right, p), u.left;
        Look(p, u);
      }
      Look(InLeft(u.node, u.color, u.right, p), u.left);
      SwapAt(toDelete, smright, path, t);
      AfterExchange(path, t, p, u);
      ExchangeRedBlack(old(tree), toDelete, smright);
      p, u := ExchangePath(p, toDelete, smright), Exchange(u, toDelete, smright);
    }

    lemma {:induction false} LookBelow(path: Path<K>, t: Tree<K>)
      requires Intact() && tree == Plug(path, t) && t.Bin?
      ensures var child := OnlyChild(t);
        child.Bin? ==>
          child.node in nodes - {t.node} && child.node.parent == t.node && child.node != ParentOf(path, nil)
      ensures !path.Top? ==> path.node in nodes - {t.node}
      ensures Extent(path, OnlyChild(t)) <= nodes - {t.node}
    {
      Visit(path, t);
      var child := OnlyChild(t);
      assert Linked(Now(nodes), child, t.node, nil);
      assert child.Bin? ==> child.node in Nodes(child);
    }

    /** Puts `child` where `toDelete` was. */
    method Bypass(toDelete: RbNode<K>, child: RbNode<K>, ghost after: Tree<K>)
      requires nil !in nodes && toDelete in nodes
      requires toDelete.parent == nil || toDelete.parent in nodes - {toDelete, child}
      requires child == nil || (child in nodes - {toDelete} && child.parent == toDelete)
      requires root == toDelete <==> toDelete.parent == nil
      modifies `root, `tree, `nodes, nodes
      ensures tree == after && nodes == old(nodes) - {toDelete}
      ensures root == if old(toDelete.parent) == nil then child else old(root)
      ensures var up, d := old(toDelete.parent), toDelete;
        && Agree(old(Now(nodes)), Now(nodes), nodes - {child, up})
        && (child != nil ==> child in nodes && Now(nodes)[child] == old(Now(nodes))[child].(parent := up))
        && (up != nil ==>
              && up in nodes
              && Now(nodes)[up] == old(Fields(up.parent, if up.left == d then child else up.left,
                                              if up.right == d then child else up.right, up.color)))
      ensures toDelete.parent == old(toDelete.parent) && toDelete.color == old(toDelete.color)
    {
      ChangeParentPtr(toDelete.parent, toDelete, child);
      ChangeChildPtr(child, toDelete, toDelete.parent);
      tree, nodes := after, nodes - {toDelete};
    }

    /** Takes `toDelete`, which has at most one child, out of the tree. */
    method Unlink(toDelete: RbNode<K>, child: RbNode<K>, ghost path: Path<K>, ghost t: Tree<K>)
      requires Intact() && tree == Plug(path, t) && t.Bin? && t.node == toDelete
      requires (t.left.Leaf? || t.right.Leaf?) && child == RootOf(OnlyChild(t), nil)
      modifies `root, `tree, `nodes, nodes
      ensures Intact() && tree == Plug(path, OnlyChild(t)) && nodes == old(nodes) - {toDelete}
      ensures toDelete.parent == old(toDelete.parent) && toDelete.color == old(toDelete.color)
    {
      hide Linked, PathLinked, Holds, Extent, Apart, Nodes, PathNodes, Separate, PathSeparate, TopNode, Plug;
      Visit(path, t);
      Look(path, t);
      NodesOfTree();
      if !path.Top? { LookUp(path, t); }
      LookBelow(path, t);
      Bypass(toDelete, child, Plug(path, OnlyChild(t)));
      SpliceHolds(old(Now(nodes)), Now(nodes), old(root), root, path, t, nil);
      Settle(path, OnlyChild(t));
    }

    // ----- Restoring the balance after a deletion -----

    /** What the two children of a node look like. */
    lemma {:induction false} LookKids(path: Path<K>, t: Tree<K>)
      requires Intact() && tree == Plug(path, t) && t.Bin?
      ensures t.node.left == RootOf(t.left, nil) && t.node.left.color == ColorOf(t.left)
      ensures t.node.right == RootOf(t.right, nil) && t.node.right.color == ColorOf(t.right)
      ensures t.node in nodes && t.node != nil && t.node.color == t.color
      ensures t.left.Bin? ==> t.left.node in nodes
      ensures t.right.Bin? ==> t.right.node in nodes
    {
      Look(path, t);
      Look(InLeft(t.node, t.color, t.right, path), t.left);
      Look(InRight(t.left, t.node, t.color, path), t.right);
    }

    /** What is known about the sibling of a subtree that is one black short. */
    lemma {:induction false} LookAside(path: Path<K>, t: Tree<K>, h: nat)
      requires Intact() && tree == Plug(path, t) && !path.Top? && Accepts(path, Black, h + 1)
      ensures path.sibling.Bin? && path.node in nodes && path.node != nil
      ensures path.node.color == path.color && path.node.parent == ParentOf(path.up, nil)
      ensures path.InLeft? ==> path.node.left == RootOf(t, nil) != path.node.right == path.sibling.node
      ensures path.InRight? ==> path.node.right == RootOf(t, nil) != path.node.left == path.sibling.node
      ensures var s := path.sibling;
        && s.node in nodes && s.node != nil && s.node.color == s.color
        && s.node.left == RootOf(s.left, nil) && s.node.left.color == ColorOf(s.left)
        && s.node.right == RootOf(s.right, nil) && s.node.right.color == ColorOf(s.right)
    {
      LookUp(path, t);
      LookKids(Beside(path, t), path.sibling);
    }

    /** The sibling of `child`, which may be the empty node. */
    method SiblingOf(child: RbNode<K>, childParent: RbNode<K>, ghost path: Path<K>, ghost t: Tree<K>, ghost h: nat)
      returns (sibling: RbNode<K>)
      requires Intact() && tree == Plug(path, t) && child == RootOf(t, nil) && childParent == ParentOf(path, nil)
      requires Accepts(path, Black, h + 1)
      ensures sibling == if path.Top? then nil else RootOf(path.sibling, nil)
    {
      hide Linked, PathLinked, Holds, Extent, Apart, Nodes, PathNodes, Separate, PathSeparate, TopNode, Intact, Inorder;
      Look(path, t);
      if !path.Top? { LookAside(path, t, h); }
      if childParent.right == child {
        sibling := childParent.left;
      } else {
        sibling := childParent.right;
      }
    }

    /** The red sibling rises over its parent; one of its black children is the sibling from then on. */
    method TurnRedSibling(child: RbNode<K>, childParent: RbNode<K>, redSibling: RbNode<K>,
                          ghost path: Path<K>, ghost t: Tree<K>, ghost h: nat)
      returns (sibling: RbNode<K>, ghost p: Path<K>)
      requires Intact() && tree == Plug(path, t) && child == RootOf(t, nil) && !path.Top? && childParent == path.node
      requires Balanced(t, h) && ColorOf(t) == Black && Accepts(path, Black, h + 1)
      requires path.sibling.Bin? && redSibling == path.sibling.node && path.sibling.color == Red
      modifies `root, `tree, `rotations, nodes
      ensures Intact() && nodes == old(nodes) && Inorder(tree) == old(Inorder(tree))
      ensures tree == Plug(p, t) && !p.Top? && p.node == childParent && Accepts(p, Black, h + 1)
      ensures p.color == Red && p.sibling.Bin? && sibling == p.sibling.node && p.sibling.color == Black
      ensures rotations == old(rotations) + 1
    {
      hide Linked, PathLinked, Holds, Extent, Apart, Nodes, PathNodes, Separate, PathSeparate, TopNode, Intact, Inorder;
      LookAside(path, t, h);
      ghost var sib, q := path.sibling.(color := Black), WithColor(path, Red);
      Paint(childParent, Red, path.up, Join(path, t));
      Paint(redSibling, Black, Beside(q, t), path.sibling);
      q := WithSibling(q, sib);
      if childParent.right == child {
        RotateRightAt(childParent, q.up, Join(q, t));
        p := InRight(sib.right, q.node, Red, InRight(sib.left, sib.node, Black, q.up));
      } else {
        RotateLeftAt(childParent, q.up, Join(q, t));
        p := InLeft(q.node, Red, sib.left, InLeft(sib.node, Black, sib.right, q.up));
      }
      sibling := SiblingOf(child, childParent, p, t, h);
    }

    /** A sibling whose only red child is on the near side is turned, so that the red child is on the far side. */
    method StraightenSibling(child: RbNode<K>, childParent: RbNode<K>, bentSibling: RbNode<K>,
                             ghost path: Path<K>, ghost t: Tree<K>, ghost h: nat)
      returns (sibling: RbNode<K>, ghost p: Path<K>)
      requires Intact() && tree == Plug(path, t) && child == RootOf(t, nil) && !path.Top? && childParent == path.node
      requires Balanced(t, h) && ColorOf(t) == Black && Accepts(path, Black, h + 1)
      requires path.sibling.Bin? && bentSibling == path.sibling.node && path.sibling.color == Black
      requires ColorOf(path.sibling.left) == Red || ColorOf(path.sibling.right) == Red
      modifies `root, `tree, `rotations, nodes
      ensures Intact() && nodes == old(nodes) && Inorder(tree) == old(Inorder(tree))
      ensures tree == Plug(p, t) && !p.Top? && p.node == childParent && Accepts(p, Black, h + 1)
      ensures p.color == path.color && p.sibling.Bin? && sibling == p.sibling.node && p.sibling.color == Black
      ensures p.InLeft? == path.InLeft? && ColorOf(if p.InLeft? then p.sibling.right else p.sibling.left) == Red
      ensures rotations <= old(rotations) + 1
    {
      hide Linked, PathLinked, Holds, Extent, Apart, Nodes, PathNodes, Separate, PathSeparate, TopNode, Intact, Inorder;
      LookAside(path, t, h);
      sibling, p := bentSibling, path;
      ghost var sib, q := path.sibling, Beside(path, t);
      if childParent.right == child && sibling.color == Black && sibling.right.color == Red
        && sibling.left.color == Black {
        Paint(sibling, Red, q, sib);
        sib := sib.(color := Red);
        LookKids(q, sib);
        Paint(sibling.right, Black, InRight(sib.left, sib.node, Red, q), sib.right);
        sib := sib.(right := sib.right.(color := Black));
        RotateLeftAt(sibling, q, sib);
        StraightenedLeft(path.sibling, h);
        p := WithSibling(path, TurnLeft(sib));
        sibling := SiblingOf(child, childParent, p, t, h);
      } else if childParent.left == child && sibling.color == Black && sibling.left.color == Red
        && sibling.right.color == Black {
        Paint(sibling, Red, q, sib);
        sib := sib.(color := Red);
        LookKids(q, sib);
        Paint(sibling.left, Black, InLeft(sib.node, Red, sib.right, q), sib.left);
        sib := sib.(left := sib.left.(color := Black));
        RotateRightAt(sibling, q, sib);
        StraightenedRight(path.sibling, h);
        p := WithSibling(path, TurnRight(sib));
        sibling := SiblingOf(child, childParent, p, t, h);
      }
    }

    /** With a red child of the sibling on the far side, one rotation pays the missing black node back. */
    method RotateAndExchange(child: RbNode<K>, childParent: RbNode<K>, sibling: RbNode<K>,
                             ghost path: Path<K>, ghost t: Tree<K>, ghost h: nat)
      requires Intact() && tree == Plug(path, t) && child == RootOf(t, nil) && !path.Top? && childParent == path.node
      requires Balanced(t, h) && ColorOf(t) == Black && Accepts(path, Black, h + 1)
      requires path.sibling.Bin? && sibling == path.sibling.node && path.sibling.color == Black
      requires ColorOf(if path.InLeft? then path.sibling.right else path.sibling.left) == Red
      modifies `root, `tree, `rotations, nodes
      ensures Intact() && nodes == old(nodes) && Inorder(tree) == old(Inorder(tree))
      ensures RedBlack(tree) && rotations == old(rotations) + 1
    {
      hide Linked, PathLinked, Holds, Extent, Apart, Nodes, PathNodes, Separate, PathSeparate, TopNode, Intact, Inorder;
      LookAside(path, t, h);
      ghost var sib, q := path.sibling.(color := path.color), WithColor(path, Black);
      Paint(sibling, childParent.color, Beside(path, t), path.sibling);
      Paint(childParent, Black, path.up, Join(WithSibling(path, sib), t));
      if childParent.right == child {
        LookKids(Beside(q, t), sib);
        Paint(sibling.left, Black, InLeft(sib.node, sib.color, sib.right, Beside(q, t)), sib.left);
        sib := sib.(left := sib.left.(color := Black));
        q := WithSibling(q, sib);
        RotateRightAt(childParent, q.up, Join(q, t));
        MadeGoodRight(t, path.node, path.color, path.sibling, h);
        PlugRedBlack(q.up, TurnRight(Join(q, t)), if path.color == Red then h + 1 else h + 2);
      } else {
        LookKids(Beside(q, t), sib);
        Paint(sibling.right, Black, InRight(sib.left, sib.node, sib.color, Beside(q, t)), sib.right);
        sib := sib.(right := sib.right.(color := Black));
        q := WithSibling(q, sib);
        RotateLeftAt(childParent, q.up, Join(q, t));
        MadeGoodLeft(t, path.node, path.color, path.sibling, h);
        PlugRedBlack(q.up, TurnLeft(Join(q, t)), if path.color == Red then h + 1 else h + 2);
      }
    }

    /** One round of the loop: the deficit is one level higher, or there is nothing left to do above. A red sibling has
        been turned away in the second case only. */
    method DeleteRound(child0: RbNode<K>, childParent0: RbNode<K>, sibling0: RbNode<K>,
                       ghost path: Path<K>, ghost t: Tree<K>, ghost h: nat)
      returns (child: RbNode<K>, childParent: RbNode<K>, sibling: RbNode<K>, goUp: bool,
               ghost p: Path<K>, ghost u: Tree<K>, ghost k: nat)
      requires Intact() && tree == Plug(path, t) && child0 == RootOf(t, nil) && !path.Top? && childParent0 == path.node
      requires Balanced(t, h) && ColorOf(t) == Black && Accepts(path, Black, h + 1)
      requires sibling0 == RootOf(path.sibling, nil)
      modifies `root, `tree, `rotations, nodes
      ensures Intact() && nodes == old(nodes) && Inorder(tree) == old(Inorder(tree))
      ensures tree == Plug(p, u) && child == RootOf(u, nil) && childParent == ParentOf(p, nil)
      ensures Balanced(u, k) && ColorOf(u) == Black && Accepts(p, Black, k + 1)
      ensures sibling == if p.Top? then nil else RootOf(p.sibling, nil)
      ensures goUp ==> p == path.up && k == h + 1 && rotations == old(rotations) && ColorOf(path.sibling) == Black
      ensures !goUp ==>
        && u == t && k == h && !p.Top? && p.node == path.node && ColorOf(p.sibling) == Black
        && rotations == old(rotations) + (if ColorOf(path.sibling) == Red then 1 else 0)
        && (p.color == Black ==> p.sibling.Bin? && !(ColorOf(p.sibling.left) == ColorOf(p.sibling.right) == Black))
    {
      hide Linked, PathLinked, Holds, Extent, Apart, Nodes, PathNodes, Separate, PathSeparate, TopNode, Intact, Inorder;
      child, childParent, sibling, goUp := child0, childParent0, sibling0, true;
      p, u, k := path, t, h;
      LookAside(p, t, h);
      if sibling.color == Red {
        sibling, p := TurnRedSibling(child, childParent, sibling, p, t, h);
        LookAside(p, t, h);
      }
      if childParent.color == Black && sibling.color == Black && sibling.left.color == Black
        && sibling.right.color == Black {
        if sibling != nil {
          Paint(sibling, Red, Beside(p, t), p.sibling);
        }
        child := childParent;
        childParent := childParent.parent;
        p, u, k := p.up, Join(WithSibling(p, p.sibling.(color := Red)), t), h + 1;
        sibling := SiblingOf(child, childParent, p, u, k);
      } else {
        goUp := false;
      }
    }

    /** The subtree `t0` is one black node short; moves the deficit up until it can be made good. */
    method DeleteFixup(child0: RbNode<K>, childParent0: RbNode<K>, ghost path0: Path<K>, ghost t0: Tree<K>,
                       ghost h0: nat)
      requires Intact() && tree == Plug(path0, t0) && child0 == RootOf(t0, nil) && childParent0 == ParentOf(path0, nil)
      requires Balanced(t0, h0) && ColorOf(t0) == Black && Accepts(path0, Black, h0 + 1)
      modifies `root, `tree, `rotations, nodes
      ensures Intact() && nodes == old(nodes) && Inorder(tree) == old(Inorder(tree))
      ensures RedBlack(tree) && rotations <= old(rotations) + 3
    {
      hide Linked, PathLinked, Holds, Extent, Apart, Nodes, PathNodes, Separate, PathSeparate, TopNode, Intact, Inorder;
      var child, childParent := child0, childParent0;
      ghost var path, t, h := path0, t0, h0;
      var goUp := true;
      var sibling := SiblingOf(child, childParent, path, t, h);
      while goUp
        invariant Intact() && nodes == old(nodes) && Inorder(tree) == old(Inorder(tree))
        invariant tree == Plug(path, t) && child == RootOf(t, nil) && childParent == ParentOf(path, nil)
        invariant Balanced(t, h) && ColorOf(t) == Black && Accepts(path, Black, h + 1)
        invariant sibling == if path.Top? then nil else RootOf(path.sibling, nil)
        invariant goUp ==> rotations == old(rotations)
        invariant !goUp ==> rotations <= old(rotations) + 1 && !path.Top? && ColorOf(path.sibling) == Black
        invariant !goUp && path.color == Black ==>
          path.sibling.Bin? && !(ColorOf(path.sibling.left) == ColorOf(path.sibling.right) == Black)
        decreases goUp, Depth(path)
      {
        Look(path, t);
        if !path.Top? { LookUp(path, t); }
        if childParent == nil {
          PlugRedBlack(path, t, h);
          return;
        }
        child, childParent, sibling, goUp, path, t, h := DeleteRound(child, childParent, sibling, path, t, h);
      }
      MakeGood(child, childParent, sibling, path, t, h);
    }

    /** What follows the loop: the red of the parent goes to the sibling, or rotations make the deficit good. */
    method MakeGood(child: RbNode<K>, childParent: RbNode<K>, lastSibling: RbNode<K>,
                    ghost path0: Path<K>, ghost t: Tree<K>, ghost h: nat)
      requires Intact() && tree == Plug(path0, t) && child == RootOf(t, nil) && !path0.Top? && childParent == path0.node
      requires Balanced(t, h) && ColorOf(t) == Black && Accepts(path0, Black, h + 1)
      requires lastSibling == RootOf(path0.sibling, nil) && ColorOf(path0.sibling) == Black
      requires path0.color == Black ==>
        path0.sibling.Bin? && !(ColorOf(path0.sibling.left) == ColorOf(path0.sibling.right) == Black)
      modifies `root, `tree, `rotations, nodes
      ensures Intact() && nodes == old(nodes) && Inorder(tree) == old(Inorder(tree))
      ensures RedBlack(tree) && rotations <= old(rotations) + 2
    {
      hide Linked, PathLinked, Holds, Extent, Apart, Nodes, PathNodes, Separate, PathSeparate, TopNode, Intact, Inorder;
      ghost var path := path0;
      var sibling := lastSibling;
      LookAside(path, t, h);
      if childParent.color == Red && sibling.color == Black && sibling.left.color == Black
        && sibling.right.color == Black {
        if sibling != nil {
          Paint(sibling, Red, Beside(path, t), path.sibling);
        }
        path := WithSibling(path, path.sibling.(color := Red));
        Paint(childParent, Black, path.up, Join(path, t));
        PlugRedBlack(path.up, Join(path, t).(color := Black), h + 1);
        return;
      }
      sibling, path := StraightenSibling(child, childParent, sibling, path, t, h);
      RotateAndExchange(child, childParent, sibling, path, t, h);
    }

    lemma {:induction false} LocateInTree(i: nat) returns (path: Path<K>, t: Tree<K>)
      requires i < |Inorder(tree)|
      ensures tree == Plug(path, t) && t.Bin? && t.node == Inorder(tree)[i]
      ensures |Before(path)| + |Inorder(t.left)| == i
    {
      path, t := LocateAt(Top, tree, i);
    }

    /** After this step `toDelete`, the i-th node, has no second child. */
    method AtMostOneChild(toDelete: RbNode<K>, ghost path: Path<K>, ghost t: Tree<K>, ghost i: nat)
      returns (ghost p: Path<K>, ghost u: Tree<K>)
      requires Intact() && tree == Plug(path, t) && t.Bin? && t.node == toDelete
      requires RedBlack(tree) && i == |Before(path)| + |Inorder(t.left)| < |Inorder(tree)| && Distinct(Inorder(tree))
      modifies `root, `tree, nodes
      ensures Intact() && nodes == old(nodes) && RedBlack(tree)
      ensures tree == Plug(p, u) && u.Bin? && (u.left.Leaf? || u.right.Leaf?) && u.node == toDelete
      ensures var j := |Before(p)| + |Inorder(u.left)|;
        j < |Inorder(tree)| == old(|Inorder(tree)|) && RemoveAt(Inorder(tree), j) == RemoveAt(old(Inorder(tree)), i)
    {
      hide Linked, PathLinked, Holds, Extent, Apart, Nodes, PathNodes, Separate, PathSeparate, TopNode, Intact,
        RedBlack, RemoveAt, Distinct, Plug;
      p, u := path, t;
      LookKids(path, t);
      NodesOfTree();
      if toDelete.left != nil && toDelete.right != nil {
        p, u := SwapWithSuccessor(toDelete, path, t, i);
        EmptyOrder<K>();
      }
    }

    /** Takes out a node with at most one child, and restores the balance. */
    method RemoveNode(toDelete: RbNode<K>, ghost path: Path<K>, ghost t: Tree<K>)
      requires Intact() && tree == Plug(path, t) && t.Bin? && t.node == toDelete
      requires RedBlack(tree) && (t.left.Leaf? || t.right.Leaf?)
      modifies `root, `tree, `nodes, `rotations, nodes
      ensures Intact() && RedBlack(tree) && nodes == old(nodes) - {toDelete} && toDelete in old(nodes)
        && toDelete != nil
      ensures var j := |Before(path)| + |Inorder(t.left)|;
        j < |old(Inorder(tree))| && Inorder(tree) == RemoveAt(old(Inorder(tree)), j)
      ensures rotations <= old(rotations) + 3
    {
      hide Linked, PathLinked, Holds, Extent, Apart, Nodes, PathNodes, Separate, PathSeparate, TopNode, Accepts;
      hide Intact, RedBlack, Inorder, Balanced, RemoveAt, Plug;
      LookKids(path, t);
      Look(path, t);
      NodesOfTree();
      var child: RbNode<K>;
      if toDelete.left != nil {
        child := toDelete.left;
      } else {
        child := toDelete.right;
      }
      ghost var h := SubtreeAccepted(path, t);
      AfterUnlink(path, t, h);
      SpliceInorder(path, t);
      Unlink(toDelete, child, path, t);
      Look(path, OnlyChild(t));
      if toDelete.color == Red {
      } else if child.color == Red {
        if child != nil {
          Paint(child, Black, path, OnlyChild(t));
        }
      } else {
        DeleteFixup(child, toDelete.parent, path, OnlyChild(t), h - 1);
      }
    }

    /** Unlinks the node with the key. The node keeps its identity; so does every other. */
    method Delete(key: K) returns (r: RbNode?<K>)
      requires Valid() && key in domain
      modifies this, nodes
      ensures Valid() && rotations <= old(rotations) + 3
      ensures !HasKey(old(Inorder(tree)), key) ==> r == null && unchanged(this) && Now(nodes) == old(Now(nodes))
      ensures HasKey(old(Inorder(tree)), key) ==>
        var s := old(Inorder(tree));
        var i := Rank(cmp, s, key);
        && i < |s| && r == s[i] && s[i].key == key && r in old(nodes)
        && count == old(count) - 1 && nodes == old(nodes) - {r} && Inorder(tree) == RemoveAt(s, i)
        && r.parent == r.left == r.right == nil && r.color == Black
    {
      hide Linked, PathLinked, Holds, Extent, Apart, Nodes, PathNodes, Separate, PathSeparate, TopNode, Accepts;
      hide Ordered, Intact, RedBlack, Rank, Inorder, Balanced, RemoveAt, Distinct, Plug;
      var toDelete := Search(key);
      if toDelete == null {
        return null;
      }
      ghost var s, i := Inorder(tree), Rank(cmp, Inorder(tree), key);
      SortedMeansDistinct(cmp, domain, s);
      OrderedRemove(cmp, domain, s, i);
      ghost var path, t := LocateInTree(i);
      count := count - 1;
      path, t := AtMostOneChild(toDelete, path, t, i);
      RemoveNode(toDelete, path, t);
      toDelete.parent := nil;
      toDelete.left := nil;
      toDelete.right := nil;
      toDelete.color := Black;
      r := toDelete;
    }
  }
}
