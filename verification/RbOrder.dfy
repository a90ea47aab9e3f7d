/** Search order: nodes sorted by a caller-supplied comparison, and what insertion and removal
    do to a sorted sequence of nodes. */
module RbOrder {
  import opened RbShape

  /** `cmp` orders the keys of `domain` the way strcmp orders strings: negative, zero or positive. */
  ghost predicate TotalOrder<K(!new)>(cmp: (K, K) -> int, domain: iset<K>) {
    && (forall a, b | a in domain && b in domain :: (cmp(a, b) == 0 <==> a == b) && (cmp(a, b) < 0 <==> cmp(b, a) > 0))
    && (forall a, b, c | a in domain && b in domain && c in domain && cmp(a, b) < 0 && cmp(b, c) < 0 :: cmp(a, c) < 0)
  }

  ghost predicate Sorted<K>(cmp: (K, K) -> int, s: seq<RbNode<K>>) {
    forall i, j | 0 <= i < j < |s| :: cmp(s[i].key, s[j].key) < 0
  }

  ghost predicate KeysIn<K>(s: seq<RbNode<K>>, domain: iset<K>) {
    forall i | 0 <= i < |s| :: s[i].key in domain
  }

  /** All keys of `s` are below `key`, or all above it. */
  ghost predicate AllBelow<K>(cmp: (K, K) -> int, s: seq<RbNode<K>>, key: K) {
    forall i | 0 <= i < |s| :: cmp(s[i].key, key) < 0
  }

  ghost predicate AllAbove<K>(cmp: (K, K) -> int, s: seq<RbNode<K>>, key: K) {
    forall i | 0 <= i < |s| :: cmp(key, s[i].key) < 0
  }

  lemma {:induction false} NodesAreInorder<K>(t: Tree<K>)
    ensures forall n | n in Nodes(t) :: n in Inorder(t)
    ensures forall i | 0 <= i < |Inorder(t)| :: Inorder(t)[i] in Nodes(t)
  {
    if t.Bin? {
      NodesAreInorder(t.left);
      NodesAreInorder(t.right);
      var s := Inorder(t.left) + [t.node] + Inorder(t.right);
      assert t.node == s[|Inorder(t.left)|];
      forall n | n in Nodes(t)
        ensures n in s
      {
        if n in Nodes(t.left) { assert n in Inorder(t.left); }
        if n in Nodes(t.right) { assert n in Inorder(t.right); }
      }
    }
  }

  /** The place of the i-th node. */
  lemma {:induction false} LocateAt<K>(path: Path<K>, t: Tree<K>, i: nat) returns (p: Path<K>, u: Tree<K>)
    requires i < |Inorder(t)|
    ensures Plug(p, u) == Plug(path, t) && u.Bin? && u.node == Inorder(t)[i]
    ensures |Before(p)| + |Inorder(u.left)| == |Before(path)| + i
    decreases t
  {
    var k := |Inorder(t.left)|;
    if i == k {
      p, u := path, t;
    } else if i < k {
      p, u := LocateAt(InLeft(t.node, t.color, t.right, path), t.left, i);
    } else {
      p, u := LocateAt(InRight(t.left, t.node, t.color, path), t.right, i - k - 1);
    }
  }

  /** Where `key` belongs in a sorted sequence: the number of keys below it. */
  function Rank<K>(cmp: (K, K) -> int, s: seq<RbNode<K>>, key: K): (i: nat)
    ensures i <= |s|
  {
    if s == [] || cmp(s[0].key, key) >= 0 then 0 else 1 + Rank(cmp, s[1..], key)
  }

  function InsertAt<T>(s: seq<T>, i: nat, x: T): seq<T>
    requires i <= |s|
  {
    s[..i] + [x] + s[i..]
  }

  function RemoveAt<T>(s: seq<T>, i: nat): seq<T>
    requires i < |s|
  {
    s[..i] + s[i + 1..]
  }

  lemma {:induction false} RankSplits<K(!new)>(cmp: (K, K) -> int, before: seq<RbNode<K>>,
                                               after: seq<RbNode<K>>, key: K)
    requires AllBelow(cmp, before, key)
    requires after != [] ==> cmp(after[0].key, key) >= 0
    ensures Rank(cmp, before + after, key) == |before|
  {
    if before == [] {
      assert before + after == after;
    } else {
      assert (before + after)[1..] == before[1..] + after;
      RankSplits(cmp, before[1..], after, key);
    }
  }

  lemma {:induction false} SortedInsert<K(!new)>(cmp: (K, K) -> int, before: seq<RbNode<K>>,
                                                 n: RbNode<K>, after: seq<RbNode<K>>)
    requires Sorted(cmp, before + after) && AllBelow(cmp, before, n.key) && AllAbove(cmp, after, n.key)
    ensures Sorted(cmp, before + [n] + after)
  {
    var s, r := before + after, before + [n] + after;
    forall i, j | 0 <= i < j < |r|
      ensures cmp(r[i].key, r[j].key) < 0
    {
      if i == |before| {
        assert r[j] == after[j - |before| - 1];
      } else if j == |before| {
        assert r[i] == before[i];
      } else {
        assert r[i] == s[if i < |before| then i else i - 1] && r[j] == s[if j < |before| then j else j - 1];
      }
    }
  }

  lemma {:induction false} KeysOfInsert<K>(domain: iset<K>, before: seq<RbNode<K>>, n: RbNode<K>, after: seq<RbNode<K>>)
    requires KeysIn(before + after, domain) && n.key in domain
    ensures KeysIn(before + [n] + after, domain)
  {
    var r := before + [n] + after;
    forall i | 0 <= i < |r|
      ensures r[i].key in domain
    {
      if i != |before| { assert r[i] == (before + after)[if i < |before| then i else i - 1]; }
    }
  }

  lemma {:induction false} BelowPivot<K(!new)>(cmp: (K, K) -> int, domain: iset<K>, before: seq<RbNode<K>>,
                                               n: RbNode<K>, after: seq<RbNode<K>>, key: K)
    requires TotalOrder(cmp, domain) && key in domain && cmp(n.key, key) < 0
    requires Sorted(cmp, before + [n] + after) && KeysIn(before + [n] + after, domain)
    ensures AllBelow(cmp, before + [n], key)
  {
    var s, k := before + [n] + after, |before|;
    assert s[k] == n;
    forall i | 0 <= i < k
      ensures cmp(before[i].key, key) < 0
    {
      assert s[i] == before[i] && cmp(s[i].key, s[k].key) < 0;
    }
  }

  lemma {:induction false} AbovePivot<K(!new)>(cmp: (K, K) -> int, domain: iset<K>, before: seq<RbNode<K>>,
                                               n: RbNode<K>, after: seq<RbNode<K>>, key: K)
    requires TotalOrder(cmp, domain) && key in domain && cmp(key, n.key) < 0
    requires Sorted(cmp, before + [n] + after) && KeysIn(before + [n] + after, domain)
    ensures AllAbove(cmp, [n] + after, key)
  {
    var s, k := before + [n] + after, |before|;
    assert s[k] == n;
    forall i | 0 <= i < |after|
      ensures cmp(key, after[i].key) < 0
    {
      assert s[k + 1 + i] == after[i] && cmp(s[k].key, s[k + 1 + i].key) < 0;
    }
  }

  /** A search that turns right, or left, at the root of `t` keeps the keys apart. */
  lemma {:induction false} TurnedRight<K(!new)>(cmp: (K, K) -> int, domain: iset<K>, path: Path<K>, t: Tree<K>, key: K)
    requires TotalOrder(cmp, domain) && t.Bin? && key in domain
    requires Sorted(cmp, Inorder(Plug(path, t))) && KeysIn(Inorder(Plug(path, t)), domain)
    requires cmp(t.node.key, key) < 0
    ensures AllBelow(cmp, Before(path) + Inorder(t.left) + [t.node], key)
  {
    hide Sorted, KeysIn, TotalOrder, AllBelow, AllAbove;
    InorderPlug(path, t);
    Regroup(Before(path), Inorder(t.left), [t.node], Inorder(t.right), After(path));
    BelowPivot(cmp, domain, Before(path) + Inorder(t.left), t.node, Inorder(t.right) + After(path), key);
  }

  lemma {:induction false} TurnedLeft<K(!new)>(cmp: (K, K) -> int, domain: iset<K>, path: Path<K>, t: Tree<K>, key: K)
    requires TotalOrder(cmp, domain) && t.Bin? && key in domain
    requires Sorted(cmp, Inorder(Plug(path, t))) && KeysIn(Inorder(Plug(path, t)), domain)
    requires cmp(key, t.node.key) < 0
    ensures AllAbove(cmp, [t.node] + Inorder(t.right) + After(path), key)
  {
    hide Sorted, KeysIn, TotalOrder, AllBelow, AllAbove;
    InorderPlug(path, t);
    Regroup(Before(path), Inorder(t.left), [t.node], Inorder(t.right), After(path));
    AbovePivot(cmp, domain, Before(path) + Inorder(t.left), t.node, Inorder(t.right) + After(path), key);
  }

  lemma {:induction false} SortedRemove<K(!new)>(cmp: (K, K) -> int, s: seq<RbNode<K>>, i: nat)
    requires Sorted(cmp, s) && i < |s|
    ensures Sorted(cmp, RemoveAt(s, i))
  {
    var r := RemoveAt(s, i);
    forall a, b | 0 <= a < b < |r|
      ensures cmp(r[a].key, r[b].key) < 0
    {
      assert r[a] == s[if a < i then a else a + 1] && r[b] == s[if b < i then b else b + 1];
    }
  }

  lemma {:induction false} SortedDistinct<K(!new)>(cmp: (K, K) -> int, domain: iset<K>, s: seq<RbNode<K>>,
                                                   i: nat, j: nat)
    requires TotalOrder(cmp, domain) && Sorted(cmp, s) && KeysIn(s, domain) && i < |s| && j < |s|
    ensures s[i].key == s[j].key ==> i == j
  {
    if i < j { assert cmp(s[i].key, s[j].key) < 0; }
    if j < i { assert cmp(s[j].key, s[i].key) < 0; }
  }

  lemma {:induction false} OrderedRemove<K(!new)>(cmp: (K, K) -> int, domain: iset<K>, s: seq<RbNode<K>>, i: nat)
    requires Ordered(cmp, domain, s) && i < |s|
    ensures Ordered(cmp, domain, RemoveAt(s, i)) && |RemoveAt(s, i)| == |s| - 1
  {
    SortedRemove(cmp, s, i);
    forall k | 0 <= k < |s| - 1
      ensures RemoveAt(s, i)[k].key in domain
    {
      assert RemoveAt(s, i)[k] == s[if k < i then k else k + 1];
    }
  }

  // ----- A search, step by step -----

  ghost predicate HasKey<K>(s: seq<RbNode<K>>, key: K) {
    exists i :: 0 <= i < |s| && s[i].key == key
  }

  ghost predicate Ordered<K(!new)>(cmp: (K, K) -> int, domain: iset<K>, s: seq<RbNode<K>>) {
    TotalOrder(cmp, domain) && Sorted(cmp, s) && KeysIn(s, domain)
  }

  /** The search for `key` has come down `path`: what lies before the hole is smaller, what lies after it larger. */
  ghost predicate Between<K(!new)>(cmp: (K, K) -> int, path: Path<K>, key: K) {
    AllBelow(cmp, Before(path), key) && AllAbove(cmp, After(path), key)
  }

  lemma {:induction false} BetweenAtTop<K(!new)>(cmp: (K, K) -> int, key: K)
    ensures Between(cmp, Top, key)
  {
  }

  /** The index of the node at a position. */
  lemma {:induction false} IndexOf<K>(path: Path<K>, t: Tree<K>)
    requires t.Bin?
    ensures |Before(path)| + |Inorder(t.left)| < |Inorder(Plug(path, t))|
    ensures Inorder(Plug(path, t))[|Before(path)| + |Inorder(t.left)|] == t.node
  {
    InorderPlug(path, t);
    assert Inorder(t)[|Inorder(t.left)|] == t.node;
  }

  lemma {:induction false} RankOfMember<K(!new)>(cmp: (K, K) -> int, domain: iset<K>, s: seq<RbNode<K>>, i: nat)
    requires Ordered(cmp, domain, s) && i < |s|
    ensures Rank(cmp, s, s[i].key) == i
  {
    assert s == s[..i] + s[i..];
    RankSplits(cmp, s[..i], s[i..], s[i].key);
  }

  /** One comparison of a search. */
  lemma {:induction false} Compared<K(!new)>(cmp: (K, K) -> int, domain: iset<K>, path: Path<K>, t: Tree<K>, key: K)
    requires Ordered(cmp, domain, Inorder(Plug(path, t))) && t.Bin? && key in domain && Between(cmp, path, key)
    ensures t.node in Inorder(Plug(path, t)) && t.node.key in domain
    ensures cmp(key, t.node.key) == 0 ==>
      && t.node.key == key && Rank(cmp, Inorder(Plug(path, t)), key) < |Inorder(Plug(path, t))|
      && Inorder(Plug(path, t))[Rank(cmp, Inorder(Plug(path, t)), key)] == t.node
    ensures cmp(key, t.node.key) < 0 ==> Between(cmp, InLeft(t.node, t.color, t.right, path), key)
    ensures cmp(key, t.node.key) > 0 ==> Between(cmp, InRight(t.left, t.node, t.color, path), key)
  {
    hide Inorder, Plug, Rank, Sorted;
    IndexOf(path, t);
    RankOfMember(cmp, domain, Inorder(Plug(path, t)), |Before(path)| + |Inorder(t.left)|);
    if cmp(key, t.node.key) < 0 {
      TurnedLeft(cmp, domain, path, t, key);
    } else if cmp(key, t.node.key) > 0 {
      TurnedRight(cmp, domain, path, t, key);
    }
  }

  /** A search that reached an empty place: the key is absent, and this is where it belongs. */
  lemma {:induction false} NotFound<K(!new)>(cmp: (K, K) -> int, domain: iset<K>, path: Path<K>, key: K)
    requires Ordered(cmp, domain, Inorder(Plug(path, Leaf))) && key in domain && Between(cmp, path, key)
    ensures !HasKey(Inorder(Plug(path, Leaf)), key)
    ensures Rank(cmp, Inorder(Plug(path, Leaf)), key) == |Before(path)|
    ensures Inorder(Plug(path, Leaf)) == Before(path) + After(path)
  {
    InorderPlug(path, Leaf);
    assert Before(path) + Inorder(Tree<K>.Leaf) + After(path) == Before(path) + After(path);
    Absent(cmp, domain, Before(path), After(path), key);
  }

  lemma {:induction false} Absent<K(!new)>(cmp: (K, K) -> int, domain: iset<K>, before: seq<RbNode<K>>,
                                           after: seq<RbNode<K>>, key: K)
    requires TotalOrder(cmp, domain) && KeysIn(before + after, domain) && key in domain
    requires AllBelow(cmp, before, key) && AllAbove(cmp, after, key)
    ensures !HasKey(before + after, key) && Rank(cmp, before + after, key) == |before|
  {
    var s := before + after;
    forall i | 0 <= i < |s|
      ensures s[i].key != key && (i >= |before| ==> cmp(s[i].key, key) >= 0)
    {
      if i < |before| {
        assert s[i] == before[i];
      } else {
        assert s[i] == after[i - |before|];
      }
    }
    if after != [] { assert s[|before|] == after[0]; }
    RankSplits(cmp, before, after, key);
  }

  /** What hanging a node into that place does to the order. */
  lemma {:induction false} HookInorder<K(!new)>(cmp: (K, K) -> int, domain: iset<K>, path: Path<K>, n: RbNode<K>)
    requires Ordered(cmp, domain, Inorder(Plug(path, Leaf))) && n.key in domain && Between(cmp, path, n.key)
    ensures n !in Nodes(Plug(path, Leaf))
    ensures var s := Inorder(Plug(path, Leaf));
      var r := Inorder(Plug(path, Bin(Leaf, n, Red, Leaf)));
      r == InsertAt(s, Rank(cmp, s, n.key), n) && |r| == |s| + 1 && Ordered(cmp, domain, r)
  {
    hide Plug, Before, After, Rank, TotalOrder, Sorted, KeysIn, AllBelow, AllAbove;
    NotFound(cmp, domain, path, n.key);
    NodesAreInorder(Plug(path, Leaf));
    InorderPlug(path, Bin(Leaf, n, Red, Leaf));
    assert Inorder(Bin(Leaf, n, Red, Leaf)) == [n];
    SortedInsert(cmp, Before(path), n, After(path));
    KeysOfInsert(domain, Before(path), n, After(path));
  }

  /** What Rank means: everything before it is smaller than the key, everything from it on is not. */
  lemma {:induction false} RankIsBoundary<K(!new)>(cmp: (K, K) -> int, domain: iset<K>, s: seq<RbNode<K>>, key: K)
    requires Ordered(cmp, domain, s) && key in domain
    ensures forall i | 0 <= i < |s| :: cmp(s[i].key, key) < 0 <==> i < Rank(cmp, s, key)
    ensures HasKey(s, key) <==> Rank(cmp, s, key) < |s| && s[Rank(cmp, s, key)].key == key
  {
    RankBound(cmp, domain, s, key);
    if i :| 0 <= i < |s| && s[i].key == key {
      RankOfMember(cmp, domain, s, i);
    }
  }

  lemma {:induction false} RankBound<K(!new)>(cmp: (K, K) -> int, domain: iset<K>, s: seq<RbNode<K>>, key: K)
    requires Ordered(cmp, domain, s) && key in domain
    ensures forall i | 0 <= i < |s| :: cmp(s[i].key, key) < 0 <==> i < Rank(cmp, s, key)
  {
    if s != [] {
      if cmp(s[0].key, key) >= 0 {
        forall i | 0 < i < |s|
          ensures cmp(s[i].key, key) >= 0
        {
          assert cmp(s[0].key, s[i].key) < 0;
        }
      } else {
        RankBound(cmp, domain, s[1..], key);
        forall i | 0 < i < |s|
          ensures cmp(s[i].key, key) < 0 <==> i < Rank(cmp, s, key)
        {
          assert s[i] == s[1..][i - 1];
        }
      }
    }
  }

  // ----- Trading places with the next node in order -----

  lemma {:induction false} ExchangeInorder<K>(t: Tree<K>, d: RbNode<K>, m: RbNode<K>)
    ensures |Inorder(Exchange(t, d, m))| == |Inorder(t)|
    ensures forall i | 0 <= i < |Inorder(t)| :: Inorder(Exchange(t, d, m))[i] == Other(Inorder(t)[i], d, m)
  {
    if t.Bin? {
      ExchangeInorder(t.left, d, m);
      ExchangeInorder(t.right, d, m);
    }
  }

  lemma {:induction false} ExchangeBefore<K>(path: Path<K>, d: RbNode<K>, m: RbNode<K>)
    ensures |Before(ExchangePath(path, d, m))| == |Before(path)|
    decreases path
  {
    if !path.Top? {
      ExchangeBefore(path.up, d, m);
      if path.InRight? { ExchangeInorder(path.sibling, d, m); }
    }
  }

  ghost predicate Distinct<T>(s: seq<T>) {
    forall i, j | 0 <= i < j < |s| :: s[i] != s[j]
  }

  lemma {:induction false} SortedMeansDistinct<K(!new)>(cmp: (K, K) -> int, domain: iset<K>, s: seq<RbNode<K>>)
    requires Ordered(cmp, domain, s)
    ensures Distinct(s)
  {
    forall i, j | 0 <= i < j < |s|
      ensures s[i] != s[j]
    {
      SortedDistinct(cmp, domain, s, i, j);
    }
  }

  /** A node that trades places with its successor and then leaves has simply left. */
  lemma {:induction false} ExchangeThenRemove<K>(s: seq<RbNode<K>>, r: seq<RbNode<K>>, i: nat)
    requires i + 1 < |s| == |r| && Distinct(s)
    requires forall k | 0 <= k < |s| :: r[k] == Other(s[k], s[i], s[i + 1])
    ensures r[i + 1] == s[i] && RemoveAt(r, i + 1) == RemoveAt(s, i)
  {
    var a, b := RemoveAt(r, i + 1), RemoveAt(s, i);
    forall k | 0 <= k < |b|
      ensures a[k] == b[k]
    {
      if k < i {
        assert a[k] == r[k] && b[k] == s[k];
      } else if k == i {
        assert a[k] == r[i] && b[k] == s[i + 1];
      } else {
        assert a[k] == r[k + 1] && b[k] == s[k + 1];
      }
    }
  }

  /** The order and the position of `t.node` after it has traded places with its successor `u.node`. */
  lemma {:induction false} AfterExchange<K>(path: Path<K>, t: Tree<K>, p: Path<K>, u: Tree<K>)
    requires t.Bin? && u.Bin? && u.left.Leaf? && Plug(p, u) == Plug(path, t) && Distinct(Inorder(Plug(path, t)))
    requires Before(p) == Before(path) + Inorder(t.left) + [t.node]
    ensures var i, s := |Before(path)| + |Inorder(t.left)|, Inorder(Plug(path, t));
      var q, v := ExchangePath(p, t.node, u.node), Exchange(u, t.node, u.node);
      && Plug(q, v) == Exchange(Plug(path, t), t.node, u.node)
      && v.Bin? && v.left.Leaf? && v.node == t.node && |Before(q)| == i + 1 < |s| == |Inorder(Plug(q, v))|
      && RemoveAt(Inorder(Plug(q, v)), i + 1) == RemoveAt(s, i)
  {
    hide Plug, Inorder, RemoveAt, Distinct;
    var i, s := |Before(path)| + |Inorder(t.left)|, Inorder(Plug(path, t));
    assert Inorder(u.left) == [] by { EmptyOrder<K>(); }
    IndexOf(path, t);
    IndexOf(p, u);
    ExchangePlug(p, u, t.node, u.node);
    ExchangeBefore(p, t.node, u.node);
    ExchangeInorder(Plug(path, t), t.node, u.node);
    assert s[i] == t.node && s[i + 1] == u.node;
    assert t.node != u.node by { DistinctAt(s, i, i + 1); }
    ExchangeThenRemove(s, Inorder(Exchange(Plug(path, t), t.node, u.node)), i);
  }

  lemma {:induction false} EmptyOrder<K>()
    ensures Inorder(Tree<K>.Leaf) == []
  {
  }

  lemma {:induction false} DistinctAt<T>(s: seq<T>, i: nat, j: nat)
    requires Distinct(s) && i < j < |s|
    ensures s[i] != s[j]
  {
  }

  lemma {:induction false} SpliceOut<T>(x: seq<T>, l: seq<T>, n: T, r: seq<T>, y: seq<T>)
    ensures |x + (l + [n] + r) + y| > |x| + |l|
    ensures RemoveAt(x + (l + [n] + r) + y, |x| + |l|) == x + (l + r) + y
  {
    var s, i := x + (l + [n] + r) + y, |x| + |l|;
    assert s[..i] == x + l;
    assert s[i + 1..] == r + y;
  }

  lemma {:induction false} SpliceInorder<K>(path: Path<K>, t: Tree<K>)
    requires t.Bin? && (t.left.Leaf? || t.right.Leaf?)
    ensures |Before(path)| + |Inorder(t.left)| < |Inorder(Plug(path, t))|
    ensures Inorder(Plug(path, OnlyChild(t))) == RemoveAt(Inorder(Plug(path, t)), |Before(path)| + |Inorder(t.left)|)
  {
    hide Before, After, Plug, RemoveAt;
    InorderPlug(path, t);
    InorderPlug(path, OnlyChild(t));
    SpliceOut(Before(path), Inorder(t.left), t.node, Inorder(t.right), After(path));
    assert Inorder(OnlyChild(t)) == Inorder(t.left) + Inorder(t.right);
  }

  // ----- Post-order -----

  function Postorder<K>(t: Tree<K>): seq<RbNode<K>> {
    match t
    case Leaf => []
    case Bin(l, n, _, r) => Postorder(l) + Postorder(r) + [n]
  }

  /** Everything below a node comes before it. */
  lemma {:induction false} BelowComesFirst<K>(path: Path<K>, u: Tree<K>) returns (a: seq<RbNode<K>>, b: seq<RbNode<K>>)
    requires u.Bin?
    ensures Postorder(Plug(path, u)) == a + (Postorder(u.left) + Postorder(u.right) + [u.node]) + b
    decreases path
  {
    if path.Top? {
      a, b := [], [];
      assert Postorder(u) == [] + Postorder(u) + [];
    } else {
      var joined := Join(path, u);
      a, b := BelowComesFirst(path.up, joined);
      if path.InLeft? {
        SplitOutLeft(a, Postorder(u), Postorder(path.sibling), [path.node], b);
        b := Postorder(path.sibling) + [path.node] + b;
      } else {
        SplitOutRight(a, Postorder(path.sibling), Postorder(u), [path.node], b);
        a, b := a + Postorder(path.sibling), [path.node] + b;
      }
    }
  }

  lemma {:induction false} SplitOutLeft<T>(a: seq<T>, u: seq<T>, v: seq<T>, n: seq<T>, b: seq<T>)
    ensures a + (u + v + n) + b == a + u + (v + n + b)
  {
  }

  lemma {:induction false} SplitOutRight<T>(a: seq<T>, v: seq<T>, u: seq<T>, n: seq<T>, b: seq<T>)
    ensures a + (v + u + n) + b == (a + v) + u + (n + b)
  {
  }

  /** Post-order visits the same nodes, as often, as the order of the keys does. */
  lemma {:induction false} PostorderVisitsAll<K>(t: Tree<K>)
    ensures multiset(Postorder(t)) == multiset(Inorder(t))
  {
    if t.Bin? {
      PostorderVisitsAll(t.left);
      PostorderVisitsAll(t.right);
    }
  }
}
