/** Whole runs: any sequence of insertions, deletions and searches on a tree behaves as it would on
    a finite map from keys to nodes. Also the concrete comparison that src/map.c hands to the tree. */
module RbRuns {
  import opened RbShape
  import opened RbBalance
  import opened RbOrder
  import opened RbTree

  /** The sequence of nodes lists exactly the entries of the map. */
  ghost predicate Lists<K>(s: seq<RbNode<K>>, m: map<K, RbNode<K>>) {
    && (forall i | 0 <= i < |s| :: s[i].key in m && m[s[i].key] == s[i])
    && (forall k | k in m :: HasKey(s, k))
  }

  ghost predicate DistinctKeys<K>(s: seq<RbNode<K>>) {
    forall i, j | 0 <= i < j < |s| :: s[i].key != s[j].key
  }

  lemma {:induction false} OrderedKeysDiffer<K(!new)>(cmp: (K, K) -> int, domain: iset<K>, s: seq<RbNode<K>>)
    requires Ordered(cmp, domain, s)
    ensures DistinctKeys(s)
  {
    forall i, j | 0 <= i < j < |s|
      ensures s[i].key != s[j].key
    {
      SortedDistinct(cmp, domain, s, i, j);
    }
  }

  lemma {:induction false} ListsInsert<K>(s: seq<RbNode<K>>, m: map<K, RbNode<K>>, i: nat, n: RbNode<K>)
    requires Lists(s, m) && i <= |s| && n.key !in m
    ensures Lists(InsertAt(s, i, n), m[n.key := n])
  {
    var r, m' := InsertAt(s, i, n), m[n.key := n];
    forall j | 0 <= j < |r|
      ensures r[j].key in m' && m'[r[j].key] == r[j]
    {
      if j != i { assert r[j] == s[if j < i then j else j - 1]; }
    }
    forall k | k in m'
      ensures HasKey(r, k)
    {
      if k == n.key {
        assert r[i].key == k;
      } else {
        assert HasKey(s, k);
        var j :| 0 <= j < |s| && s[j].key == k;
        assert r[if j < i then j else j + 1].key == k;
      }
    }
  }

  lemma {:induction false} ListsRemove<K>(s: seq<RbNode<K>>, m: map<K, RbNode<K>>, i: nat)
    requires Lists(s, m) && i < |s| && DistinctKeys(s)
    ensures Lists(RemoveAt(s, i), m - {s[i].key})
  {
    var r, m' := RemoveAt(s, i), m - {s[i].key};
    forall j | 0 <= j < |r|
      ensures r[j].key in m' && m'[r[j].key] == r[j]
    {
      assert r[j] == s[if j < i then j else j + 1];
    }
    forall k | k in m'
      ensures HasKey(r, k)
    {
      assert HasKey(s, k);
      var j :| 0 <= j < |s| && s[j].key == k;
      assert r[if j < i then j else j - 1].key == k;
    }
  }

  lemma {:induction false} ListsSize<K>(s: seq<RbNode<K>>, m: map<K, RbNode<K>>)
    requires Lists(s, m) && DistinctKeys(s)
    ensures |m| == |s|
    decreases |s|
  {
    if s == [] {
      assert forall k | k in m :: HasKey(s, k);
      assert m == map[];
    } else {
      ListsRemove(s, m, 0);
      assert RemoveAt(s, 0) == s[1..];
      ListsSize(s[1..], m - {s[0].key});
      assert (m - {s[0].key}).Keys == m.Keys - {s[0].key};
    }
  }

  /** What a caller can ask of a tree, and what a finite map would answer. */
  datatype Op<!K> = Insert(node: RbNode<K>) | Delete(key: K) | Search(key: K)

  ghost function Answer<K>(m: map<K, RbNode<K>>, op: Op<K>): RbNode?<K> {
    match op
    case Insert(n) => if n.key in m then null else n
    case Delete(k) => if k in m then m[k] else null
    case Search(k) => if k in m then m[k] else null
  }

  ghost function Effect<K>(m: map<K, RbNode<K>>, op: Op<K>): map<K, RbNode<K>> {
    match op
    case Insert(n) => if n.key in m then m else m[n.key := n]
    case Delete(k) => m - {k}
    case Search(_) => m
  }

  ghost function After<K>(ops: seq<Op<K>>): map<K, RbNode<K>> {
    if ops == [] then map[] else Effect(After(ops[..|ops| - 1]), ops[|ops| - 1])
  }

  ghost function Answers<K>(ops: seq<Op<K>>): seq<RbNode?<K>> {
    if ops == [] then []
    else Answers(ops[..|ops| - 1]) + [Answer(After(ops[..|ops| - 1]), ops[|ops| - 1])]
  }

  function Inserted<K>(ops: seq<Op<K>>): set<RbNode<K>> {
    set i | 0 <= i < |ops| && ops[i].Insert? :: ops[i].node
  }

  ghost predicate Allowed<K>(op: Op<K>, nil: RbNode<K>, domain: iset<K>) {
    match op
    case Insert(n) => n != nil && n.key in domain
    case Delete(k) => k in domain
    case Search(k) => k in domain
  }

  /** One operation. */
  method Perform<K(!new)>(t: RbTree<K>, op: Op<K>, ghost m: map<K, RbNode<K>>) returns (answer: RbNode?<K>)
    requires t.Valid() && Allowed(op, t.nil, t.domain) && Lists(Inorder(t.tree), m)
    modifies t, t.nodes, if op.Insert? then {op.node} else {}
    ensures t.Valid() && t.nodes <= old(t.nodes) + (if op.Insert? then {op.node} else {})
    ensures answer == Answer(m, op) && Lists(Inorder(t.tree), Effect(m, op))
  {
    hide Ordered, Inorder, RedBlack, Rank, RemoveAt, InsertAt, DistinctKeys;
    ghost var s := Inorder(t.tree);
    OrderedKeysDiffer(t.cmp, t.domain, s);
    match op {
      case Insert(n) =>
        answer := t.Insert(n);
        if answer != null {
          ListsInsert(s, m, Rank(t.cmp, s, n.key), n);
        }
      case Delete(k) =>
        answer := t.Delete(k);
        if answer != null {
          ListsRemove(s, m, Rank(t.cmp, s, k));
        }
      case Search(k) =>
        answer := t.Search(k);
    }
  }

  /** Any run from an empty tree. Since the sentinel is in no frame, no step writes to it. */
  method Run<K(!new)>(cmp: (K, K) -> int, nil: RbNode<K>, ghost domain: iset<K>, ops: seq<Op<K>>)
    returns (t: RbTree<K>, answers: seq<RbNode?<K>>)
    requires TotalOrder(cmp, domain)
    requires nil.parent == nil.left == nil.right == nil && nil.color == Black
    requires forall i | 0 <= i < |ops| :: Allowed(ops[i], nil, domain)
    modifies Inserted(ops)
    ensures fresh(t) && t.Valid()
    ensures answers == Answers(ops)
    ensures Lists(Inorder(t.tree), After(ops)) && t.count == |After(ops)|
  {
    hide Lists, TotalOrder, RedBlack, Ordered, Inorder;
    t := new RbTree(cmp, nil, domain);
    answers := [];
    NoEntries<K>();
    for i := 0 to |ops|
      invariant t.Valid() && t.nil == nil && t.domain == domain && t.nodes <= Inserted(ops)
      invariant answers == Answers(ops[..i]) && Lists(Inorder(t.tree), After(ops[..i]))
    {
      assert ops[..i + 1][..i] == ops[..i] && ops[..i + 1][i] == ops[i];
      if ops[i].Insert? { assert ops[i].node in Inserted(ops); }
      var answer := Perform(t, ops[i], After(ops[..i]));
      answers := answers + [answer];
    }
    assert ops[..|ops|] == ops;
    OrderedKeysDiffer(t.cmp, t.domain, Inorder(t.tree));
    ListsSize(Inorder(t.tree), After(ops));
  }

  lemma {:induction false} NoEntries<K>()
    ensures Lists(Inorder(Tree<K>.Leaf), map[])
  {
  }

  // ----- The comparison that src/map.c hands to the tree -----

  const TWO_31 := 0x8000_0000
  const TWO_32 := 0x1_0000_0000
  const TWO_64 := 0x1_0000_0000_0000_0000

  /** The conversion of a 64-bit difference to a 32-bit int. */
  function ToInt(x: nat): int {
    var low := x % TWO_32;
    if low < TWO_31 then low else low - TWO_32
  }

  /** pb->key - pa->key, computed in 64 bits and returned as an int. */
  function Cmpf(a: nat, b: nat): int {
    ToInt((b - a) % TWO_64)
  }

  lemma {:induction false} Truncated(a: nat, b: nat)
    requires a < b < TWO_64
    ensures Cmpf(a, b) == ToInt(b - a) && Cmpf(b, a) == ToInt(TWO_64 - (b - a))
    ensures (TWO_64 - (b - a)) % TWO_32 == (TWO_32 - (b - a) % TWO_32) % TWO_32
  {
    assert (a - b) % TWO_64 == TWO_64 - (b - a);
  }

  /** How far `k` lies behind `low` on the circle of 32-bit residues, all that is left of a difference. */
  function Offset(low: nat, k: nat): (r: int)
    ensures 0 <= r < TWO_32
  {
    (k - low) % TWO_32
  }

  lemma {:induction false} CmpfOfOffset(a: nat, b: nat)
    requires a < TWO_64 && b < TWO_64
    ensures Cmpf(a, b) == if Offset(a, b) < TWO_31 then Offset(a, b) else Offset(a, b) - TWO_32
  {
    if a <= b {
      assert (b - a) % TWO_64 == b - a;
    } else {
      assert (b - a) % TWO_64 == b - a + TWO_64;
      assert TWO_64 == TWO_32 * TWO_32;
      assert (b - a + TWO_64) % TWO_32 == (b - a) % TWO_32;
    }
  }

  lemma {:induction false} OffsetsAdd(low: nat, a: nat, b: nat)
    ensures Offset(a, b) == (Offset(low, b) - Offset(low, a)) % TWO_32
  {
    var p, q := (a - low) / TWO_32, (b - low) / TWO_32;
    assert a - low == p * TWO_32 + Offset(low, a) && b - low == q * TWO_32 + Offset(low, b);
    assert b - a == (q - p) * TWO_32 + (Offset(low, b) - Offset(low, a));
  }

  /** All keys of the set lie, apart from each other, in the half circle that starts at `low`. */
  ghost predicate InHalfCircle(domain: iset<nat>, low: nat) {
    && (forall a | a in domain :: Offset(low, a) < TWO_31)
    && (forall a, b | a in domain && b in domain && Offset(low, a) == Offset(low, b) :: a == b)
  }

  lemma {:induction false} CmpfInHalfCircle(domain: iset<nat>, low: nat, a: nat, b: nat)
    requires InHalfCircle(domain, low) && a in domain && b in domain && a < TWO_64 && b < TWO_64
    ensures Cmpf(a, b) == Offset(low, b) - Offset(low, a)
  {
    CmpfOfOffset(a, b);
    OffsetsAdd(low, a, b);
  }

  lemma {:induction false} HalfCircleIsTotal(domain: iset<nat>, low: nat)
    requires InHalfCircle(domain, low) && forall a | a in domain :: a < TWO_64
    ensures TotalOrder(Cmpf, domain)
  {
    hide Offset;
    forall a, b | a in domain && b in domain
      ensures Cmpf(a, b) == Offset(low, b) - Offset(low, a)
    {
      CmpfInHalfCircle(domain, low, a, b);
    }
  }

  /** A finite set of keys has one that counts as first. */
  lemma {:induction false} FirstKey<K(!new)>(cmp: (K, K) -> int, domain: iset<K>, s: set<K>) returns (low: K)
    requires TotalOrder(cmp, domain) && s != {} && forall k | k in s :: k in domain
    ensures low in s && forall k | k in s && k != low :: cmp(low, k) > 0
    decreases |s|
  {
    var k :| k in s;
    if s == {k} {
      low := k;
    } else {
      var m := FirstKey(cmp, domain, s - {k});
      low := if cmp(m, k) > 0 then m else k;
    }
  }

  ghost function KeysBelow(domain: iset<nat>, n: nat): (s: set<nat>)
    ensures forall k :: k in s <==> k in domain && k < n
  {
    if n == 0 then {} else KeysBelow(domain, n - 1) + if n - 1 in domain then {n - 1} else {}
  }

  /** The comparison is a total order, as the tree needs it, on exactly those sets of keys that lie in a half circle
      starting at one of them. */
  lemma {:induction false} TotalExactlyWhen(domain: iset<nat>)
    requires forall a | a in domain :: a < TWO_64
    ensures TotalOrder(Cmpf, domain) <==> domain == iset{} || exists low | low in domain :: InHalfCircle(domain, low)
  {
    hide InHalfCircle, TotalOrder, Offset;
    if low :| low in domain && InHalfCircle(domain, low) {
      HalfCircleIsTotal(domain, low);
    } else if domain == iset{} {
      NoKeys(Cmpf);
    } else if TotalOrder(Cmpf, domain) {
      var s := KeysBelow(domain, TWO_64);
      var any :| any in domain;
      assert any in s;
      var low := FirstKey(Cmpf, domain, s);
      TotalIsHalfCircle(domain, low);
    }
  }

  lemma {:induction false} NoKeys<K(!new)>(cmp: (K, K) -> int)
    ensures TotalOrder(cmp, iset{})
  {
  }

  lemma {:induction false} TotalIsHalfCircle(domain: iset<nat>, low: nat)
    requires TotalOrder(Cmpf, domain) && low in domain && forall a | a in domain :: a < TWO_64
    requires forall k | k in domain && k != low :: Cmpf(low, k) > 0
    ensures InHalfCircle(domain, low)
  {
    forall a | a in domain
      ensures Offset(low, a) < TWO_31
    {
      CmpfOfOffset(low, a);
    }
    forall a, b | a in domain && b in domain && Offset(low, a) == Offset(low, b)
      ensures a == b
    {
      OffsetsAdd(low, a, b);
      CmpfOfOffset(a, b);
    }
  }

  predicate InWindow(low: nat, k: nat) {
    low <= k < low + TWO_31
  }

  /** On a window of 2^31 keys the comparison is a total order, so that the tree may use it. */
  lemma {:induction false} CmpfIsTotalOnWindow(low: nat)
    requires low + TWO_31 <= TWO_64
    ensures TotalOrder(Cmpf, iset k: nat | InWindow(low, k))
  {
    var domain := iset k: nat | InWindow(low, k);
    assert forall k | k in domain :: Offset(low, k) == k - low;
    assert InHalfCircle(domain, low);
    HalfCircleIsTotal(domain, low);
  }

  /** Two keys 2^32 apart count as equal. */
  lemma {:induction false} CmpfConfusesDistantKeys()
    ensures var domain: iset<nat> := iset{7, 7 + TWO_32}; Cmpf(7, 7 + TWO_32) == 0 && !TotalOrder(Cmpf, domain)
  {
    assert Cmpf(7, 7 + TWO_32) == 0;
  }

  // ----- Descending, as the order of the difference suggests -----

  ghost predicate DescendingOn(domain: iset<nat>) {
    forall a, b | a in domain && b in domain && a < b :: Cmpf(a, b) > 0 && Cmpf(b, a) < 0
  }

  /** Larger keys count as smaller in exactly those sets whose distances are in (0, 2^31) modulo 2^32. */
  lemma {:induction false} DescendingExactlyWhen(domain: iset<nat>)
    requires forall a | a in domain :: a < TWO_64
    ensures DescendingOn(domain) <==>
      forall a, b | a in domain && b in domain && a < b :: 0 < (b - a) % TWO_32 < TWO_31
  {
    forall a, b | a in domain && b in domain && a < b
      ensures Cmpf(a, b) > 0 && Cmpf(b, a) < 0 <==> 0 < (b - a) % TWO_32 < TWO_31
    {
      Truncated(a, b);
    }
  }

  /** A total order need not be the descending one: 2^31 + 1 counts as larger than 0. */
  lemma {:induction false} TotalButNotDescending()
    ensures var domain: iset<nat> := iset{0, TWO_31 + 1}; TotalOrder(Cmpf, domain) && !DescendingOn(domain)
  {
    var domain: iset<nat> := iset{0, TWO_31 + 1};
    assert Cmpf(0, TWO_31 + 1) < 0;
    assert InHalfCircle(domain, TWO_31 + 1);
    HalfCircleIsTotal(domain, TWO_31 + 1);
  }
}
