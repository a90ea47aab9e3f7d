/** The open-addressing hash table of src/hash_map.c: linear probing with wrap-around over a
    power-of-two number of slots, doubled when it is half full. */
module HashMap {
  import opened Options

  const TWO_64 := 0x1_0000_0000_0000_0000

  /** A key and its value, both immutable. */
  class SPair<V> {
    const key: string
    const value: V

    constructor (key: string, value: V)
      ensures this.key == key && this.value == value
    {
      this.key, this.value := key, value;
    }
  }

  // ----- Masking -----

  /** Bitwise and. */
  function And(x: nat, y: nat): nat
    decreases x
  {
    if x == 0 || y == 0 then 0
    else (if x % 2 == 1 && y % 2 == 1 then 1 else 0) + 2 * And(x / 2, y / 2)
  }

  ghost predicate PowerOfTwo(n: nat) {
    n == 1 || (n > 1 && n % 2 == 0 && PowerOfTwo(n / 2))
  }

  lemma {:induction false} HalvesAndRemainder(x: nat, m: nat)
    requires m > 0
    ensures x % 2 + 2 * ((x / 2) % m) == x % (2 * m)
  {
    var q, r := x / 2 / m, x / 2 % m;
    assert x == 2 * (q * m + r) + x % 2;
    Remainder(x, 2 * m, q, 2 * r + x % 2);
  }

  lemma {:induction false} Remainder(x: nat, n: nat, q: nat, r: nat)
    requires n > 0 && r < n && x == q * n + r
    ensures x % n == r
  {
    var d := x / n - q;
    assert d * n == r - x % n;
    Multiples(d, n);
  }

  lemma {:induction false} Multiples(d: int, n: nat)
    ensures d > 0 ==> d * n >= n
    ensures d < 0 ==> d * n <= 0 - n
  {
  }

  lemma {:induction false} AndOdd(x: nat, y: nat)
    requires y % 2 == 1
    ensures And(x, y) == x % 2 + 2 * And(x / 2, y / 2)
  {
  }

  /** Masking with one less than a power of two is the remainder. */
  lemma {:induction false} MaskIsRemainder(x: nat, n: nat)
    requires PowerOfTwo(n)
    ensures And(x, n - 1) == x % n
    decreases n
  {
    if n > 1 {
      assert (n - 1) / 2 == n / 2 - 1 && (n - 1) % 2 == 1 && 2 * (n / 2) == n;
      AndOdd(x, n - 1);
      MaskIsRemainder(x / 2, n / 2);
      HalvesAndRemainder(x, n / 2);
    }
  }

  // ----- The hash that the program uses -----

  const FNV_OFFSET := 14695981039346656037
  const FNV_PRIME := 1099511628211

  /** Bitwise exclusive or. */
  function Xor(x: nat, y: nat): nat
    decreases x
  {
    if x == 0 then y
    else if y == 0 then x
    else (if x % 2 == y % 2 then 0 else 1) + 2 * Xor(x / 2, y / 2)
  }

  /** FNV-1a. The table works with any other function as well. */
  function HashKey(key: string): nat {
    if key == "" then FNV_OFFSET
    else Xor(HashKey(key[..|key| - 1]), key[|key| - 1] as int % 256) * FNV_PRIME % TWO_64
  }

  /** The lowest bits `b` and `c` decide one bit of the result, the others the rest. */
  lemma {:induction false} XorBits(x: nat, h: nat, b: nat, y: nat, k: nat, c: nat)
    requires x == 2 * h + b && y == 2 * k + c && b < 2 && c < 2
    ensures Xor(x, y) == (if b == c then 0 else 1) + 2 * Xor(h, k)
  {
    assert x / 2 == h && x % 2 == b && y / 2 == k && y % 2 == c;
  }

  /** The published hash of a single "a". */
  lemma {:induction false} HashOfA()
    ensures HashKey("a") == 0xaf63_dc4c_8601_ec8c
  {
    hide Xor;
    assert "a"[..0] == "" && 'a' as int % 256 == 97;
    assert HashKey("") == FNV_OFFSET;
    XorBits(FNV_OFFSET, 7347990519673328018, 1, 97, 48, 1);
    XorBits(7347990519673328018, 3673995259836664009, 0, 48, 24, 0);
    XorBits(3673995259836664009, 1836997629918332004, 1, 24, 12, 0);
    XorBits(1836997629918332004, 918498814959166002, 0, 12, 6, 0);
    XorBits(918498814959166002, 459249407479583001, 0, 6, 3, 0);
    XorBits(459249407479583001, 229624703739791500, 1, 3, 1, 1);
    XorBits(229624703739791500, 114812351869895750, 0, 1, 0, 1);
    XorNothing(114812351869895750);
    assert Xor(FNV_OFFSET, 97) == 14695981039346656068;
    Remainder(14695981039346656068 * FNV_PRIME, TWO_64, 875948729822, 0xaf63_dc4c_8601_ec8c);
  }

  lemma {:induction false} XorNothing(x: nat)
    ensures Xor(x, 0) == x
  {
  }

  /** 96 turns the sixth bit of the offset, and keeps the five below it. */
  lemma {:induction false} OffsetWithBackquote() returns (high: nat)
    ensures Xor(FNV_OFFSET, 96) == 64 * high + 5
  {
    hide Xor;
    XorBits(FNV_OFFSET, 7347990519673328018, 1, 96, 48, 0);
    XorBits(7347990519673328018, 3673995259836664009, 0, 48, 24, 0);
    XorBits(3673995259836664009, 1836997629918332004, 1, 24, 12, 0);
    XorBits(1836997629918332004, 918498814959166002, 0, 12, 6, 0);
    XorBits(918498814959166002, 459249407479583001, 0, 6, 3, 0);
    XorBits(459249407479583001, 229624703739791500, 1, 3, 1, 1);
    high := Xor(229624703739791500, 1);
  }

  lemma {:induction false} LowBitsOfProduct(high: nat)
    ensures (64 * high + 5) * FNV_PRIME % TWO_64 % 64 == 63
  {
    var n := high * FNV_PRIME + 5 * 17179869190 + 3;
    assert (64 * high + 5) * FNV_PRIME == 64 * n + 63;
    LowBitsStay(n);
  }

  lemma {:induction false} LowBitsStay(n: nat)
    ensures (64 * n + 63) % TWO_64 % 64 == 63
  {
    var d, r := (64 * n + 63) / TWO_64, (64 * n + 63) % TWO_64;
    assert r == 64 * (n - 0x400_0000_0000_0000 * d) + 63;
    Remainder(r, 64, n - 0x400_0000_0000_0000 * d, 63);
  }

  /** The key that consists of a backquote belongs to the last of 64 slots. */
  lemma {:induction false} BackquoteIsLast()
    ensures HashKey("`") % 64 == 63
  {
    hide Xor;
    assert "`"[..0] == "";
    assert HashKey("") == FNV_OFFSET;
    var high := OffsetWithBackquote();
    LowBitsOfProduct(high);
  }

  // ----- Probing -----

  /** How many steps a probe takes from slot `home` to slot `i`. */
  function Dist(cap: nat, home: nat, i: nat): int {
    if i >= home then i - home else i - home + cap
  }

  lemma {:induction false} DistInjective(cap: nat, home: nat, i: nat, j: nat)
    requires home < cap && i < cap && j < cap && Dist(cap, home, i) == Dist(cap, home, j)
    ensures i == j
  {
  }

  type Slots<!V> = seq<SPair?<V>>

  function Home(hash: string -> nat, key: string, cap: nat): (i: nat)
    requires cap > 0
    ensures i < cap
  {
    hash(key) % cap
  }

  /** Every slot that a probe passes on its way to slot `i` is taken. */
  ghost predicate Reachable<V>(s: Slots<V>, home: nat, i: nat) {
    forall j | 0 <= j < |s| && Dist(|s|, home, j) < Dist(|s|, home, i) :: s[j] != null
  }

  ghost predicate Probeable<V>(s: Slots<V>, hash: string -> nat) {
    forall i | 0 <= i < |s| && s[i] != null :: Reachable(s, Home(hash, s[i].key, |s|), i)
  }

  ghost predicate UniqueKeys<V>(s: Slots<V>) {
    forall i, j | 0 <= i < j < |s| && s[i] != null && s[j] != null :: s[i].key != s[j].key
  }

  ghost function Taken<V>(s: Slots<V>): set<nat> {
    set i: nat | i < |s| && s[i] != null
  }

  ghost function Keys<V>(s: Slots<V>): set<string> {
    set i | 0 <= i < |s| && s[i] != null :: s[i].key
  }

  ghost function Objects<V>(s: Slots<V>): set<SPair<V>> {
    set x: SPair<V> | x in s
  }

  /** Slot `i` is the first on the probe for `key` that holds the key. */
  ghost predicate Hit<V>(s: Slots<V>, hash: string -> nat, key: string, i: nat) {
    && i < |s| && s[i] != null && s[i].key == key
    && forall j | 0 <= j < |s| && s[j] != null && s[j].key == key ::
         Dist(|s|, Home(hash, key, |s|), i) <= Dist(|s|, Home(hash, key, |s|), j)
  }

  lemma {:induction false} SomeHit<V>(s: Slots<V>, hash: string -> nat, key: string, i: nat)
    requires i < |s| && s[i] != null && s[i].key == key
    ensures exists j: nat :: Hit(s, hash, key, j)
    decreases Dist(|s|, Home(hash, key, |s|), i)
  {
    if !Hit(s, hash, key, i) {
      var j: nat :| j < |s| && s[j] != null && s[j].key == key &&
        Dist(|s|, Home(hash, key, |s|), j) < Dist(|s|, Home(hash, key, |s|), i);
      SomeHit(s, hash, key, j);
    }
  }

  /** The map that the slots stand for: a probe finds the first entry with its key. */
  ghost function ContentsOf<V>(s: Slots<V>, hash: string -> nat): (m: map<string, V>)
    ensures m.Keys == Keys(s)
  {
    map key | key in Keys(s) :: ValueOf(s, hash, key)
  }

  ghost function ValueOf<V>(s: Slots<V>, hash: string -> nat, key: string): (v: V)
    requires key in Keys(s)
    ensures exists j: nat :: Hit(s, hash, key, j) && s[j].value == v
  {
    var i: nat :| i < |s| && s[i] != null && s[i].key == key;
    SomeHit(s, hash, key, i);
    var j: nat :| Hit(s, hash, key, j);
    s[j].value
  }

  lemma {:induction false} HitDecides<V>(s: Slots<V>, hash: string -> nat, key: string, i: nat)
    requires Hit(s, hash, key, i)
    ensures key in Keys(s) && ContentsOf(s, hash)[key] == s[i].value
  {
    assert s[i].key in Keys(s);
    var j: nat :| Hit(s, hash, key, j) && s[j].value == ValueOf(s, hash, key);
    HitIsTaken(s, hash, key, j);
    assert Dist(|s|, Home(hash, key, |s|), i) <= Dist(|s|, Home(hash, key, |s|), j);
    assert Dist(|s|, Home(hash, key, |s|), j) <= Dist(|s|, Home(hash, key, |s|), i);
    DistInjective(|s|, Home(hash, key, |s|), i, j);
  }

  lemma {:induction false} HitExists<V>(s: Slots<V>, hash: string -> nat, key: string) returns (i: nat)
    requires key in Keys(s)
    ensures Hit(s, hash, key, i) && ContentsOf(s, hash)[key] == s[i].value
  {
    var j: nat :| j < |s| && s[j] != null && s[j].key == key;
    SomeHit(s, hash, key, j);
    i :| Hit(s, hash, key, i);
    HitDecides(s, hash, key, i);
  }

  // ----- What rehashing in the order of the slots makes of the entries -----

  /** Slot `i` is the lowest that holds its key. */
  ghost predicate FirstAt<V>(s: Slots<V>, i: nat) {
    i < |s| && s[i] != null && forall j | 0 <= j < i && s[j] != null :: s[j].key != s[i].key
  }

  /** The map in which the lowest entry with a key decides. */
  ghost function InSlotOrder<V>(s: Slots<V>): map<string, V> {
    if s == [] then map[]
    else
      var m, e := InSlotOrder(s[..|s| - 1]), s[|s| - 1];
      if e == null || e.key in m then m else m[e.key := e.value]
  }

  lemma {:induction false} KeysInSlotOrder<V>(s: Slots<V>)
    ensures InSlotOrder(s).Keys == Keys(s)
  {
    if s == [] {
      assert Keys(s) == {};
    } else {
      KeysInSlotOrder(s[..|s| - 1]);
      PrefixGrows(s, |s| - 1);
      assert s[..|s|] == s;
    }
  }

  lemma {:induction false} LowestDecides<V>(s: Slots<V>, i: nat)
    requires FirstAt(s, i)
    ensures s[i].key in InSlotOrder(s) && InSlotOrder(s)[s[i].key] == s[i].value
  {
    var front := s[..|s| - 1];
    if i < |s| - 1 {
      LowestDecides(front, i);
    } else {
      KeysInSlotOrder(front);
      assert s[i].key !in Keys(front);
    }
  }

  lemma {:induction false} LowestExists<V>(s: Slots<V>, i: nat) returns (j: nat)
    requires i < |s| && s[i] != null
    ensures FirstAt(s, j) && s[j].key == s[i].key
    decreases i
  {
    if FirstAt(s, i) {
      j := i;
    } else {
      var k :| 0 <= k < i && s[k] != null && s[k].key == s[i].key;
      j := LowestExists(s, k);
    }
  }

  /** For every key, the lowest entry has the value of the first entry on its probe. */
  ghost predicate OrderAgrees<V>(s: Slots<V>, hash: string -> nat) {
    forall i: nat, j: nat | FirstAt(s, i) && Hit(s, hash, s[i].key, j) :: s[i].value == s[j].value
  }

  /** Rehashing in the order of the slots preserves the map if and only if the two orders agree. */
  lemma {:induction false} RehashingPreservesExactlyWhen<V>(s: Slots<V>, hash: string -> nat)
    ensures InSlotOrder(s) == ContentsOf(s, hash) <==> OrderAgrees(s, hash)
  {
    hide Home, Dist, ContentsOf, InSlotOrder, Keys, ValueOf;
    KeysInSlotOrder(s);
    KeysOfContents(s, hash);
    forall i: nat, j: nat | FirstAt(s, i) && Hit(s, hash, s[i].key, j)
      ensures s[i].key in Keys(s) && InSlotOrder(s)[s[i].key] == s[i].value
        && ContentsOf(s, hash)[s[i].key] == s[j].value
    {
      LowestDecides(s, i);
      HitDecides(s, hash, s[i].key, j);
    }
    if OrderAgrees(s, hash) {
      forall k | k in Keys(s)
        ensures InSlotOrder(s)[k] == ContentsOf(s, hash)[k]
      {
        var i, j := BothEntries(s, hash, k);
      }
    }
  }

  lemma {:induction false} BothEntries<V>(s: Slots<V>, hash: string -> nat, key: string) returns (i: nat, j: nat)
    requires key in Keys(s)
    ensures FirstAt(s, i) && s[i].key == key && Hit(s, hash, key, j)
  {
    j := HitExists(s, hash, key);
    i := LowestExists(s, j);
  }

  /** The two orders differ only for a key whose entries lie on both sides of the end of the table. */
  lemma {:induction false} OnlyWrappedKeysSwap<V>(s: Slots<V>, hash: string -> nat, i: nat, j: nat)
    requires FirstAt(s, i) && Hit(s, hash, s[i].key, j) && i != j
    ensures i < Home(hash, s[i].key, |s|) <= j
  {
    hide Home;
    assert s[j].key == s[i].key;
  }

  lemma {:induction false} UniqueKeysAgree<V>(s: Slots<V>, hash: string -> nat)
    requires UniqueKeys(s)
    ensures InSlotOrder(s) == ContentsOf(s, hash)
  {
    forall i: nat, j: nat | FirstAt(s, i) && Hit(s, hash, s[i].key, j)
      ensures s[i].value == s[j].value
    {
      assert i == j;
    }
    RehashingPreservesExactlyWhen(s, hash);
  }

  /** Two entries with one key, the later one behind the end of the table: rehashing swaps them. */
  lemma {:induction false} WrappedEntriesSwap<V>(older: SPair<V>, newer: SPair<V>, hash: string -> nat)
    requires older.key == newer.key && older.value != newer.value && hash(older.key) % 4 == 3
    ensures var s: Slots<V> := [newer, null, null, older];
      && Probeable(s, hash) && older.key in ContentsOf(s, hash) && older.key in InSlotOrder(s)
      && ContentsOf(s, hash)[older.key] == older.value && InSlotOrder(s)[older.key] == newer.value
  {
    var s: Slots<V> := [newer, null, null, older];
    assert Hit(s, hash, older.key, 3);
    HitDecides(s, hash, older.key, 3);
    KeysOfContents(s, hash);
    assert FirstAt(s, 0);
    LowestDecides(s, 0);
  }

  /** With unique keys there are as many taken slots as keys. */
  lemma {:induction false} TakenAreKeys<V>(s: Slots<V>)
    requires UniqueKeys(s)
    ensures |Taken(s)| == |Keys(s)|
  {
    if s == [] {
      assert Keys(s) == {};
    } else {
      hide Keys, Taken;
      var front := s[..|s| - 1];
      TakenAreKeys(front);
      PrefixGrows(s, |s| - 1);
      assert s[..|s|] == s;
    }
  }

  // ----- What writing one slot does -----

  lemma {:induction false} KeysOfWrite<V>(s: Slots<V>, p: SPair<V>, x: nat)
    requires x < |s| && (s[x] == null || s[x].key == p.key)
    ensures Keys(s[x := p]) == Keys(s) + {p.key}
    ensures Taken(s[x := p]) == Taken(s) + {x}
  {
    var r := s[x := p];
    forall k | k in Keys(s)
      ensures k in Keys(r)
    {
      var i: nat :| i < |s| && s[i] != null && s[i].key == k;
      assert r[i] != null && r[i].key == k;
    }
    assert r[x].key == p.key;
  }

  lemma {:induction false} ProbeableWrite<V>(s: Slots<V>, hash: string -> nat, p: SPair<V>, x: nat)
    requires Probeable(s, hash) && x < |s| && Reachable(s, Home(hash, p.key, |s|), x)
    ensures Probeable(s[x := p], hash)
  {
    hide Dist, Home;
    var r := s[x := p];
    forall i | 0 <= i < |r| && r[i] != null
      ensures Reachable(r, Home(hash, r[i].key, |r|), i)
    {
      if i != x { assert Reachable(s, Home(hash, s[i].key, |s|), i); }
    }
  }

  lemma {:induction false} ObjectsOfWrite<V>(s: Slots<V>, p: SPair<V>, x: nat)
    requires x < |s| && s[x] == null
    ensures Objects(s[x := p]) == Objects(s) + {p}
  {
    var r := s[x := p];
    assert r[x] == p;
    forall q | q in Objects(s)
      ensures q in Objects(r)
    {
      var i :| 0 <= i < |s| && s[i] == q;
      assert r[i] == q;
    }
  }

  /** The pair has been written to the first free slot of its probe. */
  ghost predicate Placed<V>(s: Slots<V>, r: Slots<V>, hash: string -> nat, p: SPair<V>, x: nat) {
    x < |s| && s[x] == null && Reachable(s, Home(hash, p.key, |s|), x) && r == s[x := p]
  }

  /** There is only one first free slot. */
  lemma {:induction false} PlacedWhere<V>(s: Slots<V>, r: Slots<V>, hash: string -> nat, p: SPair<V>, x: nat, free: nat)
    requires Placed(s, r, hash, p, x) && free < |s| && s[free] == null && Reachable(s, Home(hash, p.key, |s|), free)
    ensures r == s[free := p]
  {
    hide Home;
    var home := Home(hash, p.key, |s|);
    assert Dist(|s|, home, x) == Dist(|s|, home, free);
  }

  /** The pair is in no slot but its home. Only this slot is not compared with when a pair is moved in. */
  ghost predicate OnlyAtHome<V>(s: Slots<V>, hash: string -> nat, p: SPair<V>) {
    forall i | 0 <= i < |s| && s[i] == p :: i == Home(hash, p.key, |s|)
  }

  /** The pair is in no other slot up to `index`. */
  ghost predicate NotMet<V>(s: Slots<V>, home: nat, index: nat, p: SPair<V>) {
    forall j | 0 <= j < |s| && s[j] == p && Dist(|s|, home, j) <= Dist(|s|, home, index) :: j == home
  }

  lemma {:induction false} NotMetAtHome<V>(s: Slots<V>, home: nat, p: SPair<V>)
    requires home < |s|
    ensures NotMet(s, home, home, p)
  {
  }

  lemma {:induction false} NotMetStep<V>(s: Slots<V>, home: nat, index: nat, next: nat, p: SPair<V>)
    requires home < |s| && index < |s| && next < |s| && NotMet(s, home, index, p) && s[next] != p
    requires Dist(|s|, home, next) == Dist(|s|, home, index) + 1
    ensures NotMet(s, home, next, p)
  {
    forall j | 0 <= j < |s| && s[j] == p && Dist(|s|, home, j) <= Dist(|s|, home, next)
      ensures j == home
    {
      assert j != next;
      assert Dist(|s|, home, j) <= Dist(|s|, home, index);
    }
  }

  /** A pair that was not met before the first free slot is nowhere else. */
  lemma {:induction false} NeverMet<V>(s: Slots<V>, hash: string -> nat, index: nat, p: SPair<V>)
    requires Probeable(s, hash) && index < |s| && s[index] == null && NotMet(s, Home(hash, p.key, |s|), index, p)
    ensures OnlyAtHome(s, hash, p)
  {
    hide Home;
    var home := Home(hash, p.key, |s|);
    forall i | 0 <= i < |s| && s[i] == p
      ensures i == home
    {
      assert Reachable(s, home, i);
    }
  }

  /** The next slot of a probe that has not come full circle is not its home. */
  lemma {:induction false} MetElsewhere<V>(s: Slots<V>, hash: string -> nat, index: nat, p: SPair<V>)
    requires index < |s| && s[index] == p && Dist(|s|, Home(hash, p.key, |s|), index) > 0
    ensures !OnlyAtHome(s, hash, p)
  {
    hide Home;
  }

  /** A hit stays a hit when a slot behind it, or with another key, is written. */
  lemma {:induction false} HitStays<V>(s: Slots<V>, hash: string -> nat, key: string, i: nat, p: SPair<V>, x: nat)
    requires Hit(s, hash, key, i) && x < |s| && x != i
    requires p.key == key ==> Dist(|s|, Home(hash, key, |s|), i) <= Dist(|s|, Home(hash, key, |s|), x)
    ensures key in Keys(s[x := p]) && ContentsOf(s[x := p], hash)[key] == s[i].value
  {
    hide Dist, Home;
    assert Hit(s[x := p], hash, key, i);
    HitDecides(s[x := p], hash, key, i);
  }

  /** An entry never lies behind a free slot of its probe. */
  lemma {:induction false} EntriesComeFirst<V>(s: Slots<V>, hash: string -> nat, key: string, i: nat, x: nat)
    requires Probeable(s, hash) && Hit(s, hash, key, i) && x < |s| && s[x] == null
    ensures Dist(|s|, Home(hash, key, |s|), i) <= Dist(|s|, Home(hash, key, |s|), x)
  {
    hide Dist, Home;
    assert Reachable(s, Home(hash, s[i].key, |s|), i);
  }

  /** A pair goes into the first free slot of its probe: an entry with its key, if there is one, stays in front. */
  lemma {:induction false} FillSlot<V>(s: Slots<V>, hash: string -> nat, p: SPair<V>, x: nat)
    requires Probeable(s, hash) && x < |s| && s[x] == null && Reachable(s, Home(hash, p.key, |s|), x)
    ensures ContentsOf(s[x := p], hash) ==
      if p.key in Keys(s) then ContentsOf(s, hash) else ContentsOf(s, hash)[p.key := p.value]
    ensures |Taken(s[x := p])| == |Taken(s)| + 1
  {
    hide Dist, Home, Probeable, Reachable, Hit, ValueOf;
    var r := s[x := p];
    KeysOfWrite(s, p, x);
    forall k | k in Keys(s)
      ensures ContentsOf(r, hash)[k] == ContentsOf(s, hash)[k]
    {
      var i := HitExists(s, hash, k);
      HitIsTaken(s, hash, k, i);
      EntriesComeFirst(s, hash, k, i, x);
      HitStays(s, hash, k, i, p, x);
    }
    if p.key !in Keys(s) {
      OnlyEntry(s, hash, p, x);
    }
  }

  lemma {:induction false} HitIsTaken<V>(s: Slots<V>, hash: string -> nat, key: string, i: nat)
    requires Hit(s, hash, key, i)
    ensures i < |s| && s[i] != null && s[i].key == key
  {
  }

  lemma {:induction false} OnlyEntry<V>(s: Slots<V>, hash: string -> nat, p: SPair<V>, x: nat)
    requires x < |s| && p.key !in Keys(s)
    ensures p.key in Keys(s[x := p]) && ContentsOf(s[x := p], hash)[p.key] == p.value
  {
    hide Dist, Home;
    var r := s[x := p];
    assert forall j | 0 <= j < |s| && s[j] != null :: s[j].key in Keys(s);
    assert Hit(r, hash, p.key, x);
    HitDecides(r, hash, p.key, x);
  }

  lemma {:induction false} UniqueFill<V>(s: Slots<V>, p: SPair<V>, x: nat)
    requires x < |s| && s[x] == null
    ensures UniqueKeys(s[x := p]) <==> UniqueKeys(s) && p.key !in Keys(s)
  {
    var r := s[x := p];
    if UniqueKeys(r) {
      forall i, j | 0 <= i < j < |s| && s[i] != null && s[j] != null
        ensures s[i].key != s[j].key
      {
        assert r[i] == s[i] && r[j] == s[j];
      }
      forall i | 0 <= i < |s| && s[i] != null
        ensures s[i].key != p.key
      {
        assert r[i] == s[i] && r[x] == p;
      }
    }
    if UniqueKeys(s) && p.key !in Keys(s) {
      forall i, j | 0 <= i < j < |r| && r[i] != null && r[j] != null
        ensures r[i].key != r[j].key
      {
        if i != x { assert s[i].key in Keys(s); }
        if j != x { assert s[j].key in Keys(s); }
      }
    }
  }

  lemma {:induction false} ReplacedHit<V>(s: Slots<V>, hash: string -> nat, p: SPair<V>, x: nat)
    requires Hit(s, hash, p.key, x)
    ensures p.key in Keys(s[x := p]) && ContentsOf(s[x := p], hash)[p.key] == p.value
  {
    hide Dist, Home;
    assert Hit(s[x := p], hash, p.key, x);
    HitDecides(s[x := p], hash, p.key, x);
  }

  /** The first entry with the key is replaced by a pair with the same key. */
  lemma {:induction false} ReplaceHit<V>(s: Slots<V>, hash: string -> nat, p: SPair<V>, x: nat)
    requires Hit(s, hash, p.key, x)
    ensures ContentsOf(s[x := p], hash) == ContentsOf(s, hash)[p.key := p.value]
    ensures Taken(s[x := p]) == Taken(s)
  {
    hide Dist, Home, Hit, ValueOf;
    HitIsTaken(s, hash, p.key, x);
    HitDecides(s, hash, p.key, x);
    var r := s[x := p];
    KeysOfWrite(s, p, x);
    forall k | k in Keys(s)
      ensures ContentsOf(r, hash)[k] == if k == p.key then p.value else ContentsOf(s, hash)[k]
    {
      if k == p.key {
        ReplacedHit(s, hash, p, x);
      } else {
        var i := HitExists(s, hash, k);
        HitIsTaken(s, hash, k, i);
        HitStays(s, hash, k, i, p, x);
      }
    }
  }

  /** A probe that meets a free slot has seen every entry with its key. */
  lemma {:induction false} ProbeEnds<V>(s: Slots<V>, hash: string -> nat, key: string, x: nat)
    requires Probeable(s, hash) && x < |s| && s[x] == null
    requires forall j | 0 <= j < |s| && Dist(|s|, Home(hash, key, |s|), j) < Dist(|s|, Home(hash, key, |s|), x) ::
      s[j] != null && s[j].key != key
    ensures key !in Keys(s)
  {
    forall i | 0 <= i < |s| && s[i] != null
      ensures s[i].key != key
    {
      if Dist(|s|, Home(hash, key, |s|), i) > Dist(|s|, Home(hash, key, |s|), x) {
        assert !Reachable(s, Home(hash, key, |s|), i);
      }
    }
  }

  lemma {:induction false} SomeFree<V>(s: Slots<V>)
    requires |Taken(s)| < |s|
    ensures exists i :: 0 <= i < |s| && s[i] == null
  {
    if s[|s| - 1] != null {
      var front := s[..|s| - 1];
      assert Taken(s) == Taken(front) + {|s| - 1};
      SomeFree(front);
      var i :| 0 <= i < |front| && front[i] == null;
      assert s[i] == null;
    }
  }

  /** The next slot of a probe, and that a probe which has met no free slot so far has not come full circle. */
  lemma {:induction false} ProbeStep<V>(s: Slots<V>, home: nat, index: nat, free: nat)
    requires home < |s| && index < |s| && free < |s| && s[free] == null && s[index] != null
    requires Reachable(s, home, index)
    ensures var next := if index + 1 >= |s| then 0 else index + 1;
      && next < |s| && Dist(|s|, home, next) == Dist(|s|, home, index) + 1 && Reachable(s, home, next)
      && Dist(|s|, home, next) <= Dist(|s|, home, free)
  {
    assert Dist(|s|, home, free) >= Dist(|s|, home, index);
    assert free != index;
  }

  const INITIAL_CAPACITY := 64

  class HashMap<V> {
    var entries: array<SPair?<V>>
    var cap: nat
    var len: nat
    /** The hash of a key, any fixed function. */
    const hash: string -> nat

    /** At most half of the slots are taken; `len` may count an overwritten entry more than once. */
    ghost predicate Valid()
      reads this, entries
    {
      && entries.Length == cap && PowerOfTwo(cap) && 2 <= cap < TWO_64
      && |Taken(entries[..])| <= len <= cap / 2
      && (cap <= INITIAL_CAPACITY || cap <= 4 * len)
      && Probeable(entries[..], hash)
    }

    ghost function Contents(): map<string, V>
      reads this, entries
    {
      ContentsOf(entries[..], hash)
    }

    constructor (hash: string -> nat)
      ensures Valid() && fresh(entries) && Contents() == map[] && UniqueKeys(entries[..]) && len == 0
      ensures this.hash == hash && cap == INITIAL_CAPACITY && Objects(entries[..]) == {}
      ensures forall i | 0 <= i < cap :: entries[i] == null
    {
      this.hash, len, cap := hash, 0, INITIAL_CAPACITY;
      entries := new SPair?<V>[INITIAL_CAPACITY](_ => null);
      new;
      assert Taken(entries[..]) == {};
      SixtyFour();
    }

    /** The mask keeps the low bits of the hash. */
    function GetIndex(capacity: nat, key: string): (index: nat)
      requires PowerOfTwo(capacity)
      ensures index == Home(hash, key, capacity)
    {
      MaskIsRemainder(hash(key), capacity);
      And(hash(key), capacity - 1)
    }

    method Get(key: string) returns (value: Option<V>)
      requires Valid()
      ensures value == if key in Contents() then Some(Contents()[key]) else None
    {
      hide Dist, Probeable, Reachable, ContentsOf, Home;
      ghost var s, home := entries[..], Home(hash, key, cap);
      SomeFree(s);
      ghost var free: nat :| free < |s| && s[free] == null;
      var index := GetIndex(cap, key);
      ProbeStart(s, home);
      while entries[index] != null
        invariant 0 <= index < cap && Reachable(s, home, index) && Dist(cap, home, index) <= Dist(cap, home, free)
        invariant forall j | 0 <= j < cap && Dist(cap, home, j) < Dist(cap, home, index) ::
          s[j] != null && s[j].key != key
        decreases Dist(cap, home, free) - Dist(cap, home, index)
      {
        if key == entries[index].key {
          FirstHit(s, hash, key, index);
          return Some(entries[index].value);
        }
        ProbeStep(s, home, index, free);
        NextOnly(s, home, index);
        index := index + 1;
        if index >= cap {
          index := 0;
        }
      }
      ProbeEnds(s, hash, key, index);
      value := None;
    }

    /** Moves a pair to the first free slot of its probe, without comparing keys. */
    method MoveEntry(slots: array<SPair?<V>>, capacity: nat, p: SPair<V>) returns (moved: bool)
      requires slots.Length == capacity && PowerOfTwo(capacity)
      requires Probeable(slots[..], hash) && |Taken(slots[..])| < capacity
      modifies slots
      ensures moved <==> old(OnlyAtHome(slots[..], hash, p))
      ensures !moved ==> slots[..] == old(slots[..]) && p in old(slots[..])
      ensures moved ==>
        && Probeable(slots[..], hash) && |Taken(slots[..])| == old(|Taken(slots[..])|) + 1
        && Keys(slots[..]) == old(Keys(slots[..])) + {p.key}
        && ContentsOf(slots[..], hash) ==
             (var was := old(ContentsOf(slots[..], hash)); if p.key in was then was else was[p.key := p.value])
        && (UniqueKeys(slots[..]) <==> old(UniqueKeys(slots[..])) && p.key !in old(Keys(slots[..])))
        && exists x: nat :: Placed(old(slots[..]), slots[..], hash, p, x)
      ensures Objects(slots[..]) == old(Objects(slots[..])) + {p}
    {
      hide Dist, Probeable, Reachable, ContentsOf, Home, UniqueKeys, Keys, Taken, OnlyAtHome, NotMet;
      ghost var s, home := slots[..], Home(hash, p.key, capacity);
      SomeFree(s);
      ghost var free: nat :| free < |s| && s[free] == null;
      var index := GetIndex(capacity, p.key);
      ProbeStart(s, home);
      NotMetAtHome(s, home, p);
      while slots[index] != null
        invariant 0 <= index < capacity && slots[..] == s && NotMet(s, home, index, p)
          && Dist(capacity, home, index) >= 0
        invariant Reachable(s, home, index) && Dist(capacity, home, index) <= Dist(capacity, home, free)
        decreases Dist(capacity, home, free) - Dist(capacity, home, index)
      {
        ProbeStep(s, home, index, free);
        ghost var last := index;
        index := index + 1;
        if index >= capacity {
          index := 0;
        }
        if slots[index] == p {
          assert s[index] == p;
          assert Objects(s) == Objects(s) + {p};
          MetElsewhere(s, hash, index, p);
          return false;
        }
        NotMetStep(s, home, last, index, p);
      }
      NeverMet(s, hash, index, p);
      slots[index] := p;
      assert slots[..] == s[index := p];
      assert Placed(s, slots[..], hash, p, index);
      ObjectsOfWrite(s, p, index);
      FillSlot(s, hash, p, index);
      ProbeableWrite(s, hash, p, index);
      UniqueFill(s, p, index);
      KeysOfWrite(s, p, index);
      moved := true;
    }

    /** Copies a pair into the table: over the first entry with its key, or else into the first free slot. */
    method SetEntry(slots: array<SPair?<V>>, capacity: nat, p: SPair<V>) returns (set_: bool)
      requires slots.Length == capacity && PowerOfTwo(capacity)
      requires Probeable(slots[..], hash) && |Taken(slots[..])| < capacity
      modifies slots
      ensures ContentsOf(slots[..], hash) == old(ContentsOf(slots[..], hash))[p.key := p.value]
      ensures Probeable(slots[..], hash) && Keys(slots[..]) == old(Keys(slots[..])) + {p.key}
      ensures |Taken(slots[..])| == old(|Taken(slots[..])|) + (if p.key in old(Keys(slots[..])) then 0 else 1)
      ensures old(UniqueKeys(slots[..])) ==> UniqueKeys(slots[..])
      ensures set_ <==> !old(FirstIs(slots[..], hash, p))
      ensures !set_ ==> slots[..] == old(slots[..])
      ensures set_ ==>
        exists copy, x: nat ::
          fresh(copy) && copy !in old(slots[..]) && Overwritten(old(slots[..]), slots[..], hash, p, copy, x)
    {
      hide Dist, Probeable, Reachable, ContentsOf, Home, UniqueKeys, Keys, Taken, Hit;
      ghost var s, home := slots[..], Home(hash, p.key, capacity);
      SomeFree(s);
      ghost var free: nat :| free < |s| && s[free] == null;
      var index := GetIndex(capacity, p.key);
      ProbeStart(s, home);
      var found := false;
      while slots[index] != null
        invariant slots[..] == s
        invariant 0 <= index < capacity && Reachable(s, home, index)
          && Dist(capacity, home, index) <= Dist(capacity, home, free)
        invariant forall j | 0 <= j < capacity && Dist(capacity, home, j) < Dist(capacity, home, index) ::
          s[j] != null && s[j].key != p.key
        decreases Dist(capacity, home, free) - Dist(capacity, home, index)
      {
        if p == slots[index] {
          FirstHit(s, hash, p.key, index);
          SameEntry(s, hash, p);
          assert Keys(s) == Keys(s) + {p.key};
          assert FirstIs(s, hash, p);
          return false;
        } else if p.key == slots[index].key {
          found := true;
          break;
        }
        ProbeStep(s, home, index, free);
        NextOnly(s, home, index);
        index := index + 1;
        if index >= capacity {
          index := 0;
        }
      }
      var copy := new SPair(p.key, p.value);
      slots[index] := copy;
      assert slots[..] == s[index := copy];
      ProbeableWrite(s, hash, copy, index);
      KeysOfWrite(s, copy, index);
      if found {
        FirstHit(s, hash, p.key, index);
        ReplaceHit(s, hash, copy, index);
        UniqueReplace(s, copy, index);
        OtherFirst(s, hash, p, index);
      } else {
        ProbeEnds(s, hash, p.key, index);
        FillSlot(s, hash, copy, index);
        UniqueFill(s, copy, index);
        KeysOfContents(s, hash);
        NoneFirst(s, hash, p);
      }
      assert Overwritten(s, slots[..], hash, p, copy, index);
      set_ := true;
    }

    /** Rehashes every entry into a table of twice the size. */
    method Expand() returns (expanded: bool)
      requires Valid()
      modifies this`entries, this`cap
      ensures expanded <==> old(cap) * 2 < TWO_64
      ensures !expanded ==> unchanged(this)
      ensures expanded ==>
        && fresh(entries) && cap == 2 * old(cap) && entries.Length == cap && PowerOfTwo(cap)
        && |Taken(entries[..])| <= len && Probeable(entries[..], hash)
        && Keys(entries[..]) == old(Keys(entries[..])) && Objects(entries[..]) == old(Objects(entries[..]))
        && Contents() == old(InSlotOrder(entries[..]))
        && (Contents() == old(Contents()) <==> old(OrderAgrees(entries[..], hash)))
      ensures old(UniqueKeys(entries[..])) ==>
        UniqueKeys(entries[..]) && Contents() == old(Contents()) && |Taken(entries[..])| == old(|Taken(entries[..])|)
    {
      hide Dist, Probeable, Reachable, ContentsOf, Home, UniqueKeys, Keys, Taken, Objects, Rehashed, InSlotOrder,
        OrderAgrees, Placed;
      var newCap := cap * 2 % TWO_64;
      Doubling(cap);
      if newCap < cap {
        return false;
      }
      ghost var s := entries[..];
      var newEntries := new SPair?<V>[newCap](_ => null);
      NothingRehashed(newEntries[..], s, hash);
      for i := 0 to cap
        invariant unchanged(this) && unchanged(entries)
        invariant Rehashed(newEntries[..], s, i, hash) && Probeable(newEntries[..], hash)
          && |Taken(newEntries[..])| <= i
      {
        var entry := entries[i];
        ghost var before := newEntries[..];
        if entry != null {
          var moved := MoveEntry(newEntries, newCap, entry);
          OneMoreRehashed(before, newEntries[..], s, i, hash);
        } else {
          OneMoreRehashed(before, before, s, i, hash);
        }
      }
      AllRehashed(newEntries[..], s, hash);
      RehashingPreservesExactlyWhen(s, hash);
      if UniqueKeys(s) {
        UniqueKeysAgree(s, hash);
        TakenAreKeys(s);
        TakenAreKeys(newEntries[..]);
      }
      entries := newEntries;
      cap := newCap;
      expanded := true;
    }

    /** The map after the expansion that an insertion starts with, if one is due. */
    ghost function Grown(): (m: map<string, V>)
      reads this, entries
      ensures m.Keys == Contents().Keys
    {
      KeysInSlotOrder(entries[..]);
      KeysOfContents(entries[..], hash);
      if len < cap / 2 then Contents() else InSlotOrder(entries[..])
    }

    lemma {:induction false} GrownKeeps()
      ensures Grown().Keys == Contents().Keys
      ensures UniqueKeys(entries[..]) ==> Grown() == Contents()
    {
      if UniqueKeys(entries[..]) { UniqueKeysAgree(entries[..], hash); }
    }

    /** How much `len` exceeds the number of taken slots. */
    ghost function Overcount(): int
      reads this, entries
    {
      len - |Taken(entries[..])|
    }

    /** Copies the pair into the table. Fails only when the capacity would no longer fit 64 bits, or when the very pair
        is the first entry with its key. A pair that is written over another counts again. `s` are the slots after the
        expansion, if one is due. */
    method Insert(p: SPair<V>) returns (inserted: bool, ghost s: Slots<V>)
      requires Valid()
      modifies this, entries
      ensures Valid() && (entries == old(entries) || fresh(entries))
      ensures old(Full()) ==> !inserted && Contents() == old(Contents()) && entries == old(entries)
      ensures !old(Full()) ==> Contents() == old(Grown())[p.key := p.value]
      ensures !old(Full()) ==>
        |s| == cap && Objects(s) == old(Objects(entries[..])) && ContentsOf(s, hash) == old(Grown())
      ensures old(len < cap / 2) ==> s == old(entries[..])
      ensures !old(Full()) ==> (inserted <==> !FirstIs(s, hash, p))
      ensures old(UniqueKeys(entries[..])) ==> UniqueKeys(entries[..])
      ensures !inserted ==> old(Full()) || p in old(Objects(entries[..]))
      ensures len == old(len) + if inserted then 1 else 0
      ensures inserted && (old(len < cap / 2) || old(UniqueKeys(entries[..]))) ==>
        Overcount() == old(Overcount()) + if p.key in old(Contents()) then 1 else 0
      ensures !old(Full()) && old(UniqueKeys(entries[..])) ==>
        && (inserted <==> p !in old(Objects(entries[..])))
        && (!inserted ==> Objects(entries[..]) == old(Objects(entries[..])))
        && (inserted ==>
              && KeepsOthers(old(Objects(entries[..])), Objects(entries[..]), p.key)
              && forall q | q in Objects(entries[..]) :: q in old(Objects(entries[..])) || fresh(q))
    {
      hide Probeable, ContentsOf, UniqueKeys, Keys, Taken, Objects, InSlotOrder, OrderAgrees, Overwritten, FirstIs,
        KeepsOthers;
      GrownKeeps();
      KeysOfContents(entries[..], hash);
      if len >= cap / 2 {
        var expanded := Expand();
        if !expanded {
          return false, entries[..];
        }
      }
      KeysOfContents(entries[..], hash);
      s := entries[..];
      inserted := SetEntry(entries, cap, p);
      if inserted {
        ghost var copy, x: nat :| fresh(copy) && copy !in s && Overwritten(s, entries[..], hash, p, copy, x);
        InObjects(s, copy);
        if UniqueKeys(s) { ReplacedObjects(s, entries[..], hash, p, copy, x); }
      } else {
        FirstIsObject(s, hash, p);
      }
      len := len + if inserted then 1 else 0;
    }

    /** The table is half full and cannot be doubled. */
    ghost predicate Full()
      reads this
    {
      len >= cap / 2 && cap * 2 >= TWO_64
    }

    /** Moves the pair itself into the table. The keys are not compared: a key that is already there keeps its value.
        `s` are the slots after the expansion, if one is due. */
    method InsertMove(p: SPair<V>) returns (inserted: bool, ghost s: Slots<V>)
      requires Valid()
      modifies this, entries
      ensures Valid() && (entries == old(entries) || fresh(entries))
      ensures old(Full()) ==> !inserted && Contents() == old(Contents()) && entries == old(entries)
      ensures !old(Full()) ==>
        Contents() == if p.key in old(Contents()) then old(Grown()) else old(Grown())[p.key := p.value]
      ensures !old(Full()) ==>
        |s| == cap && Objects(s) == old(Objects(entries[..])) && ContentsOf(s, hash) == old(Grown())
      ensures old(len < cap / 2) ==> s == old(entries[..])
      ensures !old(Full()) ==> (inserted <==> OnlyAtHome(s, hash, p))
      ensures !old(Full()) && old(UniqueKeys(entries[..])) ==>
        (UniqueKeys(entries[..]) <==> p.key !in old(Contents()) || !inserted)
      ensures !inserted ==> old(Full()) || p in old(Objects(entries[..]))
      ensures !old(Full()) ==> Objects(entries[..]) == old(Objects(entries[..])) + {p}
      ensures len == old(len) + if inserted then 1 else 0
      ensures inserted && (old(len < cap / 2) || old(UniqueKeys(entries[..]))) ==> Overcount() == old(Overcount())
      ensures inserted && old(len < cap / 2) ==>
        entries == old(entries) && exists x: nat :: Placed(old(entries[..]), entries[..], hash, p, x)
    {
      hide Probeable, ContentsOf, UniqueKeys, Keys, Taken, Objects, InSlotOrder, OrderAgrees, Placed, OnlyAtHome;
      GrownKeeps();
      KeysOfContents(entries[..], hash);
      if len >= cap / 2 {
        var expanded := Expand();
        if !expanded {
          return false, entries[..];
        }
      }
      KeysOfContents(entries[..], hash);
      s := entries[..];
      inserted := MoveEntry(entries, cap, p);
      if !inserted {
        EntryKey(s, p);
        InObjects(s, p);
      }
      len := len + if inserted then 1 else 0;
    }
  }

  /** The first entry with the key of `p` is `p` itself. */
  ghost predicate FirstIs<V>(s: Slots<V>, hash: string -> nat, p: SPair<V>) {
    exists i: nat :: Hit(s, hash, p.key, i) && s[i] == p
  }

  lemma {:induction false} InObjects<V>(s: Slots<V>, p: SPair<V>)
    ensures p in s <==> p in Objects(s)
  {
  }

  lemma {:induction false} FirstIsObject<V>(s: Slots<V>, hash: string -> nat, p: SPair<V>)
    requires FirstIs(s, hash, p)
    ensures p in Objects(s) && p.key in Keys(s)
  {
    var i: nat :| Hit(s, hash, p.key, i) && s[i] == p;
    HitDecides(s, hash, p.key, i);
  }

  /** The entries with other keys are still there, those with this key are not. */
  ghost predicate KeepsOthers<V>(was: set<SPair<V>>, now: set<SPair<V>>, key: string) {
    forall q | q in was :: q in now <==> q.key != key
  }

  lemma {:induction false} MemberIsFirst<V>(s: Slots<V>, hash: string -> nat, p: SPair<V>)
    requires UniqueKeys(s) && p in Objects(s)
    ensures FirstIs(s, hash, p)
  {
    hide Home, Dist;
    var i: nat :| i < |s| && s[i] == p;
    forall j | 0 <= j < |s| && s[j] != null && s[j].key == p.key
      ensures j == i
    {
    }
    assert Hit(s, hash, p.key, i);
  }

  lemma {:induction false} OnlyCopyIsNew<V>(s: Slots<V>, copy: SPair<V>, x: nat)
    requires x < |s|
    ensures Objects(s[x := copy]) <= Objects(s) + {copy}
  {
    var r := s[x := copy];
    forall q | q in Objects(r)
      ensures q in Objects(s) + {copy}
    {
      var i: nat :| i < |r| && r[i] == q;
      assert i == x || s[i] == q;
    }
  }

  lemma {:induction false} ReplacedObjects<V>(s: Slots<V>, r: Slots<V>, hash: string -> nat, p: SPair<V>,
                                              copy: SPair<V>, x: nat)
    requires UniqueKeys(s) && Overwritten(s, r, hash, p, copy, x) && copy !in Objects(s) && !FirstIs(s, hash, p)
    ensures KeepsOthers(Objects(s), Objects(r), p.key) && p !in Objects(s)
    ensures Objects(r) <= Objects(s) + {copy}
  {
    hide FirstIs;
    if p in Objects(s) { MemberIsFirst(s, hash, p); }
    OnlyCopyIsNew(s, copy, x);
    forall q | q in Objects(s)
      ensures q in Objects(r) <==> q.key != p.key
    {
      var i: nat :| i < |s| && s[i] == q;
      assert s[i].key in Keys(s);
      if i != x { assert r[i] == q; }
    }
  }

  /** A copy of `p` has been written over the first entry with its key, or to a free slot. */
  ghost predicate Overwritten<V>(s: Slots<V>, r: Slots<V>, hash: string -> nat, p: SPair<V>, copy: SPair<V>, x: nat) {
    && x < |s| && copy.key == p.key && copy.value == p.value && r == s[x := copy]
    && if p.key in Keys(s) then Hit(s, hash, p.key, x) else s[x] == null
  }

  lemma {:induction false} OtherFirst<V>(s: Slots<V>, hash: string -> nat, p: SPair<V>, x: nat)
    requires Hit(s, hash, p.key, x) && s[x] != p
    ensures !FirstIs(s, hash, p)
  {
    hide Home;
    forall i: nat | Hit(s, hash, p.key, i)
      ensures i == x
    {
      DistInjective(|s|, Home(hash, p.key, |s|), i, x);
    }
  }

  lemma {:induction false} NoneFirst<V>(s: Slots<V>, hash: string -> nat, p: SPair<V>)
    requires p.key !in Keys(s)
    ensures !FirstIs(s, hash, p)
  {
    forall i: nat
      ensures !Hit(s, hash, p.key, i)
    {
      if Hit(s, hash, p.key, i) { HitDecides(s, hash, p.key, i); }
    }
  }

  lemma {:induction false} SameEntry<V>(s: Slots<V>, hash: string -> nat, p: SPair<V>)
    requires p.key in Keys(s) && ContentsOf(s, hash)[p.key] == p.value
    ensures ContentsOf(s, hash)[p.key := p.value] == ContentsOf(s, hash)
  {
  }

  lemma {:induction false} UniqueReplace<V>(s: Slots<V>, p: SPair<V>, x: nat)
    requires x < |s| && s[x] != null && s[x].key == p.key
    ensures UniqueKeys(s) ==> UniqueKeys(s[x := p])
  {
  }

  lemma {:induction false} KeysOfContents<V>(s: Slots<V>, hash: string -> nat)
    ensures ContentsOf(s, hash).Keys == Keys(s)
  {
  }

  lemma {:induction false} Doubling(cap: nat)
    requires PowerOfTwo(cap) && 2 <= cap < TWO_64
    ensures cap * 2 % TWO_64 < cap <==> cap * 2 >= TWO_64
    ensures cap * 2 < TWO_64 ==> cap * 2 % TWO_64 == cap * 2
    ensures PowerOfTwo(cap * 2)
  {
    assert cap * 2 / 2 == cap;
  }

  lemma {:induction false} EmptyTable<V>(s: Slots<V>, hash: string -> nat)
    requires forall i | 0 <= i < |s| :: s[i] == null
    ensures Probeable(s, hash) && UniqueKeys(s) && Keys(s) == {} && Taken(s) == {}
  {
  }

  lemma {:induction false} NoPrefix<V>(s: Slots<V>)
    ensures Keys(s[..0]) == {} && Taken(s[..0]) == {}
  {
  }

  lemma {:induction false} PrefixGrows<V>(s: Slots<V>, i: nat)
    requires i < |s|
    ensures s[i] == null ==> Keys(s[..i + 1]) == Keys(s[..i]) && Taken(s[..i + 1]) == Taken(s[..i])
    ensures s[i] != null ==> Keys(s[..i + 1]) == Keys(s[..i]) + {s[i].key} && |Taken(s[..i + 1])| == |Taken(s[..i])| + 1
    ensures s[i] != null && UniqueKeys(s) ==> s[i].key !in Keys(s[..i])
    ensures forall j | 0 <= j < i && s[j] != null :: s[j].key in Keys(s[..i])
  {
    var a, b := s[..i], s[..i + 1];
    if s[i] == null {
      assert Taken(b) == Taken(a);
    } else {
      assert Taken(b) == Taken(a) + {i};
    }
    forall k | k in Keys(a)
      ensures k in Keys(b)
    {
      var j: nat :| j < |a| && a[j] != null && a[j].key == k;
      assert b[j] == a[j];
    }
    forall k | k in Keys(b)
      ensures k in Keys(a) || (s[i] != null && k == s[i].key)
    {
      var j: nat :| j < |b| && b[j] != null && b[j].key == k;
      if j < i { assert a[j] == b[j]; }
    }
    if s[i] != null { assert b[i].key in Keys(b); }
    forall j | 0 <= j < i && s[j] != null
      ensures s[j].key in Keys(a)
    {
      assert a[j] == s[j];
    }
  }

  lemma {:induction false} EntryKey<V>(s: Slots<V>, p: SPair<V>)
    requires p in s
    ensures p.key in Keys(s)
  {
    var i :| 0 <= i < |s| && s[i] == p;
    assert s[i].key in Keys(s);
  }

  /** The first `i` entries of `s` have been moved to `r`. */
  ghost predicate Rehashed<V>(r: Slots<V>, s: Slots<V>, i: nat, hash: string -> nat) {
    && i <= |s| && |Taken(r)| <= |Taken(s[..i])| <= i && Objects(r) == Objects(s[..i])
    && ContentsOf(r, hash) == InSlotOrder(s[..i])
    && (UniqueKeys(s) ==> UniqueKeys(r))
  }

  lemma {:induction false} NothingRehashed<V>(r: Slots<V>, s: Slots<V>, hash: string -> nat)
    requires forall i | 0 <= i < |r| :: r[i] == null
    ensures Rehashed(r, s, 0, hash) && Probeable(r, hash) && |Taken(r)| <= 0
  {
    EmptyTable(r, hash);
    NoPrefix(s);
    KeysOfContents(r, hash);
    assert s[..0] == [];
  }

  lemma {:induction false} OneMoreRehashed<V>(r: Slots<V>, r': Slots<V>, s: Slots<V>, i: nat, hash: string -> nat)
    requires i < |s| && Rehashed(r, s, i, hash)
    requires (r' == r && s[i] == null)
      || (s[i] != null && Objects(r') == Objects(r) + {s[i]}
          && ((r' == r && s[i] in r)
              || (|Taken(r')| == |Taken(r)| + 1
                  && (UniqueKeys(r') <==> UniqueKeys(r) && s[i].key !in Keys(r))
                  && ContentsOf(r', hash) ==
                       if s[i].key in ContentsOf(r, hash) then ContentsOf(r, hash)
                         else ContentsOf(r, hash)[s[i].key := s[i].value])))
    ensures Rehashed(r', s, i + 1, hash) && |Taken(r')| <= i + 1
  {
    hide ContentsOf, Keys, Taken, UniqueKeys, Objects;
    PrefixGrows(s, i);
    KeysOfContents(r, hash);
    KeysInSlotOrder(s[..i]);
    assert s[..i + 1][..i] == s[..i];
    ObjectsGrow(s, i);
    if s[i] != null && r' == r { EntryKey(r, s[i]); }
  }

  lemma {:induction false} ObjectsGrow<V>(s: Slots<V>, i: nat)
    requires i < |s|
    ensures Objects(s[..i + 1]) == Objects(s[..i]) + if s[i] == null then {} else {s[i]}
  {
    assert s[..i + 1] == s[..i] + [s[i]];
  }

  lemma {:induction false} AllRehashed<V>(r: Slots<V>, s: Slots<V>, hash: string -> nat)
    requires Rehashed(r, s, |s|, hash)
    ensures |Taken(r)| <= |Taken(s)| && Keys(r) == Keys(s) && Objects(r) == Objects(s)
    ensures ContentsOf(r, hash) == InSlotOrder(s)
    ensures UniqueKeys(s) ==> UniqueKeys(r)
  {
    hide ContentsOf, Keys, Taken, UniqueKeys, InSlotOrder;
    assert s[..|s|] == s;
    KeysOfContents(r, hash);
    KeysInSlotOrder(s);
  }

  lemma {:induction false} SixtyFour()
    ensures PowerOfTwo(INITIAL_CAPACITY)
  {
    assert PowerOfTwo(4);
    assert PowerOfTwo(16);
  }

  lemma {:induction false} ProbeStart<V>(s: Slots<V>, home: nat)
    requires home < |s|
    ensures Reachable(s, home, home) && forall j | 0 <= j < |s| :: 0 == Dist(|s|, home, home) <= Dist(|s|, home, j)
  {
  }

  /** Between two neighbouring slots of a probe there is no other. */
  lemma {:induction false} NextOnly<V>(s: Slots<V>, home: nat, index: nat)
    requires home < |s| && index < |s|
    ensures forall j | 0 <= j < |s| && Dist(|s|, home, j) < Dist(|s|, home, index) + 1 ::
      j == index || Dist(|s|, home, j) < Dist(|s|, home, index)
  {
  }

  lemma {:induction false} FirstHit<V>(s: Slots<V>, hash: string -> nat, key: string, index: nat)
    requires index < |s| && s[index] != null && s[index].key == key
    requires forall j | 0 <= j < |s| && Dist(|s|, Home(hash, key, |s|), j) < Dist(|s|, Home(hash, key, |s|), index) ::
      s[j] != null && s[j].key != key
    ensures Hit(s, hash, key, index) && key in Keys(s) && ContentsOf(s, hash)[key] == s[index].value
  {
    assert Hit(s, hash, key, index);
    HitDecides(s, hash, key, index);
  }

  lemma {:induction false} MetOrNot<V>(s: Slots<V>, r: Slots<V>, hash: string -> nat, p: SPair<V>, x: nat)
    requires p !in s && Placed(s, r, hash, p, x)
    ensures OnlyAtHome(r, hash, p) <==> x == Home(hash, p.key, |s|)
  {
    hide Home, Reachable;
    assert r[x] == p;
    forall i | 0 <= i < |r| && i != x
      ensures r[i] != p
    {
      assert r[i] == s[i];
    }
  }

  lemma {:induction false} MetBehindHome<V>(s: Slots<V>, r: Slots<V>, hash: string -> nat, p: SPair<V>, x: nat)
    requires |s| > 0 && s[Home(hash, p.key, |s|)] == p && Placed(s, r, hash, p, x)
    ensures !OnlyAtHome(r, hash, p)
  {
    hide Home, Reachable;
    assert r[x] == p;
  }

  /** The pair is moved into an empty table three times: it goes in twice, and is found the third time only. */
  method MovedInTwice<V>(hash: string -> nat, p: SPair<V>) returns (first: bool, second: bool, third: bool)
    ensures first && second && !third
  {
    hide ContentsOf, Probeable, Taken, PowerOfTwo, UniqueKeys, InSlotOrder, Placed, OnlyAtHome, Home, Reachable;
    var t := new HashMap<V>(hash);
    ghost var home, s := Home(hash, p.key, INITIAL_CAPACITY), t.entries[..];
    NowhereYet(s, hash, p);
    ghost var slots;
    first, slots := t.InsertMove(p);
    ghost var x: nat :| Placed(s, t.entries[..], hash, p, x);
    FirstOfAll(s, t.entries[..], hash, p, x);
    MetOrNot(s, t.entries[..], hash, p, x);
    s := t.entries[..];
    second, slots := t.InsertMove(p);
    ghost var y: nat :| Placed(s, t.entries[..], hash, p, y);
    MetBehindHome(s, t.entries[..], hash, p, y);
    third, slots := t.InsertMove(p);
  }

  lemma {:induction false} NowhereYet<V>(s: Slots<V>, hash: string -> nat, p: SPair<V>)
    requires forall i | 0 <= i < |s| :: s[i] == null
    ensures OnlyAtHome(s, hash, p) && p !in s
  {
  }

  lemma {:induction false} FirstOfAll<V>(s: Slots<V>, r: Slots<V>, hash: string -> nat, p: SPair<V>, x: nat)
    requires forall i | 0 <= i < |s| :: s[i] == null
    requires Placed(s, r, hash, p, x)
    ensures x == Home(hash, p.key, |s|) && r[x] == p
  {
    var home := Home(hash, p.key, |s|);
    ProbeStart(s, home);
    assert Dist(|s|, home, home) == 0;
    assert s[home] == null;
  }
}
