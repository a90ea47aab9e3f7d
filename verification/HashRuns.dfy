/** Whole runs of the hash table against a plain finite map. */
module HashRuns {
  import opened Options
  import opened HashMap

  datatype Op<!V> = Put(pair: SPair<V>) | PutMove(pair: SPair<V>) | Get(key: string)

  /** The map after a run. */
  ghost function After<V>(ops: seq<Op<V>>): map<string, V> {
    if ops == [] then map[]
    else
      var m, op := After(ops[..|ops| - 1]), ops[|ops| - 1];
      if op.Get? then m else m[op.pair.key := op.pair.value]
  }

  /** What each lookup of a run returns. */
  ghost function Lookups<V>(ops: seq<Op<V>>): seq<Option<V>> {
    if ops == [] then []
    else
      var m, op := After(ops[..|ops| - 1]), ops[|ops| - 1];
      Lookups(ops[..|ops| - 1]) + if op.Get? then [if op.key in m then Some(m[op.key]) else None] else []
  }

  /** PutMove is used for new keys only. */
  ghost predicate MovesAreFresh<V>(ops: seq<Op<V>>) {
    forall i | 0 <= i < |ops| && ops[i].PutMove? :: ops[i].pair.key !in After(ops[..i])
  }

  // ----- What the table counts -----

  /** The pairs of the caller that are in the table themselves, by key: moved in, and not copied over since. */
  ghost function Held<V>(ops: seq<Op<V>>): map<string, SPair<V>> {
    if ops == [] then map[]
    else
      var h, op := Held(ops[..|ops| - 1]), ops[|ops| - 1];
      if op.PutMove? then h[op.pair.key := op.pair]
      else if op.Put? && !(op.pair.key in h && h[op.pair.key] == op.pair) then h - {op.pair.key}
      else h
  }

  /** The operation copies a pair over an entry that is not the pair itself. */
  ghost predicate Overwrites<V>(before: seq<Op<V>>, op: Op<V>) {
    && op.Put? && op.pair.key in After(before)
    && !(op.pair.key in Held(before) && Held(before)[op.pair.key] == op.pair)
  }

  /** How many operations of a run do. */
  ghost function Overwritings<V>(ops: seq<Op<V>>): nat {
    if ops == [] then 0
    else Overwritings(ops[..|ops| - 1]) + if Overwrites(ops[..|ops| - 1], ops[|ops| - 1]) then 1 else 0
  }

  lemma {:induction false} NoOverwritings<V>(ops: seq<Op<V>>)
    ensures Overwritings(ops) == 0 <==> forall i | 0 <= i < |ops| :: !Overwrites(ops[..i], ops[i])
  {
    hide Overwrites;
    if ops != [] {
      var front := ops[..|ops| - 1];
      NoOverwritings(front);
      assert forall i | 0 <= i < |front| :: front[..i] == ops[..i] && front[i] == ops[i];
      assert forall i | 0 <= i < |ops| :: i < |front| || (i == |front| && ops[..i] == front);
    }
  }

  lemma {:induction false} HeldAreKeys<V>(ops: seq<Op<V>>)
    ensures Held(ops).Keys <= After(ops).Keys
    ensures forall k | k in Held(ops) :: Held(ops)[k].key == k
  {
    if ops != [] { HeldAreKeys(ops[..|ops| - 1]); }
  }

  lemma {:induction false} SizeOfUpdate<V>(m: map<string, V>, key: string, value: V)
    ensures |m[key := value]| == |m| + if key in m then 0 else 1
  {
    assert m[key := value].Keys == m.Keys + {key};
    assert |m| == |m.Keys| && |m[key := value]| == |m[key := value].Keys|;
  }

  function PairsOf<V>(ops: seq<Op<V>>): set<SPair<V>> {
    set i | 0 <= i < |ops| && !ops[i].Get? :: ops[i].pair
  }

  /** Of the caller's pairs, the table holds exactly those that it should. */
  ghost predicate HoldsExactly<V>(objects: set<SPair<V>>, held: map<string, SPair<V>>, pairs: set<SPair<V>>) {
    forall p | p in pairs :: p in objects <==> p.key in held && held[p.key] == p
  }

  lemma {:induction false} AfterOne<V>(before: seq<Op<V>>, op: Op<V>)
    ensures After(before + [op]) == if op.Get? then After(before) else After(before)[op.pair.key := op.pair.value]
    ensures Overwritings(before + [op]) == Overwritings(before) + if Overwrites(before, op) then 1 else 0
    ensures Lookups(before + [op]) ==
      Lookups(before) + if op.Get? then [if op.key in After(before) then Some(After(before)[op.key]) else None] else []
    ensures Held(before + [op]) == var h := Held(before);
      if op.PutMove? then h[op.pair.key := op.pair]
      else if op.Put? && !(op.pair.key in h && h[op.pair.key] == op.pair) then h - {op.pair.key} else h
  {
    assert (before + [op])[..|before|] == before;
  }

  lemma {:induction false} HeldAfterPut<V>(was: set<SPair<V>>, now: set<SPair<V>>, held: map<string, SPair<V>>,
                                           p: SPair<V>, pairs: set<SPair<V>>)
    requires HoldsExactly(was, held, pairs) && KeepsOthers(was, now, p.key)
    requires forall q | q in pairs && q in now :: q in was
    ensures HoldsExactly(now, held - {p.key}, pairs)
  {
  }

  // ----- Runs -----

  /** The table after the operations `before`. `pairs` are the caller's. */
  ghost predicate Follows<V>(t: HashMap<V>, before: seq<Op<V>>, pairs: set<SPair<V>>)
    reads t, t.entries
  {
    && t.Valid() && UniqueKeys(t.entries[..]) && t.Contents() == After(before)
    && t.len == |After(before)| + Overwritings(before)
    && HoldsExactly(Objects(t.entries[..]), Held(before), pairs)
  }

  /** One operation. */
  method Step<V>(t: HashMap<V>, op: Op<V>, ghost before: seq<Op<V>>, ghost pairs: set<SPair<V>>)
    returns (answer: seq<Option<V>>)
    requires Follows(t, before, pairs) && !t.Full() && (!op.Get? ==> op.pair in pairs)
    requires op.PutMove? ==> op.pair.key !in After(before)
    modifies t, t.entries
    ensures Follows(t, before + [op], pairs) && (t.entries == old(t.entries) || fresh(t.entries))
    ensures old(t.len) <= t.len <= old(t.len) + 1
    ensures Lookups(before + [op]) == Lookups(before) + answer
  {
    hide ContentsOf, UniqueKeys, Probeable, Taken, PowerOfTwo, Objects, InSlotOrder, After, Held, Overwritings, Lookups,
      KeepsOthers;
    AfterOne(before, op);
    HeldAreKeys(before);
    t.GrownKeeps();
    answer := [];
    match op {
      case Put(p) =>
        SizeOfUpdate(After(before), p.key, p.value);
        ghost var was := Objects(t.entries[..]);
        var inserted, _ := t.Insert(p);
        if inserted { HeldAfterPut(was, Objects(t.entries[..]), Held(before), p, pairs); }
      case PutMove(p) =>
        SizeOfUpdate(After(before), p.key, p.value);
        var _, _ := t.InsertMove(p);
      case Get(key) =>
        var value := t.Get(key);
        answer := [value];
    }
  }

  /** Every lookup of any run returns what a plain map would. The counter is the size of that map, plus one for every
      entry that was overwritten. */
  method Run<V>(hash: string -> nat, ops: seq<Op<V>>) returns (t: HashMap<V>, lookups: seq<Option<V>>)
    requires MovesAreFresh(ops) && |ops| < 0x1000_0000_0000_0000
    ensures lookups == Lookups(ops) && t.Contents() == After(ops)
    ensures t.len == |After(ops)| + Overwritings(ops)
    ensures t.len == |After(ops)| <==> forall i | 0 <= i < |ops| :: !Overwrites(ops[..i], ops[i])
  {
    hide Follows, Overwrites, Lookups, After, Overwritings, ContentsOf, UniqueKeys, Objects;
    t := new HashMap(hash);
    lookups := [];
    NothingYet(t, PairsOf(ops));
    assert ops[..0] == [];
    for i := 0 to |ops|
      invariant Follows(t, ops[..i], PairsOf(ops)) && fresh(t) && fresh(t.entries) && t.len <= i
      invariant lookups == Lookups(ops[..i])
    {
      assert ops[..i] + [ops[i]] == ops[..i + 1];
      var answer := Step(t, ops[i], ops[..i], PairsOf(ops));
      lookups := lookups + answer;
    }
    assert ops[..|ops|] == ops;
    AfterAll(t, ops, PairsOf(ops));
    NoOverwritings(ops);
  }

  lemma {:induction false} NothingYet<V>(t: HashMap<V>, pairs: set<SPair<V>>)
    requires t.Valid() && UniqueKeys(t.entries[..]) && t.Contents() == map[] && t.len == 0
      && Objects(t.entries[..]) == {}
    ensures Follows(t, [], pairs) && Lookups<V>([]) == []
  {
  }

  lemma {:induction false} AfterAll<V>(t: HashMap<V>, ops: seq<Op<V>>, pairs: set<SPair<V>>)
    requires Follows(t, ops, pairs)
    ensures t.Contents() == After(ops) && t.len == |After(ops)| + Overwritings(ops)
  {
  }

  lemma {:induction false} TwoPuts<V>(first: SPair<V>, second: SPair<V>)
    requires first.key == second.key
    ensures var ops := [Put(first), Put(second)];
      After(ops) == map[second.key := second.value] && Overwritings(ops) == 1
  {
    AfterOne([], Put(first));
    AfterOne([Put(first)], Put(second));
    assert [] + [Put(first)] == [Put(first)] && [Put(first)] + [Put(second)] == [Put(first), Put(second)];
  }

  /** Two pairs with one key: the map has one entry, and the table counts two. */
  method CountedTwice<V>(hash: string -> nat, first: SPair<V>, second: SPair<V>) returns (t: HashMap<V>)
    requires first.key == second.key
    ensures t.len == 2 && t.Contents() == map[second.key := second.value]
  {
    hide After, Overwritings;
    var ops := [Put(first), Put(second)];
    var lookups;
    t, lookups := Run(hash, ops);
    TwoPuts(first, second);
    SizeOfUpdate(map[], second.key, second.value);
  }
}
