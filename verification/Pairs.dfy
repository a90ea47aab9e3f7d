/** Lists of key-value pairs, and the loop by which the getters of headers, queries and bodies search them. */
module Pairs {
  import opened Options
  import opened Rings

  datatype Pair = Pair(key: string, value: string)

  /** The value of the first pair with the key. */
  function FirstValue(s: seq<Pair>, key: string): Option<string> {
    if s == [] then None
    else if s[0].key == key then Some(s[0].value)
    else FirstValue(s[1..], key)
  }

  /** The value of the last pair with the key. */
  function LastValue(s: seq<Pair>, key: string): Option<string> {
    if s == [] then None
    else if s[|s| - 1].key == key then Some(s[|s| - 1].value)
    else LastValue(s[..|s| - 1], key)
  }

  lemma {:induction false} FirstValueExactlyWhen(s: seq<Pair>, key: string, value: string)
    ensures FirstValue(s, key) == Some(value) <==>
      exists i :: 0 <= i < |s| && s[i] == Pair(key, value) && forall j | 0 <= j < i :: s[j].key != key
    ensures FirstValue(s, key) == None <==> forall i | 0 <= i < |s| :: s[i].key != key
  {
    if s != [] {
      FirstValueExactlyWhen(s[1..], key, value);
      assert forall i | 1 <= i < |s| :: s[i] == s[1..][i - 1];
      if i :| 0 <= i < |s[1..]| && s[1..][i] == Pair(key, value) && forall j | 0 <= j < i :: s[1..][j].key != key {
        if s[0].key != key {
          assert s[i + 1] == Pair(key, value) && forall j | 0 <= j < i + 1 :: s[j].key != key;
        }
      }
      if i :| 1 <= i < |s| && s[i] == Pair(key, value) && forall j | 0 <= j < i :: s[j].key != key {
        assert s[1..][i - 1] == Pair(key, value) && forall j | 0 <= j < i - 1 :: s[1..][j] == s[j + 1];
      }
    }
  }

  lemma {:induction false} ReverseAt<T>(s: seq<T>, i: nat)
    requires i < |s|
    ensures Reverse(s)[i] == s[|s| - 1 - i]
  {
    if i > 0 { ReverseAt(s[..|s| - 1], i - 1); }
  }

  function Reverse<T>(s: seq<T>): (r: seq<T>)
    ensures |r| == |s|
  {
    if s == [] then [] else [s[|s| - 1]] + Reverse(s[..|s| - 1])
  }

  /** Pairs pushed to the front of a list are found last-wins. */
  lemma {:induction false} FirstOfReverse(s: seq<Pair>, key: string)
    ensures FirstValue(Reverse(s), key) == LastValue(s, key)
  {
    if s != [] {
      FirstOfReverse(s[..|s| - 1], key);
      assert Reverse(s)[1..] == Reverse(s[..|s| - 1]);
    }
  }

  lemma {:induction false} FirstValueFrom(s: seq<Pair>, key: string, i: nat)
    requires i < |s|
    ensures FirstValue(s[i..], key) == if s[i].key == key then Some(s[i].value) else FirstValue(s[i + 1..], key)
  {
    assert s[i..][1..] == s[i + 1..];
  }

  /** query_get, body_get and header_get: no answer for an empty key. */
  method GetFirst(ring: Ring<Pair>, key: string) returns (value: Option<string>)
    requires ring.Valid()
    ensures value == if key == "" then None else FirstValue(ring.Entries(), key)
  {
    if key == "" {
      return None;
    }
    ghost var s, i := ring.Entries(), 0;
    var cur := ring.head.next;
    assert s[0..] == s;
    while cur != ring.head
      invariant i <= |s| && cur == if i < |s| then ring.nodes[i] else ring.head
      invariant FirstValue(s[i..], key) == FirstValue(s, key)
      decreases |s| - i
    {
      FirstValueFrom(s, key, i);
      assert cur.next == ring.nodes[i].next;
      if cur.entry.value.key == key {
        return Some(cur.entry.value.value);
      }
      cur := cur.next;
      i := i + 1;
    }
    assert s[i..] == [];
    value := None;
  }
}
