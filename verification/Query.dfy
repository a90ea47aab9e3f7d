/** Query strings and form bodies: the parser loop that src/http/query.c and src/http/body.c share. */
module Query {
  import opened Options
  import opened Rings
  import opened Pairs
  import opened Search
  import opened CStrings
  import Url

  // ----- One pair -----

  /** Cuts a key before the first `delim` and a value before the first `term` after it. */
  function LexPair(s: string, delim: char, term: char): Option<Pair> {
    match IndexOf(s, [delim])
    case None => None
    case Some(d) =>
      if d >= |s| then None
      else
        match IndexOf(s[d + 1..], [term])
        case None => None
        case Some(t) => if d + 1 + t > |s| then None else Some(Pair(s[..d], s[d + 1..d + 1 + t]))
  }

  /** A pair is cut out if and only if the text starts with it, up to the first delimiter and the first terminator
      behind that. */
  lemma {:induction false} LexPairExactlyWhen(s: string, delim: char, term: char, p: Pair)
    ensures LexPair(s, delim, term) == Some(p) <==>
      && delim !in p.key && term !in p.value
      && StartsWith(s, p.key + [delim] + p.value + [term])
  {
    if LexPair(s, delim, term) == Some(p) { CutsStart(s, delim, term, p); }
    if delim !in p.key && term !in p.value && StartsWith(s, p.key + [delim] + p.value + [term]) {
      StartIsCut(s, delim, term, p);
    }
  }

  lemma {:induction false} CutsStart(s: string, delim: char, term: char, p: Pair)
    requires LexPair(s, delim, term) == Some(p)
    ensures delim !in p.key && term !in p.value && StartsWith(s, p.key + [delim] + p.value + [term])
  {
    hide IndexOf, OccursAt;
    var d := IndexOf(s, [delim]).value;
    FirstOccurrence(s, delim);
    FirstOccurrence(s[d + 1..], term);
    var t := IndexOf(s[d + 1..], [term]).value;
    assert p.key + [delim] + p.value + [term] == s[..d] + [s[d]] + s[d + 1..d + 1 + t] + [s[d + 1 + t]];
    assert s[..d] + [s[d]] + s[d + 1..d + 1 + t] + [s[d + 1 + t]] == s[..d + 2 + t];
  }

  lemma {:induction false} FirstOccurrence(s: string, c: char)
    ensures IndexOf(s, [c]).Some? ==>
      IndexOf(s, [c]).value < |s| && s[IndexOf(s, [c]).value] == c && c !in s[..IndexOf(s, [c]).value]
  {
    IndexFromIsLeftmost(s, [c], 0);
    if IndexOf(s, [c]).Some? {
      var at := IndexOf(s, [c]).value;
      OccursPointwise(s, [c], at, 0);
      forall i | 0 <= i < at
        ensures s[i] != c
      {
        assert !OccursAt(s, [c], i) && s[i..i + 1] == [s[i]];
      }
    }
  }

  lemma {:induction false} StartIsCut(s: string, delim: char, term: char, p: Pair)
    requires delim !in p.key && term !in p.value && StartsWith(s, p.key + [delim] + p.value + [term])
    ensures LexPair(s, delim, term) == Some(p)
  {
    hide IndexOf;
    var n := |p.key| + 1 + |p.value|;
    var rest := s[n + 1..];
    assert s == s[..n + 1] + rest;
    assert s == p.key + [delim] + (p.value + [term] + rest);
    FirstAfter(p.key, delim, p.value + [term] + rest);
    assert s[|p.key| + 1..] == p.value + [term] + rest;
    FirstAfter(p.value, term, rest);
    assert s[..|p.key|] == p.key && s[|p.key| + 1..n] == p.value;
  }

  method PairLexer(str: string, delim: char, term: char) returns (p: Option<Pair>)
    ensures p == LexPair(str, delim, term)
  {
    IndexFromIsLeftmost(str, [delim], 0);
    if str == "" {
      return None;
    }
    var delimPtr := StrChr(str, delim);
    if delimPtr.None? {
      return None;
    }
    IndexFromIsLeftmost(str[delimPtr.value + 1..], [term], 0);
    var termPtr := StrChr(str[delimPtr.value + 1..], term);
    if termPtr.None? {
      return None;
    }
    p := Some(Pair(str[..delimPtr.value], str[delimPtr.value + 1..delimPtr.value + 1 + termPtr.value]));
  }

  // ----- All pairs -----

  /** What the loop reads from decoded text that ends in the terminator. */
  function ParsePairs(s: string): seq<Pair>
    decreases |s|
  {
    if s == "" then []
    else
      match LexPair(s, '=', '&')
      case None => []
      case Some(p) =>
        match IndexOf(s, "&")
        case None => []
        case Some(a) => if a >= |s| then [] else [p] + ParsePairs(s[a + 1..])
  }

  /** The text of a list of pairs. */
  function Join(pairs: seq<Pair>): string {
    if pairs == [] then ""
    else if |pairs| == 1 then PairText(pairs[0])
    else PairText(pairs[0]) + "&" + Join(pairs[1..])
  }

  function PairText(p: Pair): string {
    p.key + "=" + p.value
  }

  lemma {:induction false} JoinIs(p: Pair, a: seq<Pair>, b: seq<Pair>)
    ensures Join([]) == "" && Join([p]) == p.key + "=" + p.value
    ensures a != [] && b != [] ==> Join(a + b) == Join(a) + "&" + Join(b)
    decreases |a|
  {
    hide PairText;
    PairTextIs(p);
    if a != [] && b != [] {
      assert (a + b)[1..] == a[1..] + b && (a + b)[0] == a[0];
      if |a| == 1 {
        assert a[1..] + b == b;
      } else {
        JoinIs(p, a[1..], b);
        assert PairText(a[0]) + "&" + (Join(a[1..]) + "&" + Join(b)) ==
          (PairText(a[0]) + "&" + Join(a[1..])) + "&" + Join(b);
      }
    }
  }

  lemma {:induction false} PairTextIs(p: Pair)
    ensures PairText(p) == p.key + "=" + p.value
  {
  }

  /** Keys without = and &, values without &, and no NUL. */
  predicate Wellformed(p: Pair) {
    && (forall i | 0 <= i < |p.key| :: p.key[i] != '=' && p.key[i] != '&' && p.key[i] != '\0')
    && (forall i | 0 <= i < |p.value| :: p.value[i] != '&' && p.value[i] != '\0')
  }

  lemma {:induction false} ParseOne(p: Pair, rest: string)
    requires Wellformed(p)
    ensures ParsePairs(PairText(p) + "&" + rest) == [p] + ParsePairs(rest)
  {
    var s := PairText(p) + "&" + rest;
    assert s == p.key + "=" + (p.value + "&" + rest);
    FirstAfter(p.key, '=', p.value + "&" + rest);
    assert s[|p.key| + 1..] == p.value + "&" + rest;
    FirstAfter(p.value, '&', rest);
    assert LexPair(s, '=', '&') == Some(p) by {
      assert s[..|p.key|] == p.key;
      assert s[|p.key| + 1..|p.key| + 1 + |p.value|] == p.value;
    }
    assert '&' !in PairText(p);
    FirstAfter(PairText(p), '&', rest);
    assert s[|PairText(p)| + 1..] == rest;
  }

  /** Parsing undoes printing. */
  lemma {:induction false} ParseJoin(pairs: seq<Pair>)
    requires forall i | 0 <= i < |pairs| :: Wellformed(pairs[i])
    ensures ParsePairs(Join(pairs) + "&") == pairs
  {
    if pairs == [] {
      assert Join(pairs) + "&" == "&";
      NoDelimiter();
    } else if |pairs| == 1 {
      ParseOne(pairs[0], "");
      assert PairText(pairs[0]) + "&" + "" == Join(pairs) + "&";
    } else {
      ParseJoin(pairs[1..]);
      ParseOne(pairs[0], Join(pairs[1..]) + "&");
      assert PairText(pairs[0]) + "&" + (Join(pairs[1..]) + "&") == Join(pairs) + "&";
    }
  }

  lemma {:induction false} NoDelimiter()
    ensures LexPair("&", '=', '&') == None
  {
  }

  // ----- The parser -----

  /** One round of the loop. */
  lemma {:induction false} ParseStep(s: string)
    ensures LexPair(s, '=', '&') == None ==> ParsePairs(s) == []
    ensures LexPair(s, '=', '&').Some? ==>
      && s != "" && IndexOf(s, "&").Some? && IndexOf(s, "&").value < |s|
      && ParsePairs(s) == [LexPair(s, '=', '&').value] + ParsePairs(s[IndexOf(s, "&").value + 1..])
  {
    IndexFromIsLeftmost(s, "&", 0);
    IndexFromIsLeftmost(s, "=", 0);
    var d := IndexOf(s, "=");
    if LexPair(s, '=', '&').Some? {
      var v := s[d.value + 1..];
      IndexFromIsLeftmost(v, "&", 0);
      var t := IndexOf(v, "&").value;
      assert OccursAt(v, "&", t) && v[t..t + 1] == s[d.value + 1 + t..d.value + 2 + t];
      assert OccursAt(s, "&", d.value + 1 + t);
    }
  }

  lemma {:induction false} ReverseStep<T>(s: seq<T>, x: T)
    ensures Reverse(s + [x]) == [x] + Reverse(s)
  {
    assert (s + [x])[..|s|] == s;
  }

  /** Hangs the first pair of the rest of the text, if there is one, at the front of the list, and finds where the
      next one starts. */
  method TakePair(rest: string, q: Ring<Pair>, ghost done: seq<Pair>) returns (found: bool, next: nat)
    requires q.Valid() && q.Entries() == Reverse(done)
    modifies q, q.head, q.nodes
    ensures q.Valid() && forall i | 0 <= i < |q.nodes| :: q.nodes[i] in old(q.nodes) || fresh(q.nodes[i])
    ensures !found ==> ParsePairs(rest) == [] && q.Entries() == Reverse(done)
    ensures found ==>
      && next <= |rest| && next > 0 && ParsePairs(rest) != [] && ParsePairs(rest)[1..] == ParsePairs(rest[next..])
      && q.Entries() == Reverse(done + [ParsePairs(rest)[0]])
  {
    hide ParsePairs, LexPair, IndexOf, Reverse, EntriesOf;
    ParseStep(rest);
    var newEntry := PairLexer(rest, '=', '&');
    if newEntry.None? {
      return false, 0;
    }
    var newNode := new Node(Some(newEntry.value));
    q.InsertHead(newNode);
    ReverseStep(done, newEntry.value);
    var amp := StrChr(rest, '&');
    return true, amp.value + 1;
  }

  /** The loop over all pairs. `end` is where the text and its terminator end. */
  method ParseLoop(decoded: array<char>, end: nat, q: Ring<Pair>)
    requires end < decoded.Length && IsCString(decoded[..], decoded[..end])
    requires q.Valid() && q.nodes == []
    modifies q, q.head
    ensures q.Valid() && q.Entries() == Reverse(ParsePairs(decoded[..end]))
  {
    hide ParsePairs, Reverse, EntriesOf;
    var pos: nat := 0;
    ghost var text := decoded[..end];
    ghost var done: seq<Pair> := [];
    assert text[0..] == text;
    NothingReversed<Pair>();
    while decoded[pos] != '\0'
      invariant pos <= end && q.Valid() && forall i | 0 <= i < |q.nodes| :: fresh(q.nodes[i])
      invariant ParsePairs(text) == done + ParsePairs(text[pos..]) && q.Entries() == Reverse(done)
      decreases end - pos
    {
      ghost var rest := ParsePairs(text[pos..]);
      var found, next := TakePair(decoded[pos..end], q, done);
      if !found {
        assert done + rest == done;
        return;
      }
      assert text[pos..][next..] == text[pos + next..];
      assert done + rest == done + [rest[0]] + rest[1..];
      done := done + [rest[0]];
      pos := pos + next;
    }
    CharAt(decoded[..], text, pos);
    NothingParsed();
    assert text[pos..] == "" && done + [] == done;
  }

  lemma {:induction false} NothingReversed<T>()
    ensures Reverse<T>([]) == []
  {
  }

  lemma {:induction false} NothingParsed()
    ensures ParsePairs("") == []
  {
  }

  /** The text that the parser reads, without the terminator that it adds. */
  function Text(buffer: string): string {
    UpToNul(Url.Decode(buffer))
  }

  /** The decoded text fits its room, and the terminator fits behind it. */
  predicate Fits(buffer: string) {
    |Url.Decode(buffer)| + 1 <= Url.Room(buffer) && |Text(buffer)| + 2 <= Url.Room(buffer)
  }

  /** When it does: the terminator needs one more byte than the decoder, unless the text is cut short by a NUL. */
  lemma {:induction false} FitsExactlyWhen(buffer: string)
    ensures Fits(buffer) <==>
      Url.Counted(buffer) - Url.Triplets(buffer) <= if '\0' in Url.Decode(buffer) then 8 else 7
  {
    Url.SpareRoom(buffer);
  }

  method QueryParser(buffer: string) returns (q: Ring<Pair>)
    requires Fits(buffer)
    ensures q.Valid() && q.Entries() == Reverse(ParsePairs(Text(buffer) + "&"))
  {
    q := new Ring<Pair>();
    ghost var text, all := Text(buffer), Url.Decode(buffer);
    var decoded := Url.UrlDecoder(buffer);
    assert decoded[0..][..|text|] == all[..|text|];
    var end := StrLen(decoded, 0, text);
    assert decoded[..end] == text;
    decoded[end] := '&';
    decoded[end + 1] := '\0';
    assert decoded[..end + 1] == text + "&";
    ParseLoop(decoded, end + 1, q);
  }

  /** query_get after query_parser: the last pair with a key wins. */
  method ParseAndGet(buffer: string, ghost pairs: seq<Pair>, key: string) returns (value: Option<string>)
    requires Url.WellEscaped(buffer) && Url.Decode(buffer) == Join(pairs)
    requires forall i | 0 <= i < |pairs| :: Wellformed(pairs[i])
    ensures value == if key == "" then None else LastValue(pairs, key)
  {
    Url.SpareRoom(buffer);
    JoinHasNoNul(pairs);
    var q := QueryParser(buffer);
    ParseJoin(pairs);
    FirstOfReverse(pairs, key);
    value := GetFirst(q, key);
  }

  lemma {:induction false} JoinHasNoNul(pairs: seq<Pair>)
    requires forall i | 0 <= i < |pairs| :: Wellformed(pairs[i])
    ensures '\0' !in Join(pairs)
  {
    if |pairs| > 1 { JoinHasNoNul(pairs[1..]); }
  }

  // ----- Form bodies -----

  const FORM_TYPE := "application/x-www-form-urlencoded"

  /** The headers announce a form, without parameters after the type. */
  predicate IsForm(headers: seq<Pair>) {
    match FirstValue(headers, "content-type")
    case None => false
    case Some(v) => UpToNul(v) == FORM_TYPE
  }

  /** The character at `i` of a C string, or its NUL. */
  function AtOrNul(s: string, i: nat): char {
    if i < |s| then s[i] else '\0'
  }

  /** strncmp: whether the first `n` characters agree, up to the end of the strings. */
  method SameStart(a: string, b: string, n: nat) returns (same: bool)
    ensures same <==> Start(UpToNul(a), n) == Start(UpToNul(b), n)
  {
    ghost var x, y := UpToNul(a), UpToNul(b);
    var i := 0;
    while i < n && AtOrNul(a, i) == AtOrNul(b, i) && AtOrNul(a, i) != '\0'
      invariant i <= n && i <= |x| && i <= |y| && x[..i] == y[..i]
    {
      i := i + 1;
    }
    same := i == n || AtOrNul(a, i) == AtOrNul(b, i);
    Agreement(a, b, n, i);
  }

  function Start(s: string, n: nat): string {
    if |s| <= n then s else s[..n]
  }

  /** Where two strings agree up to `i`, the characters there decide. */
  lemma {:induction false} Agreement(a: string, b: string, n: nat, i: nat)
    requires var x, y := UpToNul(a), UpToNul(b);
      i <= n && i <= |x| && i <= |y| && x[..i] == y[..i]
    requires i == n || AtOrNul(a, i) != AtOrNul(b, i) || AtOrNul(a, i) == '\0'
    ensures Start(UpToNul(a), n) == Start(UpToNul(b), n) <==> i == n || AtOrNul(a, i) == AtOrNul(b, i)
  {
    var x, y := UpToNul(a), UpToNul(b);
    if i < n && AtOrNul(a, i) != AtOrNul(b, i) {
      if |x| > i && |y| > i {
        assert Start(x, n)[i] == a[i] && Start(y, n)[i] == b[i];
      } else {
        assert |Start(x, n)| != |Start(y, n)|;
      }
    }
  }

  /** The comparison of 34 characters includes the terminating NUL of a 33-character name. */
  method IsSupportedType(str: string) returns (supported: bool)
    ensures supported <==> UpToNul(str) == FORM_TYPE
  {
    hide UpToNul;
    supported := SameStart(str, FORM_TYPE, 34);
    FormTypeSize();
    ComparesAll(str, FORM_TYPE, 34);
  }

  lemma {:induction false} FormTypeSize()
    ensures |FORM_TYPE| == 33 && '\0' !in FORM_TYPE
  {
  }

  /** A comparison that goes past the end of `t` compares all of it. */
  lemma {:induction false} ComparesAll(str: string, t: string, n: nat)
    requires |t| < n && '\0' !in t
    ensures Start(UpToNul(str), n) == Start(UpToNul(t), n) <==> UpToNul(str) == t
  {
    if |UpToNul(str)| > n { assert |Start(UpToNul(str), n)| == n; }
  }

  /** Parses the body of a form; no result for any other content type. */
  method BodyParser(header: Ring<Pair>, buffer: string) returns (b: Option<Ring<Pair>>)
    requires header.Valid()
    requires IsForm(header.Entries()) ==> Fits(buffer)
    ensures b.Some? <==> IsForm(header.Entries())
    ensures var v := FirstValue(header.Entries(), "content-type");
      b.Some? <==> v.Some? && UpToNul(v.value) == "application/x-www-form-urlencoded"
    ensures b.Some? ==> b.value.Valid() && b.value.Entries() == Reverse(ParsePairs(Text(buffer) + "&"))
  {
    var contentType := GetFirst(header, "content-type");
    if contentType.None? {
      return None;
    }
    var supported := IsSupportedType(contentType.value);
    if !supported {
      return None;
    }
    var q := QueryParser(buffer);
    b := Some(q);
  }
}
