/** The template renderer of src/template.c: a strtok loop over a buffer that it cuts in place. */
module Template {
  import opened Options
  import opened BasicStrings
  import opened CStrings
  import opened HashMap
  import opened Search
  import Pairs

  // ----- The context -----

  /** templateSet. The comment in include/template.h promises that the value of the key is overwritten. */
  method TemplateSet(context: HashMap<string>, key: string, value: string)
    requires context.Valid()
    modifies context, context.entries
    ensures context.Valid() && (context.entries == old(context.entries) || fresh(context.entries))
    ensures old(context.Full()) ==> context.Contents() == old(context.Contents())
    ensures !old(context.Full()) ==>
      context.Contents() ==
        (if key in old(context.Contents()) then old(context.Grown()) else old(context.Grown())[key := value])
    ensures old(context.len < context.cap / 2) ==>
      && context.entries == old(context.entries) && context.len == old(context.len) + 1
      && exists p: SPair<string>, x: nat :: p.key == key && p.value == value
           && Placed(old(context.entries[..]), context.entries[..], context.hash, p, x)
  {
    hide ContentsOf, Probeable, Taken, PowerOfTwo, UniqueKeys, Objects, Placed;
    var p := new SPair(key, value);
    InObjects(context.entries[..], p);
    var inserted, _ := context.InsertMove(p);
    if old(context.len < context.cap / 2) {
      ghost var x: nat :| Placed(old(context.entries[..]), context.entries[..], context.hash, p, x);
      assert p.key == key && p.value == value;
    }
  }

  /** The promise holds exactly for keys that are new, or that have the value once the table has made room. */
  method OverwritesExactlyWhen(context: HashMap<string>, key: string, value: string) returns (read: Option<string>)
    requires context.Valid()
    modifies context, context.entries
    ensures !old(context.Full()) ==>
      (read == Some(value) <==> key !in old(context.Grown()) || old(context.Grown())[key] == value)
    ensures old(context.Full()) ==>
      (read == Some(value) <==> key in old(context.Contents()) && old(context.Contents())[key] == value)
  {
    hide ContentsOf, Probeable, Taken, PowerOfTwo, UniqueKeys, InSlotOrder;
    context.GrownKeeps();
    TemplateSet(context, key, value);
    read := context.Get(key);
  }

  lemma {:induction false} FirstValueOfLonger(s: seq<Pairs.Pair>, p: Pairs.Pair, key: string)
    ensures Pairs.FirstValue(s + [p], key) ==
      if Pairs.FirstValue(s, key).Some? then Pairs.FirstValue(s, key) else if p.key == key then Some(p.value) else None
  {
    if s != [] {
      FirstValueOfLonger(s[1..], p, key);
      assert (s + [p])[1..] == s[1..] + [p];
    }
  }

  /** As long as the table has not grown, the first value that a key was set to is read. */
  method FirstValueStays(hash: string -> nat, sets: seq<Pairs.Pair>, key: string) returns (read: Option<string>)
    requires |sets| <= INITIAL_CAPACITY / 2
    ensures read == Pairs.FirstValue(sets, key)
  {
    hide ContentsOf, Probeable, Taken, PowerOfTwo, UniqueKeys, InSlotOrder, Placed;
    var context := new HashMap<string>(hash);
    for i := 0 to |sets|
      invariant context.Valid() && fresh(context) && fresh(context.entries)
      invariant context.len == i && context.cap == INITIAL_CAPACITY
      invariant key in context.Contents() <==> Pairs.FirstValue(sets[..i], key).Some?
      invariant key in context.Contents() ==> Pairs.FirstValue(sets[..i], key) == Some(context.Contents()[key])
    {
      TemplateSet(context, sets[i].key, sets[i].value);
      assert sets[..i + 1] == sets[..i] + [sets[i]];
      FirstValueOfLonger(sets[..i], sets[i], key);
    }
    assert sets[..|sets|] == sets;
    read := context.Get(key);
  }

  /** A key whose first two pairs lie on both sides of the end of the table. */
  ghost predicate Wrapped(context: HashMap<string>, key: string, first: string, second: string)
    reads context, context.entries
  {
    && context.Valid() && context.cap == INITIAL_CAPACITY && context.entries.Length == INITIAL_CAPACITY
    && context.entries[63] != null && context.entries[63].key == key && context.entries[63].value == first
    && context.entries[0] != null && context.entries[0].key == key && context.entries[0].value == second
    && key in context.Contents() && context.Contents()[key] == first
  }

  /** Sets a key to two values. */
  method SetTwice(hash: string -> nat, key: string, first: string, second: string) returns (context: HashMap<string>)
    requires hash(key) % INITIAL_CAPACITY == 63
    ensures fresh(context) && fresh(context.entries) && context.len == 2 && Wrapped(context, key, first, second)
  {
    hide ContentsOf, Probeable, Taken, PowerOfTwo, UniqueKeys, InSlotOrder, Placed;
    context := new HashMap<string>(hash);
    ghost var s := context.entries[..];
    TemplateSet(context, key, first);
    ghost var p: SPair<string>, x: nat :|
      p.key == key && p.value == first && Placed(s, context.entries[..], context.hash, p, x);
    PlacedWhere(s, context.entries[..], context.hash, p, x, 63);
    s := context.entries[..];
    TemplateSet(context, key, second);
    ghost var q: SPair<string>, y: nat :|
      q.key == key && q.value == second && Placed(s, context.entries[..], context.hash, q, y);
    PlacedWhere(s, context.entries[..], context.hash, q, y, 0);
  }

  /** Further settings go elsewhere, as long as the table does not grow. */
  method SetAgain(context: HashMap<string>, key: string, first: string, second: string)
    requires Wrapped(context, key, first, second) && context.len < INITIAL_CAPACITY / 2
    modifies context, context.entries
    ensures Wrapped(context, key, first, second) && context.entries == old(context.entries)
    ensures context.len == old(context.len) + 1
  {
    hide ContentsOf, Probeable, Taken, PowerOfTwo, InSlotOrder;
    TemplateSet(context, key, second);
  }

  /** The 33rd setting makes the table grow; then the second value of a wrapped key is read. */
  method SecondValueSurfaces(hash: string -> nat, key: string, first: string, second: string)
    returns (before: Option<string>, after: Option<string>)
    requires hash(key) % INITIAL_CAPACITY == 63
    ensures before == Some(first) && after == Some(second)
  {
    hide ContentsOf, Probeable, Taken, PowerOfTwo, InSlotOrder, Placed;
    var context := SetTwice(hash, key, first, second);
    for i := 2 to 32
      invariant Wrapped(context, key, first, second) && fresh(context) && fresh(context.entries) && context.len == i
    {
      SetAgain(context, key, first, second);
    }
    before := context.Get(key);
    assert FirstAt(context.entries[..], 0);
    LowestDecides(context.entries[..], 0);
    TemplateSet(context, key, second);
    after := context.Get(key);
  }

  /** Under the hash of the program, a backquote is such a key. */
  method BackquoteChanges(first: string, second: string) returns (before: Option<string>, after: Option<string>)
    ensures before == Some(first) && after == Some(second)
  {
    BackquoteIsLast();
    before, after := SecondValueSurfaces(HashKey, "`", first, second);
  }

  // ----- What a template is -----

  /** What stands between an opening brace and the next closing one. */
  datatype Item =
    | Placeholder(key: string)
    | When(status: string, expected: string, text: string)
    | Include(file: string)
    | Unknown(expression: string)
    | Braces(content: string)

  /** An item, and the text from its closing brace to the next opening one. */
  datatype Segment = Segment(item: Item, tail: string)

  datatype Page = Page(lead: string, segments: seq<Segment>)

  predicate Free(s: string, c: char) {
    c !in s && '\0' !in s
  }

  /** The characters between the braces. */
  function Body(item: Item): string {
    match item
    case Placeholder(key) => "{" + key
    case When(status, expected, text) => "%when " + status + " " + expected + " " + text + "%"
    case Include(file) => "%include " + file + "%"
    case Unknown(expression) => "%" + expression
    case Braces(content) => content
  }

  predicate GoodItem(item: Item) {
    && Free(Body(item), '}')
    && (item.When? ==> ' ' !in item.status && ' ' !in item.expected)
    && (item.Unknown? ==> !StartsWith(item.expression, "include") && !StartsWith(item.expression, "when"))
    && (item.Braces? ==> item.content != "" && item.content[0] != '{' && item.content[0] != '%')
  }

  /** No opening brace outside of the items; something stands between one item and the next. */
  predicate GoodSegments(s: seq<Segment>) {
    && (forall i | 0 <= i < |s| :: GoodItem(s[i].item) && Free(s[i].tail, '{'))
    && (forall i | 0 <= i < |s| - 1 :: s[i].tail != "")
  }

  predicate GoodPage(p: Page) {
    Free(p.lead, '{') && GoodSegments(p.segments)
  }

  function PrintSegments(s: seq<Segment>): string {
    if s == [] then "" else "{" + Body(s[0].item) + "}" + s[0].tail + PrintSegments(s[1..])
  }

  function Print(p: Page): string {
    p.lead + PrintSegments(p.segments)
  }

  /** The buffer that readfile makes of a file: a space in front, and the last byte cut off. */
  function ReadFile(content: string): string {
    if content == "" then "" else " " + content[..|content| - 1]
  }

  /** Two files that differ in their last byte only are read as the same. */
  lemma {:induction false} LastByteIsLost(content: string, a: char, b: char)
    ensures ReadFile(content + [a]) == ReadFile(content + [b]) == " " + content
  {
    assert (content + [a])[..|content|] == content && (content + [b])[..|content|] == content;
  }

  // ----- What rendering should produce -----

  type Site = map<string, Page>

  /** Includes lead to files of smaller rank. */
  ghost predicate Acyclic(site: Site, rank: map<string, nat>) {
    forall f | f in site ::
      && f in rank
      && forall i | 0 <= i < |site[f].segments| :: site[f].segments[i].item.Include? ==>
           var g := site[f].segments[i].item.file;
           g in site ==> g in rank && rank[g] < rank[f]
  }

  predicate IncludesFile(site: Site, f: string, g: string) {
    && f in site && g in site
    && exists i | 0 <= i < |site[f].segments| :: site[f].segments[i].item == Include(g)
  }

  predicate IncludePath(site: Site, p: seq<string>) {
    |p| >= 2 && forall k | 0 <= k < |p| - 1 :: IncludesFile(site, p[k], p[k + 1])
  }

  /** No file includes itself, directly or by way of others. */
  ghost predicate NoCycle(site: Site) {
    forall p | IncludePath(site, p) :: p[0] != p[|p| - 1]
  }

  lemma {:induction false} PathDescends(site: Site, rank: map<string, nat>, p: seq<string>)
    requires Acyclic(site, rank) && IncludePath(site, p)
    ensures p[0] in rank && p[|p| - 1] in rank && rank[p[|p| - 1]] < rank[p[0]]
  {
    assert IncludesFile(site, p[0], p[1]);
    var i :| 0 <= i < |site[p[0]].segments| && site[p[0]].segments[i].item == Include(p[1]);
    assert site[p[0]].segments[i].item.Include?;
    if |p| > 2 {
      forall k | 0 <= k < |p[1..]| - 1
        ensures IncludesFile(site, p[1..][k], p[1..][k + 1])
      {
        assert IncludesFile(site, p[k + 1], p[k + 1 + 1]);
      }
      PathDescends(site, rank, p[1..]);
    }
  }

  lemma {:induction false} SomeRepeats(p: seq<string>, s: set<string>) returns (i: nat, j: nat)
    requires |p| > |s| && forall x | x in p :: x in s
    ensures i < j < |p| && p[i] == p[j]
  {
    if p[0] in p[1..] {
      i := 0;
      j :| 0 < j < |p| && p[j] == p[0];
    } else {
      i, j := SomeRepeats(p[1..], s - {p[0]});
      i, j := i + 1, j + 1;
    }
  }

  /** The file includes another one of the set. */
  ghost predicate Leads(site: Site, s: set<string>, f: string) {
    exists g :: g in s && IncludesFile(site, f, g)
  }

  lemma {:induction false} LongPath(site: Site, s: set<string>, n: nat) returns (p: seq<string>)
    requires s != {} && forall f {:trigger Leads(site, s, f)} | f in s :: Leads(site, s, f)
    ensures |p| == n + 2 && IncludePath(site, p) && forall x | x in p :: x in s
  {
    hide IncludesFile;
    if n == 0 {
      var f :| f in s;
      assert Leads(site, s, f);
      var g :| g in s && IncludesFile(site, f, g);
      p := [f, g];
    } else {
      var q := LongPath(site, s, n - 1);
      assert Leads(site, s, q[|q| - 1]);
      var g :| g in s && IncludesFile(site, q[|q| - 1], g);
      p := q + [g];
    }
  }

  /** Files of which each includes another contain a cycle. */
  lemma {:induction false} CycleIn(site: Site, s: set<string>) returns (p: seq<string>)
    requires s != {} && forall f {:trigger Leads(site, s, f)} | f in s :: Leads(site, s, f)
    ensures IncludePath(site, p) && p[0] == p[|p| - 1]
  {
    hide IncludesFile;
    var q := LongPath(site, s, |s|);
    var i, j := SomeRepeats(q, s);
    p := q[i..j + 1];
    forall k | 0 <= k < |p| - 1
      ensures IncludesFile(site, p[k], p[k + 1])
    {
      assert IncludesFile(site, q[i + k], q[i + k + 1]);
    }
  }

  lemma {:induction false} RankOf(site: Site, s: set<string>) returns (rank: map<string, nat>)
    requires NoCycle(site)
    ensures rank.Keys == s && forall f, g | f in s && g in s && IncludesFile(site, f, g) :: rank[g] < rank[f]
    decreases |s|
  {
    hide IncludePath, IncludesFile;
    if s == {} {
      rank := map[];
    } else if f :| f in s && !Leads(site, s, f) {
      var r := RankOf(site, s - {f});
      rank := (map k | k in r :: r[k] + 1)[f := 0];
      assert rank.Keys == s && forall g | g in s :: !IncludesFile(site, f, g);
    } else {
      var _ := CycleIn(site, s);
    }
  }

  /** The includes of a site can be ranked if and only if they have no cycle. */
  lemma {:induction false} RankedExactlyWhen(site: Site)
    ensures (exists rank :: Acyclic(site, rank)) <==> NoCycle(site)
  {
    if rank :| Acyclic(site, rank) {
      forall p | IncludePath(site, p)
        ensures p[0] != p[|p| - 1]
      {
        PathDescends(site, rank, p);
      }
    }
    if NoCycle(site) {
      var rank := RankOf(site, site.Keys);
      RankFits(site, rank);
    }
  }

  lemma {:induction false} RankFits(site: Site, rank: map<string, nat>)
    requires rank.Keys == site.Keys
    requires forall f, g | f in site && g in site && IncludesFile(site, f, g) :: rank[g] < rank[f]
    ensures Acyclic(site, rank)
  {
    forall f, i | f in site && 0 <= i < |site[f].segments| && site[f].segments[i].item.Include?
      && site[f].segments[i].item.file in site
      ensures rank[site[f].segments[i].item.file] < rank[f]
    {
      assert IncludesFile(site, f, site[f].segments[i].item.file);
    }
  }

  function Height(site: Site, rank: map<string, nat>, file: string): nat {
    if file in site && file in rank then rank[file] + 1 else 0
  }

  /** The page of a file with every item replaced by its value. */
  ghost function Subst(site: Site, rank: map<string, nat>, context: map<string, string>, file: string): string
    requires Acyclic(site, rank)
    decreases Height(site, rank, file), 1, 0
  {
    if file !in site then ""
    else
      site[file].lead + SubstSegments(site, rank, context, file, 0)
  }

  /** A discarded character follows a directive; an unknown one ends the page; of other braces only the braces stay. */
  ghost function SubstSegments(site: Site, rank: map<string, nat>, context: map<string, string>, file: string,
                               i: nat): string
    requires Acyclic(site, rank) && file in site && i <= |site[file].segments|
    decreases Height(site, rank, file), 0, |site[file].segments| - i
  {
    if i == |site[file].segments| then ""
    else
      var s := site[file].segments[i];
      if s.item.Unknown? then ""
      else
        var value := if s.item.Include? then Subst(site, rank, context, s.item.file) else Value(context, s.item);
        var after := if s.tail == "" then "" else if s.item.Braces? then "}" + s.tail else s.tail[1..];
        value + after + SubstSegments(site, rank, context, file, i + 1)
  }

  /** The ranks only serve to show that substitution ends: any other ranking gives the same page. */
  lemma {:induction false} SubstSame(site: Site, rank: map<string, nat>, other: map<string, nat>,
                                     context: map<string, string>, file: string)
    requires Acyclic(site, rank) && Acyclic(site, other)
    ensures Subst(site, rank, context, file) == Subst(site, other, context, file)
    decreases Height(site, rank, file), 1, 0
  {
    if file in site { SubstSegmentsSame(site, rank, other, context, file, 0); }
  }

  lemma {:induction false} SubstSegmentsSame(site: Site, rank: map<string, nat>, other: map<string, nat>,
                                             context: map<string, string>, file: string, i: nat)
    requires Acyclic(site, rank) && Acyclic(site, other) && file in site && i <= |site[file].segments|
    ensures SubstSegments(site, rank, context, file, i) == SubstSegments(site, other, context, file, i)
    decreases Height(site, rank, file), 0, |site[file].segments| - i
  {
    hide Subst;
    if i < |site[file].segments| {
      var s := site[file].segments[i];
      if s.item.Include? { SubstSame(site, rank, other, context, s.item.file); }
      SubstSegmentsSame(site, rank, other, context, file, i + 1);
    }
  }

  function Value(context: map<string, string>, item: Item): string {
    match item
    case Placeholder(key) => if key in context then context[key] else ""
    case When(status, expected, text) => if status in context && context[status] == expected then text else ""
    case Include(_) => ""
    case Unknown(_) => ""
    case Braces(_) => "{"
  }

  // ----- strtok_r -----

  /** The first token of a text, and what follows its delimiter. */
  function Token(text: string, delim: char): Option<(string, string)> {
    if text == "" then None
    else if text[0] == delim then Token(text[1..], delim)
    else Some(Cut(text, delim))
  }

  function Cut(text: string, delim: char): (r: (string, string))
    ensures (r.0 == text && r.1 == "") || r.0 + [delim] + r.1 == text
  {
    if text == "" then ("", "")
    else if text[0] == delim then ("", text[1..])
    else
      var r := Cut(text[1..], delim);
      ([text[0]] + r.0, r.1)
  }

  lemma {:induction false} CutAt(a: string, delim: char, b: string)
    requires delim !in a
    ensures Cut(a + [delim] + b, delim) == (a, b) && Cut(a, delim) == (a, "")
  {
    if a == "" {
      assert ("" + [delim] + b)[1..] == b;
    } else {
      CutAt(a[1..], delim, b);
      assert (a + [delim] + b)[1..] == a[1..] + [delim] + b;
      assert a[0] != delim && [a[0]] + a[1..] == a;
    }
  }

  /** Skips the delimiters in front of a token. */
  method SkipDelimiters(buf: array<char>, start: nat, delim: char, ghost text: string)
    returns (pos: nat, ghost rest: string)
    requires start <= buf.Length && IsCString(buf[start..], text) && delim != '\0'
    ensures start <= pos < buf.Length && IsCString(buf[pos..], rest) && Token(rest, delim) == Token(text, delim)
    ensures rest != "" ==> buf[pos] == rest[0] != delim
    ensures rest == "" ==> buf[pos] == '\0'
  {
    pos, rest := start, text;
    CharAt(buf[pos..], rest, 0);
    while buf[pos] == delim
      invariant start <= pos < buf.Length && IsCString(buf[pos..], rest)
      invariant buf[pos] == if rest == "" then '\0' else rest[0]
      invariant Token(rest, delim) == Token(text, delim)
      decreases |rest|
    {
      Advance(buf[pos..], rest);
      assert buf[pos..][1..] == buf[pos + 1..];
      rest := rest[1..];
      pos := pos + 1;
      CharAt(buf[pos..], rest, 0);
    }
    NoNul(buf[pos..], rest);
  }

  /** Finds the end of a token. */
  method TokenEnd(buf: array<char>, begin: nat, delim: char, ghost text: string) returns (pos: nat, ghost rest: string)
    requires begin <= buf.Length && IsCString(buf[begin..], text) && delim != '\0'
    ensures begin <= pos < buf.Length && IsCString(buf[pos..], rest)
    ensures rest == "" ==> buf[pos] == '\0' && Cut(text, delim) == (buf[begin..pos], "")
    ensures rest != "" ==> buf[pos] == rest[0] == delim && Cut(text, delim) == (buf[begin..pos], rest[1..])
  {
    hide Cut, IsCString;
    pos, rest := begin, text;
    ghost var word := "";
    assert word + Cut(text, delim).0 == Cut(text, delim).0;
    CharAt(buf[pos..], rest, 0);
    while buf[pos] != '\0' && buf[pos] != delim
      invariant begin <= pos < buf.Length && IsCString(buf[pos..], rest)
      invariant buf[pos] == if rest == "" then '\0' else rest[0]
      invariant buf[begin..pos] == word
      invariant Cut(text, delim) == (word + Cut(rest, delim).0, Cut(rest, delim).1)
      decreases |rest|
    {
      Advance(buf[pos..], rest);
      assert buf[pos..][1..] == buf[pos + 1..];
      CutStep(word, rest, delim);
      word := word + [rest[0]];
      rest := rest[1..];
      pos := pos + 1;
      CharAt(buf[pos..], rest, 0);
    }
    NoNul(buf[pos..], rest);
    CutEnd(word, rest, delim);
  }

  lemma {:induction false} CutStep(word: string, rest: string, delim: char)
    requires rest != "" && rest[0] != delim
    ensures word + Cut(rest, delim).0 == (word + [rest[0]]) + Cut(rest[1..], delim).0
    ensures Cut(rest, delim).1 == Cut(rest[1..], delim).1
  {
    var r := Cut(rest[1..], delim);
    assert word + ([rest[0]] + r.0) == (word + [rest[0]]) + r.0;
  }

  lemma {:induction false} CutEnd(word: string, rest: string, delim: char)
    requires rest == "" || rest[0] == delim
    ensures word + Cut(rest, delim).0 == word
    ensures Cut(rest, delim).1 == if rest == "" then "" else rest[1..]
  {
    assert word + "" == word;
  }

  lemma {:induction false} NoNul(buf: seq<char>, text: string)
    requires IsCString(buf, text)
    ensures text != "" ==> text[0] != '\0'
  {
  }

  /** Returns the token and where the next call goes on; its delimiter is overwritten by NUL. */
  method StrTok(buf: array<char>, start: nat, delim: char, ghost text: string) returns (token: Option<string>, pos: nat)
    requires start <= buf.Length && IsCString(buf[start..], text) && delim != '\0'
    modifies buf
    ensures pos <= buf.Length
    ensures match Token(text, delim)
      case None => token == None && IsCString(buf[pos..], "")
      case Some(r) => token == Some(r.0) && IsCString(buf[pos..], r.1)
  {
    hide Cut;
    ghost var rest;
    pos, rest := SkipDelimiters(buf, start, delim, text);
    if buf[pos] == '\0' {
      return None, pos;
    }
    var begin := pos;
    pos, rest := TokenEnd(buf, begin, delim, rest);
    token := Some(buf[begin..pos]);
    if buf[pos] == delim {
      Advance(buf[pos..], rest);
      assert buf[pos..][1..] == buf[pos + 1..];
      buf[pos] := '\0';
      pos := pos + 1;
    }
  }

  lemma {:induction false} Advance(buf: seq<char>, text: string)
    requires IsCString(buf, text) && text != ""
    ensures IsCString(buf[1..], text[1..]) && buf[0] == text[0]
  {
    assert buf[1..][..|text| - 1] == buf[..|text|][1..];
    CharAt(buf, text, 0);
  }

  // ----- The renderer -----

  lemma {:induction false} TokenCut(a: string, delim: char, b: string)
    requires a != "" && delim !in a
    ensures Token(a + [delim] + b, delim) == Some((a, b)) && Token(a, delim) == Some((a, ""))
  {
    CutAt(a, delim, b);
    assert (a + [delim] + b)[0] == a[0];
  }

  /** The text that is left for the i-th round: the printed segments without their first brace. */
  function Remaining(s: seq<Segment>): string {
    if s == [] then "" else Body(s[0].item) + ['}'] + (s[0].tail + PrintSegments(s[1..]))
  }

  lemma {:induction false} PrintedIsRemaining(s: seq<Segment>)
    ensures s != [] ==> PrintSegments(s) == ['{'] + Remaining(s)
    ensures s == [] ==> PrintSegments(s) == Remaining(s) == ""
  {
  }

  /** What is read up to the next opening brace. */
  lemma {:induction false} TokenBeforeSegments(text: string, s: seq<Segment>)
    requires text != "" && '{' !in text
    ensures Token(text + PrintSegments(s), '{') == Some((text, Remaining(s)))
  {
    PrintedIsRemaining(s);
    TokenCut(text, '{', Remaining(s));
    if s == [] {
      assert text + "" == text;
    } else {
      assert text + (['{'] + Remaining(s)) == text + ['{'] + Remaining(s);
    }
  }

  /** What the two calls of a round find. */
  lemma {:induction false} SegmentTokens(s: seq<Segment>, i: nat)
    requires i < |s| && GoodSegments(s)
    ensures GoodItem(s[i].item)
    ensures var rest := s[i].tail + PrintSegments(s[i + 1..]);
      && Token(Remaining(s[i..]), '}') == Some((Body(s[i].item), rest))
      && (s[i].tail == "" ==> i + 1 == |s| && Token(rest, '{') == None)
      && (s[i].tail != "" ==> Token(rest, '{') == Some((s[i].tail, Remaining(s[i + 1..]))))
  {
    hide Token, PrintSegments;
    var item, tail := s[i].item, s[i].tail;
    NonemptyBody(item);
    assert s[i..][1..] == s[i + 1..];
    TokenCut(Body(item), '}', tail + PrintSegments(s[i + 1..]));
    if tail != "" {
      TokenBeforeSegments(tail, s[i + 1..]);
    } else {
      assert s[i + 1..] == [];
      PrintedIsRemaining(s[i + 1..]);
      assert tail + PrintSegments(s[i + 1..]) == "";
      NoToken();
    }
  }

  lemma {:induction false} NoToken()
    ensures Token("", '{') == None && Token("", '}') == None
  {
  }

  lemma {:induction false} NonemptyBody(item: Item)
    requires GoodItem(item)
    ensures Body(item) != "" && Body(item)[0] != '}'
  {
  }

  lemma {:induction false} WhenBody(status: string, expected: string, text: string)
    ensures var b := Body(When(status, expected, text));
      b[0] == '%' && StartsWith(b[1..], "when") && !StartsWith(b[1..], "include")
  {
    var b := Body(When(status, expected, text));
    assert b == "%when" + (" " + status + " " + expected + " " + text + "%");
    assert b[1] == 'w' && b[1..][0] == 'w';
    assert b[1..][..4] == "%when"[1..];
  }

  lemma {:induction false} IncludeBody(file: string)
    ensures var b := Body(Include(file));
      b[0] == '%' && StartsWith(b[1..], "include") && !StartsWith(b[1..], "when") && |b| >= 10 && b[9..|b| - 1] == file
  {
    var b := Body(Include(file));
    assert b == "%include" + (" " + file + "%");
    assert b[1] == 'i' && b[1..][0] == 'i';
    assert b[1..][..7] == "%include"[1..];
  }

  /** What the body of an item looks like to the renderer. */
  lemma {:induction false} BodyShape(item: Item)
    requires GoodItem(item)
    ensures var b := Body(item);
      && b != ""
      && (b[0] == '{' <==> item.Placeholder?)
      && (item.Placeholder? ==> b[1..] == item.key)
      && (b[0] == '%' <==> item.When? || item.Include? || item.Unknown?)
      && (b[0] == '%' ==>
            (StartsWith(b[1..], "include") <==> item.Include?) && (StartsWith(b[1..], "when") <==> item.When?))
      && (item.Include? ==> |b| >= 10 && b[9..|b| - 1] == item.file)
  {
    hide StartsWith, Free;
    match item
    case Placeholder(_) =>
    case When(status, expected, text) => WhenBody(status, expected, text);
    case Include(file) => IncludeBody(file);
    case Unknown(expression) => assert Body(item)[1..] == expression;
    case Braces(_) =>
  }

  /** The parts of a `when`, cut at its first two spaces. */
  lemma {:induction false} WhenShape(item: Item)
    requires GoodItem(item) && item.When?
    ensures var s := Body(item)[6..];
      && IndexOf(s, " ") == Some(|item.status|) && s[..|item.status|] == item.status
      && var r := s[|item.status| + 1..];
      && IndexOf(r, " ") == Some(|item.expected|) && r[..|item.expected|] == item.expected
      && var t := r[|item.expected| + 1..];
      t != "" && t[..|t| - 1] == item.text
  {
    hide IndexOf;
    var s := Body(item)[6..];
    var t := item.text + "%";
    var r := item.expected + [' '] + t;
    assert s == item.status + [' '] + r;
    FirstAfter(item.status, ' ', r);
    FirstAfter(item.expected, ' ', t);
    assert s[|item.status| + 1..] == r && r[|item.expected| + 1..] == t;
  }

  /** The value of a `when`, if its status has the expected value. */
  method RenderWhen(segment: string, context: HashMap<string>, ghost item: Item) returns (value: string)
    requires context.Valid() && GoodItem(item) && item.When? && segment == Body(item)
    ensures value == Value(context.Contents(), item)
  {
    WhenShape(item);
    var rest := segment[6..];
    var spc := StrChr(rest, ' ');
    var statusValue := context.Get(rest[..spc.value]);
    value := "";
    if statusValue.Some? {
      rest := rest[spc.value + 1..];
      spc := StrChr(rest, ' ');
      if statusValue.value == rest[..spc.value] {
        rest := rest[spc.value + 1..];
        value := rest[..|rest| - 1];
      }
    }
  }

  /** The files hold the pages of the site. */
  ghost predicate Holds(files: map<string, string>, site: Site) {
    && files.Keys == site.Keys
    && forall f | f in files :: GoodPage(site[f]) && files[f] != "" && files[f][..|files[f]| - 1] == Print(site[f])
  }

  /** The value of one item, whether a character is to be skipped after it, and whether rendering goes on. */
  method RenderItem(segment: string, context: HashMap<string>, files: map<string, string>,
                    ghost site: Site, ghost rank: map<string, nat>, ghost file: string, ghost i: nat)
    returns (value: string, rep: bool, known: bool)
    requires context.Valid() && Acyclic(site, rank) && Holds(files, site)
    requires file in site && i < |site[file].segments| && segment == Body(site[file].segments[i].item)
    ensures var item := site[file].segments[i].item;
      && known == !item.Unknown? && (known ==> rep == !item.Braces?)
      && (known ==> value == ItemValue(site, rank, context.Contents(), item))
    decreases Height(site, rank, file), 0
  {
    hide Subst, SubstSegments;
    ghost var item := site[file].segments[i].item;
    BodyShape(item);
    value, rep, known := "", true, true;
    if segment[0] == '{' {
      var v := context.Get(segment[1..]);
      if v.Some? {
        value := v.value;
      }
    } else if segment[0] == '%' {
      if StartsWith(segment[1..], "include") {
        var nested := Render(segment[9..|segment| - 1], context, files, site, rank);
        value := nested.data[..nested.size];
      } else if StartsWith(segment[1..], "when") {
        value := RenderWhen(segment, context, item);
      } else {
        known := false;
      }
    } else {
      rep := false;
      value := "{";
    }
  }

  ghost function ItemValue(site: Site, rank: map<string, nat>, context: map<string, string>, item: Item): string
    requires Acyclic(site, rank)
  {
    if item.Include? then Subst(site, rank, context, item.file) else Value(context, item)
  }

  /** What has been rendered, before the i-th segment. */
  ghost predicate Rendered(text: string, site: Site, rank: map<string, nat>, context: map<string, string>,
                           file: string, i: nat)
    requires Acyclic(site, rank)
  {
    file in site && i <= |site[file].segments|
    && text + SubstSegments(site, rank, context, file, i) == Subst(site, rank, context, file)
  }

  lemma {:induction false} RenderedLead(site: Site, rank: map<string, nat>, context: map<string, string>, file: string)
    requires Acyclic(site, rank) && file in site
    ensures Rendered(site[file].lead, site, rank, context, file, 0)
  {
  }

  lemma {:induction false} RenderedNext(text: string, value: string, site: Site, rank: map<string, nat>,
                                        context: map<string, string>, file: string, i: nat)
    requires Acyclic(site, rank) && Rendered(text, site, rank, context, file, i) && i < |site[file].segments|
    ensures site[file].segments[i].item.Unknown? ==> text == Subst(site, rank, context, file)
    ensures var s := site[file].segments[i];
      !s.item.Unknown? && value == ItemValue(site, rank, context, s.item) ==>
        && (s.tail == "" ==> Rendered(text + value, site, rank, context, file, i + 1))
        && (s.tail != "" ==>
              var after := if s.item.Braces? then "}" + s.tail else s.tail[1..];
              Rendered(text + value + after, site, rank, context, file, i + 1))
  {
    hide Subst;
    var s := site[file].segments[i];
    if s.item.Unknown? {
      assert text + "" == text;
    } else {
      var after := if s.tail == "" then "" else if s.item.Braces? then "}" + s.tail else s.tail[1..];
      var others := SubstSegments(site, rank, context, file, i + 1);
      assert text + (value + after + others) == (text + value + after) + others;
      assert text + value + "" == text + value;
    }
  }

  lemma {:induction false} RenderedAll(text: string, site: Site, rank: map<string, nat>, context: map<string, string>,
                                       file: string)
    requires Acyclic(site, rank) && file in site && Rendered(text, site, rank, context, file, |site[file].segments|)
    ensures text == Subst(site, rank, context, file)
  {
    assert text + "" == text;
  }

  /** One round of the loop: an item and the text behind it. */
  method RenderRound(buf: array<char>, start: nat, res: BasicString, context: HashMap<string>,
                     files: map<string, string>, ghost site: Site, ghost rank: map<string, nat>,
                     ghost file: string, ghost i: nat)
    returns (finished: bool, pos: nat)
    requires context.Valid() && res.Valid() && res.data != buf && Acyclic(site, rank) && Holds(files, site)
    requires file in site && i <= |site[file].segments| && GoodSegments(site[file].segments)
    requires Rendered(res.Text(), site, rank, context.Contents(), file, i)
    requires start <= buf.Length && IsCString(buf[start..], Remaining(site[file].segments[i..]))
    modifies buf, res
    ensures res.Valid() && (res.data == old(res.data) || fresh(res.data))
    ensures finished ==> res.Text() == Subst(site, rank, context.Contents(), file)
    ensures !finished ==>
      && i < |site[file].segments| && Rendered(res.Text(), site, rank, context.Contents(), file, i + 1)
      && pos <= buf.Length && IsCString(buf[pos..], Remaining(site[file].segments[i + 1..]))
    decreases Height(site, rank, file), 1
  {
    hide Subst, SubstSegments, Token, Remaining, Rendered, IsCString, Acyclic, Holds, GoodSegments, GoodItem, Height,
      Value, Body;
    hide context.Valid, ContentsOf;
    ghost var m, s := context.Contents(), site[file].segments;
    if i < |s| { SegmentTokens(s, i); } else { NothingRemains(s[i..]); }
    ghost var rest := if i < |s| then s[i].tail + PrintSegments(s[i + 1..]) else "";
    var next;
    next, pos := StrTok(buf, start, '}', Remaining(s[i..]));
    if next.None? {
      RenderedAll(res.Text(), site, rank, m, file);
      return true, pos;
    }
    var value, rep, known := RenderItem(next.value, context, files, site, rank, file, i);
    RenderedNext(res.Text(), value, site, rank, m, file, i);
    if !known {
      return true, pos;
    }
    res.AppendRaw(value);
    next, pos := StrTok(buf, pos, '{', rest);
    if next.None? {
      RenderedAll(res.Text(), site, rank, m, file);
      return true, pos;
    }
    AppendTail(res, next.value, rep);
    finished := false;
  }

  /** Renders a file under a context that its includes share. */
  method Render(file: string, context: HashMap<string>, files: map<string, string>, ghost site: Site,
                ghost rank: map<string, nat>)
    returns (res: BasicString)
    requires context.Valid() && Acyclic(site, rank) && Holds(files, site)
    ensures fresh(res) && fresh(res.data) && res.Valid()
    ensures res.Text() == Subst(site, rank, context.Contents(), file)
    decreases Height(site, rank, file), 2
  {
    hide Subst, SubstSegments, Token, Remaining, Rendered, IsCString, Acyclic, Holds, GoodSegments, GoodItem, Height,
      Value, Body;
    hide context.Valid, ContentsOf;
    res := new BasicString("");
    SameFiles(files, site);
    if file !in files {
      NoSuchFile(site, rank, context.Contents(), file);
      return;
    }
    PageOfFile(files, site, file);
    ghost var m, s, i := context.Contents(), site[file].segments, 0;
    var buf, pos: nat, segment := OpenPage(files[file], site[file]);
    res.AppendRaw(segment[1..]);
    RenderedLead(site, rank, m, file);
    assert res.Text() == site[file].lead;
    assert s[0..] == s;
    var finished := false;
    while !finished
      invariant fresh(buf) && fresh(res) && fresh(res.data) && res.data != buf && res.Valid()
      invariant context.Valid() && context.Contents() == m
      invariant finished ==> res.Text() == Subst(site, rank, m, file)
      invariant !finished ==> i <= |s| && pos <= buf.Length && IsCString(buf[pos..], Remaining(s[i..]))
      invariant !finished ==> Rendered(res.Text(), site, rank, m, file, i)
      decreases !finished, |s| - i
    {
      finished, pos := RenderRound(buf, pos, res, context, files, site, rank, file, i);
      i := i + 1;
    }
  }

  /** A site without include cycles can be rendered, whatever ranks its files are given. */
  method RenderSite(file: string, context: HashMap<string>, files: map<string, string>, ghost site: Site)
    returns (res: BasicString)
    requires context.Valid() && NoCycle(site) && Holds(files, site)
    ensures fresh(res) && res.Valid()
    ensures exists rank :: Acyclic(site, rank)
    ensures forall rank | Acyclic(site, rank) :: res.Text() == Subst(site, rank, context.Contents(), file)
  {
    hide Acyclic, NoCycle, Holds, Subst, context.Valid, ContentsOf;
    RankedExactlyWhen(site);
    ghost var one :| Acyclic(site, one);
    res := Render(file, context, files, site, one);
    forall rank | Acyclic(site, rank)
      ensures res.Text() == Subst(site, rank, context.Contents(), file)
    {
      SubstSame(site, one, rank, context.Contents(), file);
    }
  }

  /** The text after an item: without its first character after a directive, behind a brace after other braces. */
  method AppendTail(res: BasicString, tail: string, rep: bool)
    requires res.Valid() && tail != ""
    modifies res
    ensures res.Valid() && (res.data == old(res.data) || fresh(res.data))
    ensures res.Text() == old(res.Text()) + if rep then tail[1..] else "}" + tail
  {
    if rep {
      res.AppendRaw(tail[1..]);
    } else {
      res.AppendRaw("}");
      res.AppendRaw(tail);
    }
  }

  lemma {:induction false} SameFiles(files: map<string, string>, site: Site)
    requires Holds(files, site)
    ensures files.Keys == site.Keys
  {
  }

  lemma {:induction false} PageOfFile(files: map<string, string>, site: Site, file: string)
    requires Holds(files, site) && file in files
    ensures file in site && GoodPage(site[file]) && GoodSegments(site[file].segments)
    ensures files[file] != "" && files[file][..|files[file]| - 1] == Print(site[file])
  {
  }

  lemma {:induction false} NothingRemains(s: seq<Segment>)
    ensures s == [] ==> Token(Remaining(s), '}') == None
  {
  }

  lemma {:induction false} NoSuchFile(site: Site, rank: map<string, nat>, context: map<string, string>, file: string)
    requires Acyclic(site, rank) && file !in site
    ensures Subst(site, rank, context, file) == ""
  {
  }

  /** Reads a file into a buffer and cuts off the text before its first brace. */
  method OpenPage(content: string, ghost page: Page) returns (buf: array<char>, pos: nat, segment: string)
    requires GoodPage(page) && content != "" && content[..|content| - 1] == Print(page)
    ensures fresh(buf) && pos <= buf.Length && IsCString(buf[pos..], Remaining(page.segments))
      && segment == " " + page.lead
  {
    hide Token, Remaining;
    var text := ReadFile(content);
    buf := new char[|text| + 1](i requires 0 <= i <= |text| => if i < |text| then text[i] else '\0');
    assert text == (" " + page.lead) + PrintSegments(page.segments);
    TokenBeforeSegments(" " + page.lead, page.segments);
    PrintHasNoNul(page.segments);
    assert buf[0..][..|text|] == text;
    var token;
    token, pos := StrTok(buf, 0, '{', text);
    segment := token.value;
  }

  lemma {:induction false} PrintHasNoNul(s: seq<Segment>)
    requires GoodSegments(s)
    ensures '\0' !in PrintSegments(s)
  {
    if s != [] {
      assert forall i | 0 <= i < |s[1..]| :: s[1..][i] == s[i + 1];
      PrintHasNoNul(s[1..]);
    }
  }
}
