/** HTTP headers: printing and parsing (src/http/header.c, section 4.2 of RFC 2616). */
module Header {
  import opened Options
  import opened Rings
  import opened Pairs
  import opened Search
  import opened CStrings

  const CRLF := "\r\n"

  // ----- What a header block means -----

  predicate IsSpace(c: char) {
    c == ' ' || '\t' <= c <= '\r'
  }

  function LowerChar(c: char): char {
    if 'A' <= c <= 'Z' then (c as int + 32) as char else c
  }

  function Lower(s: string): (r: string)
    ensures |r| == |s| && forall i | 0 <= i < |s| :: r[i] == LowerChar(s[i])
  {
    seq(|s|, i requires 0 <= i < |s| => LowerChar(s[i]))
  }

  /** The conversion, letter by letter: the i-th capital becomes the i-th small letter, everything else stays. */
  lemma {:induction false} LowerCharIs(c: char)
    ensures forall i: nat | i < 26 && c == "ABCDEFGHIJKLMNOPQRSTUVWXYZ"[i] ::
      LowerChar(c) == "abcdefghijklmnopqrstuvwxyz"[i]
    ensures c !in "ABCDEFGHIJKLMNOPQRSTUVWXYZ" ==> LowerChar(c) == c
    ensures c in "ABCDEFGHIJKLMNOPQRSTUVWXYZ" <==> 'A' <= c <= 'Z'
  {
    assert forall i | 0 <= i < 26 :: "ABCDEFGHIJKLMNOPQRSTUVWXYZ"[i] as int == 'A' as int + i;
    assert forall i | 0 <= i < 26 :: "abcdefghijklmnopqrstuvwxyz"[i] as int == 'a' as int + i;
    if 'A' <= c <= 'Z' {
      assert "ABCDEFGHIJKLMNOPQRSTUVWXYZ"[c as int - 'A' as int] == c;
    }
  }

  predicate NoCapital(s: string) {
    forall i | 0 <= i < |s| :: !('A' <= s[i] <= 'Z')
  }

  /** Capitals have become small letters, and nothing else has changed. */
  predicate Lowered(was: string, now: string) {
    && |now| == |was| && NoCapital(now)
    && forall i | 0 <= i < |was| ::
         && (was[i] !in "ABCDEFGHIJKLMNOPQRSTUVWXYZ" ==> now[i] == was[i])
         && forall k: nat | k < 26 && was[i] == "ABCDEFGHIJKLMNOPQRSTUVWXYZ"[k] ::
              now[i] == "abcdefghijklmnopqrstuvwxyz"[k]
  }

  lemma {:induction false} LowerIs(s: string)
    ensures Lowered(s, Lower(s))
  {
    forall i | 0 <= i < |s|
      ensures s[i] !in "ABCDEFGHIJKLMNOPQRSTUVWXYZ" ==> Lower(s)[i] == s[i]
      ensures forall k: nat | k < 26 && s[i] == "ABCDEFGHIJKLMNOPQRSTUVWXYZ"[k] ::
        Lower(s)[i] == "abcdefghijklmnopqrstuvwxyz"[k]
    {
      LowerCharIs(s[i]);
    }
  }

  function StripHead(s: string): string {
    if s != "" && IsSpace(s[0]) then StripHead(s[1..]) else s
  }

  /** The pair on a line whose first colon is at `c`. */
  function LinePair(line: string, c: nat): Pair
    requires c < |line|
  {
    Pair(Lower(line[..c]), StripHead(line[c + 1..]))
  }

  /** The pairs of a header block, and how many characters it takes with the empty line that ends it. No result
      where a line has no end or no colon: there the parser reads and writes outside of the line. */
  function ParseBlock(text: string): Option<(seq<Pair>, nat)>
    decreases |text|
  {
    if text == "" then Some(([], 2))
    else
      match IndexOf(text, CRLF)
      case None => None
      case Some(n) =>
        if n == 0 then Some(([], 2))
        else
          match IndexOf(text, ":")
          case None => None
          case Some(c) =>
            if c >= n || n + 2 > |text| then None
            else
              match ParseBlock(text[n + 2..])
              case None => None
              case Some(rest) => Some(([LinePair(text[..n], c)] + rest.0, n + 2 + rest.1))
  }

  // ----- Printing -----

  function Line(p: Pair): string {
    p.key + ": " + p.value + CRLF
  }

  function Print(headers: seq<Pair>): string {
    if headers == [] then "" else Line(headers[0]) + Print(headers[1..])
  }

  /** Lower-case keys without colon, values without leading space; neither with a line end, all of it ASCII. */
  predicate Printable(p: Pair) {
    && Ascii(p.key) && Ascii(p.value)
    && (forall i | 0 <= i < |p.key| :: p.key[i] != ':' && !('A' <= p.key[i] <= 'Z'))
    && IndexOf(p.key, CRLF) == None && IndexOf(p.value, CRLF) == None
    && (p.value != "" ==> !IsSpace(p.value[0]))
  }

  /** A line ends where its own CRLF starts. */
  lemma {:induction false} LineEnd(p: Pair, rest: string)
    requires Printable(p)
    ensures IndexOf(Line(p) + rest, CRLF) == Some(|p.key| + 2 + |p.value|)
  {
    var s, n := Line(p) + rest, |p.key| + 2 + |p.value|;
    assert s[n..n + 2] == CRLF;
    IndexFromIsLeftmost(p.key, CRLF, 0);
    IndexFromIsLeftmost(p.value, CRLF, 0);
    forall t: nat | t < n
      ensures !OccursAt(s, CRLF, t)
    {
      if OccursAt(s, CRLF, t) {
        OccursPointwise(s, CRLF, t, 0);
        OccursPointwise(s, CRLF, t, 1);
        InsideKeyOrValue(p, rest, t);
      }
    }
    IndexIs(s, CRLF, n);
  }

  lemma {:induction false} InsideKeyOrValue(p: Pair, rest: string, t: nat)
    requires t < |p.key| + 2 + |p.value|
    requires (Line(p) + rest)[t] == '\r' && (Line(p) + rest)[t + 1] == '\n'
    ensures (t + 1 < |p.key| && OccursAt(p.key, CRLF, t))
      || (t >= |p.key| + 2 && OccursAt(p.value, CRLF, t - |p.key| - 2))
  {
    var s := Line(p) + rest;
    if t < |p.key| {
      assert s[t] == p.key[t];
      assert t + 1 < |p.key| ==> s[t + 1] == p.key[t + 1];
      assert s[|p.key|] == ':';
      assert p.key[t..t + 2] == CRLF;
    } else {
      assert s[|p.key|] == ':' && s[|p.key| + 1] == ' ';
      var u := t - |p.key| - 2;
      assert s[t] == p.value[u];
      assert u + 1 < |p.value| ==> s[t + 1] == p.value[u + 1];
      assert s[|p.key| + 2 + |p.value|] == '\r';
      assert p.value[u..u + 2] == CRLF;
    }
  }

  lemma {:induction false} PairOfLine(p: Pair)
    requires Printable(p)
    ensures LinePair(p.key + ": " + p.value, |p.key|) == p
  {
    var line := p.key + ": " + p.value;
    assert line[..|p.key|] == p.key && line[|p.key| + 1..] == " " + p.value;
    assert Lower(p.key) == p.key;
    assert (" " + p.value)[1..] == p.value;
    assert StripHead(" " + p.value) == p.value;
  }

  lemma {:induction false} LineColon(p: Pair, rest: string)
    requires Printable(p)
    ensures IndexOf(Line(p) + rest, ":") == Some(|p.key|)
  {
    hide IndexOf;
    FirstAfter(p.key, ':', " " + p.value + CRLF + rest);
    assert Line(p) + rest == p.key + [':'] + (" " + p.value + CRLF + rest);
  }

  lemma {:induction false} LineCut(p: Pair, rest: string)
    ensures var s, n := Line(p) + rest, |p.key| + 2 + |p.value|;
      |Line(p)| == n + 2 && s[..n] == p.key + ": " + p.value && s[n + 2..] == rest
  {
    assert Line(p)[..|p.key| + 2 + |p.value|] == p.key + ": " + p.value;
  }

  lemma {:induction false} ParseLine(p: Pair, rest: string)
    requires Printable(p) && ParseBlock(rest).Some?
    ensures ParseBlock(Line(p) + rest) ==
      Some(([p] + ParseBlock(rest).value.0, |Line(p)| + ParseBlock(rest).value.1))
  {
    hide Line, LinePair, IndexOf, Printable;
    LineEnd(p, rest);
    LineColon(p, rest);
    LineCut(p, rest);
    PairOfLine(p);
  }

  // ----- Printing, written out -----

  lemma {:induction false} PrintIs(p: Pair, a: seq<Pair>, b: seq<Pair>)
    ensures Print([p]) == p.key + ": " + p.value + "\r\n"
    ensures Print(a + b) == Print(a) + Print(b)
    decreases |a|
  {
    hide Line;
    LineIs(p);
    assert [p][1..] == [];
    if a == [] {
      assert a + b == b;
    } else {
      PrintIs(p, a[1..], b);
      assert (a + b)[1..] == a[1..] + b;
      assert Line(a[0]) + (Print(a[1..]) + Print(b)) == (Line(a[0]) + Print(a[1..])) + Print(b);
    }
  }

  lemma {:induction false} LineIs(p: Pair)
    ensures Line(p) + "" == p.key + ": " + p.value + "\r\n"
  {
  }

  // ----- Blocks as clients send them -----

  /** Keys in any case, values with any spaces around them. */
  function Raw(lines: seq<Pair>): string {
    if lines == [] then "" else RawLine(lines[0]) + Raw(lines[1..])
  }

  function RawLine(p: Pair): string {
    p.key + ":" + p.value + "\r\n"
  }

  predicate Sendable(p: Pair) {
    ':' !in p.key && '\r' !in p.key && '\r' !in p.value
  }

  /** The pairs that such lines are read as. */
  function Read(lines: seq<Pair>): (pairs: seq<Pair>)
    ensures |pairs| == |lines|
  {
    if lines == [] then [] else [Pair(Lower(lines[0].key), StripHead(lines[0].value))] + Read(lines[1..])
  }

  lemma {:induction false} RawLineEnd(p: Pair, rest: string)
    requires Sendable(p)
    ensures var s, n := RawLine(p) + rest, |p.key| + 1 + |p.value|;
      && |RawLine(p)| == n + 2 && IndexOf(s, "\r\n") == Some(n) && IndexOf(s, ":") == Some(|p.key|)
      && s[..n] == p.key + ":" + p.value && s[n + 2..] == rest
  {
    var s, n := RawLine(p) + rest, |p.key| + 1 + |p.value|;
    assert s[..n] == p.key + ":" + p.value && s[n..n + 2] == "\r\n";
    assert '\r' !in s[..n];
    forall t: nat | t < n
      ensures !OccursAt(s, "\r\n", t)
    {
      assert s[t] == s[..n][t];
      if OccursAt(s, "\r\n", t) { OccursPointwise(s, "\r\n", t, 0); }
    }
    IndexIs(s, "\r\n", n);
    assert s == p.key + [':'] + (p.value + "\r\n" + rest);
    FirstAfter(p.key, ':', p.value + "\r\n" + rest);
  }

  lemma {:induction false} ReadLineOf(p: Pair)
    ensures LinePair(p.key + ":" + p.value, |p.key|) == Pair(Lower(p.key), StripHead(p.value))
  {
    var line := p.key + ":" + p.value;
    assert line[..|p.key|] == p.key && line[|p.key| + 1..] == p.value;
  }

  lemma {:induction false} ParseRawLine(p: Pair, rest: string)
    requires Sendable(p) && ParseBlock(rest).Some?
    ensures ParseBlock(RawLine(p) + rest) ==
      Some(([Pair(Lower(p.key), StripHead(p.value))] + ParseBlock(rest).value.0,
            |RawLine(p)| + ParseBlock(rest).value.1))
  {
    hide LinePair, Lower, StripHead, IndexOf, Sendable, RawLine;
    RawLineEnd(p, rest);
    ReadLineOf(p);
  }

  /** Every line is read as its key in small letters and its value without leading spaces. */
  lemma {:induction false} ParseRaw(lines: seq<Pair>, rest: string)
    requires forall i | 0 <= i < |lines| :: Sendable(lines[i])
    ensures ParseBlock(Raw(lines) + "\r\n" + rest) == Some((Read(lines), |Raw(lines)| + 2))
  {
    hide ParseBlock, Lower, StripHead, IndexOf, Sendable, RawLine;
    var end := "\r\n" + rest;
    assert Raw(lines) + "\r\n" + rest == Raw(lines) + end;
    if lines == [] {
      assert Raw(lines) + end == end;
      ParseEmptyLine(rest);
    } else {
      var p, others := lines[0], lines[1..];
      assert Raw(others) + "\r\n" + rest == Raw(others) + end;
      ParseRaw(others, rest);
      ParseRawLine(p, Raw(others) + end);
      assert Raw(lines) + end == RawLine(p) + (Raw(others) + end);
    }
  }

  /** Two letters, or other characters, that differ in their case at most. */
  predicate SameLetter(a: char, b: char) {
    || a == b
    || exists k: nat ::
         && k < 26
         && (a == "ABCDEFGHIJKLMNOPQRSTUVWXYZ"[k] || a == "abcdefghijklmnopqrstuvwxyz"[k])
         && (b == "ABCDEFGHIJKLMNOPQRSTUVWXYZ"[k] || b == "abcdefghijklmnopqrstuvwxyz"[k])
  }

  predicate SameWord(a: string, b: string) {
    |a| == |b| && forall i | 0 <= i < |a| :: SameLetter(a[i], b[i])
  }

  lemma {:induction false} SameLetterLowers(a: char, b: char)
    requires SameLetter(a, b)
    ensures LowerChar(a) == LowerChar(b)
  {
    if a != b {
      var k: nat :| k < 26
        && (a == "ABCDEFGHIJKLMNOPQRSTUVWXYZ"[k] || a == "abcdefghijklmnopqrstuvwxyz"[k])
        && (b == "ABCDEFGHIJKLMNOPQRSTUVWXYZ"[k] || b == "abcdefghijklmnopqrstuvwxyz"[k]);
      LowerCharOf(k);
    }
  }

  lemma {:induction false} LowerCharOf(k: nat)
    requires k < 26
    ensures LowerChar("ABCDEFGHIJKLMNOPQRSTUVWXYZ"[k]) == "abcdefghijklmnopqrstuvwxyz"[k]
    ensures LowerChar("abcdefghijklmnopqrstuvwxyz"[k]) == "abcdefghijklmnopqrstuvwxyz"[k]
  {
  }

  lemma {:induction false} SameWordLowers(a: string, b: string)
    requires SameWord(a, b)
    ensures Lower(a) == Lower(b)
  {
    hide LowerChar, SameLetter;
    forall i | 0 <= i < |a|
      ensures Lower(a)[i] == Lower(b)[i]
    {
      SameLetterLowers(a[i], b[i]);
    }
  }

  /** Blocks that differ in the case of their keys only are read alike (section 4.2 of RFC 2616). */
  lemma {:induction false} KeysAreCaseInsensitive(a: seq<Pair>, b: seq<Pair>, rest: string)
    requires |a| == |b| && forall i | 0 <= i < |a| :: Sendable(a[i]) && Sendable(b[i])
    requires forall i | 0 <= i < |a| :: SameWord(a[i].key, b[i].key) && a[i].value == b[i].value
    ensures ParseBlock(Raw(a) + "\r\n" + rest) == ParseBlock(Raw(b) + "\r\n" + rest)
  {
    hide ParseBlock, Raw, Read, Sendable, SameWord;
    ParseRaw(a, rest);
    ParseRaw(b, rest);
    SameRead(a, b);
  }

  lemma {:induction false} SameRead(a: seq<Pair>, b: seq<Pair>)
    requires |a| == |b|
    requires forall i | 0 <= i < |a| :: SameWord(a[i].key, b[i].key) && a[i].value == b[i].value
    ensures Read(a) == Read(b) && |Raw(a)| == |Raw(b)|
  {
    hide SameWord, Lower, StripHead;
    assert |a| > 0 ==> |RawLine(a[0])| == |a[0].key| + |a[0].value| + 3;
    assert |b| > 0 ==> |RawLine(b[0])| == |b[0].key| + |b[0].value| + 3;
    if a != [] {
      SameWordSize(a[0].key, b[0].key);
      SameWordLowers(a[0].key, b[0].key);
      SameRead(a[1..], b[1..]);
    }
  }

  lemma {:induction false} SameWordSize(a: string, b: string)
    requires SameWord(a, b)
    ensures |a| == |b|
  {
  }

  /** No key that is read has a capital. */
  lemma {:induction false} KeysAreSmall(text: string)
    requires ParseBlock(text).Some?
    ensures forall i | 0 <= i < |ParseBlock(text).value.0| :: NoCapital(ParseBlock(text).value.0[i].key)
    decreases |text|
  {
    hide IndexOf, Lower, StripHead;
    if text != "" && IndexOf(text, CRLF) != Some(0) {
      var n, c := IndexOf(text, CRLF).value, IndexOf(text, ":").value;
      KeysAreSmall(text[n + 2..]);
      LowerIs(text[..n][..c]);
    }
  }

  lemma {:induction false} ParseEmptyLine(rest: string)
    ensures ParseBlock(CRLF + rest) == Some(([], 2))
  {
    assert (CRLF + rest)[0..2] == CRLF;
    IndexIs(CRLF + rest, CRLF, 0);
  }

  lemma {:induction false} PrintFirst(headers: seq<Pair>, end: string)
    requires headers != []
    ensures Print(headers) + end == Line(headers[0]) + (Print(headers[1..]) + end)
    ensures |Print(headers)| == |Line(headers[0])| + |Print(headers[1..])|
  {
    assert (Line(headers[0]) + Print(headers[1..])) + end == Line(headers[0]) + (Print(headers[1..]) + end);
  }

  /** Parsing undoes printing, and consumes exactly what was printed and the empty line. */
  lemma {:induction false} ParsePrint(headers: seq<Pair>, rest: string)
    requires forall i | 0 <= i < |headers| :: Printable(headers[i])
    ensures ParseBlock(Print(headers) + CRLF + rest) == Some((headers, |Print(headers)| + 2))
  {
    hide Line, ParseBlock, Printable;
    var end := CRLF + rest;
    assert Print(headers) + CRLF + rest == Print(headers) + end;
    if headers == [] {
      ParseEmptyLine(rest);
      assert Print(headers) + end == end;
    } else {
      var others := headers[1..];
      ParsePrint(others, rest);
      assert Print(others) + CRLF + rest == Print(others) + end;
      PrintFirst(headers, end);
      ParseLine(headers[0], Print(others) + end);
      assert headers == [headers[0]] + others;
    }
  }

  // ----- The parser -----

  /** Converts a C string in place. */
  method ToLowerCase(buf: array<char>, start: nat, ghost word: string)
    requires start <= buf.Length && IsCString(buf[start..], word)
    modifies buf
    ensures buf[start..start + |word|] == Lower(word) && Lowered(word, buf[start..start + |word|])
    ensures buf[..start] == old(buf[..start]) && buf[start + |word|..] == old(buf[start + |word|..])
  {
    hide Lowered;
    LowerIs(word);
    ghost var was := buf[..];
    assert was[start..] == buf[start..];
    var i := start;
    CharAt(was[start..], word, 0);
    while buf[i] != '\0'
      invariant start <= i <= start + |word| && (buf[i] == '\0' <==> i == start + |word|)
      invariant buf[start..i] == Lower(word)[..i - start] && buf[..start] == was[..start] && buf[i..] == was[i..]
      decreases start + |word| - i
    {
      CharAt(was[start..], word, i - start);
      CharAt(was[start..], word, i + 1 - start);
      SameTail(buf[..], was, i);
      buf[i] := LowerChar(buf[i]);
      assert buf[i + 1..] == was[i + 1..];
      i := i + 1;
    }
  }

  lemma {:induction false} SameTail(a: string, b: string, i: nat)
    requires i < |a| == |b| && a[i..] == b[i..]
    ensures a[i] == b[i] && a[i + 1..] == b[i + 1..]
  {
    assert a[i..][0] == b[i..][0] && a[i..][1..] == b[i..][1..];
  }

  /** Moves the start of a view past its leading spaces; the view ends at a NUL. */
  method StripHeadSpaces(buf: array<char>, start: nat, end: nat) returns (begin: nat)
    requires start <= end < buf.Length && buf[end] == '\0'
    ensures start <= begin <= end && buf[begin..end] == StripHead(buf[start..end])
    ensures forall k | start <= k < begin :: buf[k] as int in {9, 10, 11, 12, 13, 32}
    ensures begin < end ==> buf[begin] as int !in {9, 10, 11, 12, 13, 32}
  {
    begin := start;
    while IsSpace(buf[begin]) && begin != end
      invariant start <= begin <= end && StripHead(buf[begin..end]) == StripHead(buf[start..end])
      invariant forall k | start <= k < begin :: buf[k] as int in {9, 10, 11, 12, 13, 32}
    {
      assert buf[begin..end][1..] == buf[begin + 1..end];
      begin := begin + 1;
    }
  }

  /** Reads the line at `pos`, writing over its colon and its line end, and hangs its pair at the end of the list. */
  method TakeLine(buf: array<char>, pos: nat, ghost rest: string, size: nat, h: Ring<Pair>)
    requires pos <= buf.Length && IsCString(buf[pos..], rest) && Ascii(rest)
    requires rest != "" && IndexOf(rest, CRLF) == Some(size) && size > 0 && ParseBlock(rest).Some?
    requires h.Valid()
    modifies buf, h, h.head, h.nodes
    ensures h.Valid() && forall i | 0 <= i < |h.nodes| :: h.nodes[i] in old(h.nodes) || fresh(h.nodes[i])
    ensures size + 2 <= |rest| && pos + size + 2 <= buf.Length
    ensures IsCString(buf[pos + size + 2..], rest[size + 2..]) && ParseBlock(rest[size + 2..]).Some?
    ensures ParseBlock(rest).value.0 != [] && h.Entries() == old(h.Entries()) + [ParseBlock(rest).value.0[0]]
    ensures ParseBlock(rest).value.0[1..] == ParseBlock(rest[size + 2..]).value.0
    ensures ParseBlock(rest).value.1 == size + 2 + ParseBlock(rest[size + 2..]).value.1
  {
    IndexFromIsLeftmost(rest, ":", 0);
    var len := StrLen(buf, pos, rest);
    assert buf[pos..pos + len] == rest;
    var separator := FindFirstOf(buf[pos..pos + len], ":");
    var colon := separator.value;
    var pair := CutLine(buf, pos, rest, colon, size);
    HeaderInsert(h, pair);
  }

  /** Ends the key with a NUL in place of the colon, and converts it to lower case. */
  method CutKey(buf: array<char>, start: nat, end: nat)
    requires start <= end < buf.Length && '\0' !in buf[start..end]
    modifies buf
    ensures buf[start..end] == Lower(old(buf[start..end])) && buf[end + 1..] == old(buf[end + 1..])
  {
    ghost var key := buf[start..end];
    buf[end] := '\0';
    assert buf[start..][..|key|] == key;
    ToLowerCase(buf, start, key);
    assert buf[end..][1..] == buf[end + 1..];
  }

  /** Ends the value with a NUL in place of the line end, and finds where it starts. */
  method CutValue(buf: array<char>, start: nat, end: nat) returns (begin: nat)
    requires start <= end < buf.Length
    modifies buf
    ensures buf[..end] == old(buf[..end]) && buf[end + 1..] == old(buf[end + 1..])
    ensures start <= begin <= end && buf[begin..end] == StripHead(old(buf[start..end]))
  {
    buf[end] := '\0';
    begin := StripHeadSpaces(buf, start, end);
  }

  /** Cuts key and value out of a line, in place. */
  method CutLine(buf: array<char>, pos: nat, ghost rest: string, colon: nat, size: nat) returns (pair: Pair)
    requires pos <= buf.Length && IsCString(buf[pos..], rest) && colon < size && size + 2 <= |rest|
    modifies buf
    ensures pair == LinePair(rest[..size], colon)
    ensures pos + size + 2 <= buf.Length && IsCString(buf[pos + size + 2..], rest[size + 2..])
  {
    hide Lower, StripHead;
    LineParts(buf[..], pos, rest, colon, size);
    var keyEnd, valueEnd := pos + colon, pos + size;
    ghost var after := buf[keyEnd + 1..];
    CutKey(buf, pos, keyEnd);
    var key := buf[pos..keyEnd];
    assert after[..size - colon - 1] == buf[keyEnd + 1..valueEnd];
    ghost var last := buf[valueEnd + 1..];
    assert last == after[size - colon..];
    var begin := CutValue(buf, keyEnd + 1, valueEnd);
    pair := Pair(key, buf[begin..valueEnd]);
    assert buf[valueEnd + 1..][1..] == buf[valueEnd + 2..];
    assert last[1..] == after[size - colon + 1..];
  }

  /** The parts of a line in the buffer. */
  lemma {:induction false} LineParts(buf: seq<char>, pos: nat, rest: string, colon: nat, size: nat)
    requires pos <= |buf| && IsCString(buf[pos..], rest) && colon < size && size + 2 <= |rest|
    ensures pos + size + 2 <= |buf|
    ensures '\0' !in buf[pos..pos + colon] && buf[pos..pos + colon] == rest[..size][..colon]
    ensures buf[pos + colon + 1..][..size - colon - 1] == rest[..size][colon + 1..]
    ensures IsCString(buf[pos + colon + 1..][size - colon + 1..], rest[size + 2..])
  {
    assert buf[pos..][..|rest|] == rest;
    assert buf[pos..pos + |rest|] == rest;
    assert buf[pos..pos + colon] == rest[..colon];
    assert rest[..size][..colon] == rest[..colon];
    assert buf[pos + colon + 1..][..size - colon - 1] == buf[pos..pos + |rest|][colon + 1..size];
    assert rest[..size][colon + 1..] == rest[colon + 1..size];
    var tail := buf[pos + colon + 1..][size - colon + 1..];
    assert tail == buf[pos + size + 2..];
    assert tail[..|rest| - size - 2] == rest[size + 2..];
    assert tail[|rest| - size - 2] == buf[pos..][|rest|];
  }

  /** `done` has been read in `consumed` characters, and `rest` is left. */
  ghost predicate Progress(text: string, rest: string, done: seq<Pair>, consumed: int) {
    && ParseBlock(text).Some? && ParseBlock(rest).Some?
    && ParseBlock(text).value.0 == done + ParseBlock(rest).value.0
    && ParseBlock(text).value.1 == consumed + ParseBlock(rest).value.1
  }

  lemma {:induction false} ProgressStart(text: string)
    requires ParseBlock(text).Some?
    ensures Progress(text, text, [], 0)
  {
  }

  lemma {:induction false} ProgressStep(text: string, rest: string, done: seq<Pair>, consumed: int,
                                        next: string, n: nat)
    requires Progress(text, rest, done, consumed) && ParseBlock(next).Some? && ParseBlock(rest).value.0 != []
    requires ParseBlock(rest).value.0[1..] == ParseBlock(next).value.0
    requires ParseBlock(rest).value.1 == n + ParseBlock(next).value.1
    ensures Progress(text, next, done + [ParseBlock(rest).value.0[0]], consumed + n)
  {
    hide ParseBlock;
    var block := ParseBlock(rest).value.0;
    assert done + block == done + [block[0]] + block[1..];
  }

  lemma {:induction false} ProgressEnds(text: string, rest: string, done: seq<Pair>, consumed: int)
    requires Progress(text, rest, done, consumed) && (rest == "" || IndexOf(rest, CRLF) == Some(0))
    ensures ParseBlock(text).value == (done, consumed + 2)
  {
    assert done + [] == done;
  }

  /** Finds the end of the line at `pos`, and takes its pair unless the line is empty. */
  method ReadLine(buf: array<char>, pos: nat, ghost rest: string, h: Ring<Pair>) returns (size: nat)
    requires pos <= buf.Length && IsCString(buf[pos..], rest) && Ascii(rest)
    requires rest != "" && ParseBlock(rest).Some? && h.Valid()
    modifies buf, h, h.head, h.nodes
    ensures IndexOf(rest, CRLF) == Some(size)
    ensures h.Valid() && forall i | 0 <= i < |h.nodes| :: h.nodes[i] in old(h.nodes) || fresh(h.nodes[i])
    ensures size == 0 ==> h.Entries() == old(h.Entries())
    ensures size > 0 ==>
      && size + 2 <= |rest| && pos + size + 2 <= buf.Length
      && IsCString(buf[pos + size + 2..], rest[size + 2..]) && ParseBlock(rest[size + 2..]).Some?
      && ParseBlock(rest).value.0 != [] && h.Entries() == old(h.Entries()) + [ParseBlock(rest).value.0[0]]
      && ParseBlock(rest).value.0[1..] == ParseBlock(rest[size + 2..]).value.0
      && ParseBlock(rest).value.1 == size + 2 + ParseBlock(rest[size + 2..]).value.1
  {
    hide ParseBlock, IndexOf, EntriesOf, Ascii;
    LineSize(rest);
    var len := StrLen(buf, pos, rest);
    assert buf[pos..pos + len] == rest;
    size := ViewSize(buf[pos..pos + len], CRLF);
    if size != 0 {
      TakeLine(buf, pos, rest, size, h);
    }
  }

  /** Reads header lines up to the empty line; the offset moves past everything that was read. */
  method HeaderParser(buf: array<char>, base: nat, offset: nat, ghost text: string)
    returns (h: Ring<Pair>, newOffset: nat)
    requires base <= buf.Length && IsCString(buf[base..], text) && Ascii(text) && ParseBlock(text).Some?
    modifies buf
    ensures h.Valid() && h.Entries() == ParseBlock(text).value.0
    ensures forall i | 0 <= i < |h.Entries()| :: NoCapital(h.Entries()[i].key)
    ensures newOffset == offset + ParseBlock(text).value.1
  {
    hide ParseBlock, EntriesOf, Progress, IndexOf, NoCapital;
    KeysAreSmall(text);
    h := new Ring<Pair>();
    var pos := base;
    ghost var rest, done := text, [];
    CharAt(buf[pos..], rest, 0);
    NoEntries();
    ProgressStart(text);
    while buf[pos] != '\0'
      invariant base <= pos <= buf.Length && IsCString(buf[pos..], rest) && Ascii(rest) && ParseBlock(rest).Some?
      invariant buf[pos] == '\0' <==> rest == ""
      invariant h.Valid() && fresh(h) && fresh(h.head) && forall i | 0 <= i < |h.nodes| :: fresh(h.nodes[i])
      invariant h.Entries() == done && Progress(text, rest, done, pos - base)
      decreases |rest|
    {
      var size := ReadLine(buf, pos, rest, h);
      if size == 0 {
        break;
      }
      ProgressStep(text, rest, done, pos - base, rest[size + 2..], size + 2);
      done := done + [ParseBlock(rest).value.0[0]];
      rest := rest[size + 2..];
      pos := pos + size + 2;
      CharAt(buf[pos..], rest, 0);
    }
    ProgressEnds(text, rest, done, pos - base);
    newOffset := offset + pos + 2 - base;
  }

  lemma {:induction false} NoEntries()
    ensures EntriesOf<Pair>([]) == []
  {
  }

  lemma {:induction false} LineSize(rest: string)
    requires rest != "" && ParseBlock(rest).Some?
    ensures IndexOf(rest, CRLF).Some?
  {
  }

  /** header_insert: a copy of the pair goes to the end of the list. */
  method HeaderInsert(h: Ring<Pair>, p: Pair)
    requires h.Valid()
    modifies h, h.head, h.nodes
    ensures h.Valid() && h.Entries() == old(h.Entries()) + [p]
    ensures forall i | 0 <= i < |h.nodes| :: h.nodes[i] in old(h.nodes) || fresh(h.nodes[i])
  {
    var newNode := new Node(Some(p));
    h.InsertTail(newNode);
  }

  // ----- The printer -----

  /** The size of the buffer once `needed` characters have been asked of it: it is doubled, but only once. */
  function Fitted(size: nat, needed: nat): nat {
    if needed > size then 2 * size else size
  }

  /** One doubling makes room for an entry and its NUL if and only if they end before twice the old size. */
  lemma {:induction false} OneDoublingSufficesExactlyWhen(size: nat, index: nat, p: Pair)
    ensures index + |Line(p)| + 1 <= Fitted(size, index + |Line(p)| + 1) <==> index + |Line(p)| < 2 * size
  {
    hide Line;
  }

  /** The size of the buffer after `i` entries. */
  ghost function SizeAfter(s: seq<Pair>, i: nat, size: nat): nat
    requires i <= |s|
  {
    if i == 0 then size else Fitted(SizeAfter(s, i - 1, size), |Print(s[..i])| + 1)
  }

  /** Each entry fits, with one doubling for itself at most. */
  ghost predicate EntriesFit(s: seq<Pair>, size: nat) {
    forall i | 0 <= i < |s| :: |Print(s[..i + 1])| < 2 * SizeAfter(s, i, size)
  }

  /** Entries of at most 2048 bytes with their NUL always do. */
  lemma {:induction false} ShortEntriesFit(s: seq<Pair>, size: nat)
    requires size >= 2048 && forall i | 0 <= i < |s| :: |Line(s[i])| < 2048
    ensures EntriesFit(s, size)
  {
    hide Line, Print;
    forall i | 0 <= i < |s|
      ensures |Print(s[..i + 1])| < 2 * SizeAfter(s, i, size)
    {
      ShortEntriesFitUpTo(s, i, size);
      PrintGrows(s, i);
    }
  }

  lemma {:induction false} ShortEntriesFitUpTo(s: seq<Pair>, i: nat, size: nat)
    requires i <= |s| && size >= 2048 && forall k | 0 <= k < |s| :: |Line(s[k])| < 2048
    ensures |Print(s[..i])| < SizeAfter(s, i, size) && SizeAfter(s, i, size) >= 2048
  {
    hide Line, Print;
    if i == 0 {
      NothingPrinted(s);
    } else {
      ShortEntriesFitUpTo(s, i - 1, size);
      PrintGrows(s, i - 1);
    }
  }

  /** An entry of two buffer sizes does not fit. */
  lemma {:induction false} LongEntryDoesNotFit(p: Pair, size: nat)
    requires |Line(p)| >= 2 * size
    ensures !EntriesFit([p], size)
  {
    hide Line, Print;
    NothingPrinted([p]);
    PrintGrows([p], 0);
    assert SizeAfter([p], 0, size) == size;
  }

  /** The buffer size that header_to_string starts from; it never shrinks again. */
  class Printer {
    var respSize: nat

    constructor ()
      ensures respSize == 2048
    {
      respSize := 2048;
    }

    /** Prints one entry at `index`, into a buffer of twice the size if it does not fit. */
    method AppendEntry(buf: array<char>, index: nat, p: Pair) returns (sbuf: array<char>)
      requires buf.Length == respSize && index < respSize < 0x8000_0000 && index + |Line(p)| < 2 * respSize
      modifies this, buf
      ensures (sbuf == buf || fresh(sbuf)) && sbuf.Length == respSize
      ensures respSize == Fitted(old(respSize), index + |Line(p)| + 1) && index + |Line(p)| < respSize
      ensures sbuf[..index + |Line(p)|] == old(buf[..index]) + Line(p) && sbuf[index + |Line(p)|] == '\0'
    {
      sbuf := buf;
      var entryLen := |p.key| + |p.value| + 5;
      if entryLen + index > respSize {
        respSize := respSize * 2 % 0x1_0000_0000;
        sbuf := Grow(buf, respSize);
        assert sbuf[..index] == sbuf[..buf.Length][..index];
      }
      PutEntry(sbuf, index, p);
    }

    /** Prints all entries into one buffer. Doubling it once for an entry is always enough. */
    method HeaderToString(h: Ring<Pair>) returns (sbuf: Option<array<char>>)
      requires h.Valid() && 0 < respSize < 0x8000_0000 && EntriesFit(h.Entries(), respSize)
      requires |Print(h.Entries())| < 0x4000_0000
      modifies this
      ensures sbuf.None? <==> h.Entries() == []
      ensures sbuf.Some? ==>
        && fresh(sbuf.value) && sbuf.value.Length == respSize
        && |Print(h.Entries())| < respSize
        && sbuf.value[..|Print(h.Entries())|] == Print(h.Entries()) && sbuf.value[|Print(h.Entries())|] == '\0'
      ensures respSize == SizeAfter(h.Entries(), |h.Entries()|, old(respSize))
      ensures respSize == old(respSize) || respSize <= 2 * |Print(h.Entries())|
    {
      hide Print, Line, EntriesOf, h.Valid;
      h.Walk(0);
      if h.head.next == h.head {
        return None;
      }
      var buf := new char[respSize](_ => '\0');
      var index := 0;
      var cur := h.head.next;
      ghost var s, i := h.Entries(), 0;
      NothingPrinted(s);
      while cur != h.head
        invariant h.Valid() && h.Entries() == s && i <= |s| && cur == if i < |s| then h.nodes[i] else h.head
        invariant fresh(buf) && buf.Length == respSize && 0 < respSize < 0x8000_0000
        invariant respSize == SizeAfter(s, i, old(respSize))
        invariant index == |Print(s[..i])| < respSize && buf[..index] == Print(s[..i]) && buf[index] == '\0'
        invariant respSize == old(respSize) || respSize <= 2 * index
        decreases |s| - i
      {
        PrintGrows(s, i);
        h.Walk(i);
        var p := cur.entry.value;
        assert p == s[i];
        LineLength(p);
        buf := AppendEntry(buf, index, p);
        index := index + (|p.key| + |p.value| + 5) - 1;
        cur := cur.next;
        i := i + 1;
      }
      h.Walk(i);
      assert s[..|s|] == s;
      sbuf := Some(buf);
    }
  }

  lemma {:induction false} NothingPrinted(s: seq<Pair>)
    ensures Print(s[..0]) == ""
  {
  }

  lemma {:induction false} LineLength(p: Pair)
    ensures |Line(p)| == |p.key| + |p.value| + 4
  {
  }

  /** realloc: a larger buffer with the same beginning. */
  method Grow(buf: array<char>, size: nat) returns (grown: array<char>)
    requires size >= buf.Length
    ensures fresh(grown) && grown.Length == size && grown[..buf.Length] == buf[..]
  {
    grown := new char[size](k requires 0 <= k < size reads buf => if k < buf.Length then buf[k] else '\0');
  }

  /** Prints one entry and its NUL at `index`. */
  method PutEntry(dst: array<char>, index: nat, p: Pair)
    requires index + |Line(p)| < dst.Length
    modifies dst
    ensures dst[..index + |Line(p)|] == old(dst[..index]) + Line(p) && dst[index + |Line(p)|] == '\0'
  {
    var line := Line(p);
    for k := 0 to |line|
      invariant dst[..index + k] == old(dst[..index]) + line[..k]
    {
      dst[index + k] := line[k];
    }
    dst[index + |line|] := '\0';
  }

  lemma {:induction false} PrintGrows(s: seq<Pair>, i: nat)
    requires i < |s|
    ensures Print(s[..i + 1]) == Print(s[..i]) + Line(s[i])
    ensures |Print(s[..i + 1])| <= |Print(s)|
  {
    if i == 0 {
      assert s[..1] == [s[0]] && s[..0] == [];
      assert Print(s[..1]) == Line(s[0]) + Print(s[..1][1..]);
    } else {
      PrintGrows(s[1..], i - 1);
      assert s[1..][..i] == s[..i + 1][1..] && s[1..][..i - 1] == s[..i][1..];
    }
  }

  // ----- There and back -----

  lemma {:induction false} PrintIsAscii(headers: seq<Pair>)
    requires forall i | 0 <= i < |headers| :: Printable(headers[i])
    ensures Ascii(Print(headers))
  {
    if headers != [] {
      PrintIsAscii(headers[1..]);
      assert Printable(headers[0]);
    }
  }

  lemma {:induction false} AsciiHasNoNul(s: string)
    requires Ascii(s)
    ensures '\0' !in s
  {
  }

  lemma {:induction false} AsciiBlock(printed: string, rest: string)
    requires Ascii(printed) && Ascii(rest)
    ensures Ascii(printed + CRLF + rest)
  {
  }

  /** Prints a list of headers, appends the empty line and a body, and parses the whole: the list comes back, and the
      offset points to the body. */
  method PrintThenParse(printer: Printer, h: Ring<Pair>, body: string) returns (parsed: Ring<Pair>, offset: nat)
    requires h.Valid() && h.Entries() != [] && Ascii(body)
    requires forall i | 0 <= i < |h.Entries()| :: Printable(h.Entries()[i])
    requires EntriesFit(h.Entries(), printer.respSize)
    requires 0 < printer.respSize < 0x8000_0000 && |Print(h.Entries())| < 0x4000_0000
    modifies printer
    ensures parsed.Valid() && parsed.Entries() == old(h.Entries())
    ensures offset == |Print(old(h.Entries()))| + 2
  {
    hide Print, Line, Printable, Ascii, ParseBlock, EntriesOf, EntriesFit;
    ghost var headers := h.Entries();
    ghost var printed := Print(headers);
    PrintIsAscii(headers);
    AsciiHasNoNul(printed);
    AsciiBlock(printed, body);
    AsciiHasNoNul(printed + CRLF + body);
    ParsePrint(headers, body);
    var sbuf := printer.HeaderToString(h);
    assert sbuf.value[0..] == sbuf.value[..];
    var len := StrLen(sbuf.value, 0, printed);
    var text := sbuf.value[..len] + CRLF + body;
    var buf := new char[|text| + 1](i requires 0 <= i <= |text| => if i < |text| then text[i] else '\0');
    assert buf[0..][..|text|] == text;
    parsed, offset := HeaderParser(buf, 0, 0, text);
  }
}
