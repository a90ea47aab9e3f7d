/** The text pipeline of a post: HTML escaping, then line breaks (src/utility.c). */
module Html {
  import opened BasicStrings
  import opened CStrings

  // ----- What the two passes should produce -----

  const ESCAPE_KEY := "\"'&<>"
  const ESCAPE_MAP := ["&#34;", "&#39;", "&#38;", "&#60;", "&#62;"]

  function EscapeOf(c: char): (e: string) {
    if c == '"' then "&#34;"
    else if c == '\'' then "&#39;"
    else if c == '&' then "&#38;"
    else if c == '<' then "&#60;"
    else if c == '>' then "&#62;"
    else [c]
  }

  // ----- What an entity stands for -----

  /** A number as it is printed. */
  function Decimal(n: nat): string {
    if n < 10 then ["0123456789"[n]] else Decimal(n / 10) + ["0123456789"[n % 10]]
  }

  predicate IsDigit(c: char) {
    '0' <= c <= '9'
  }

  /** The number that digits denote. */
  function Denoted(digits: string): nat
    requires forall i | 0 <= i < |digits| :: IsDigit(digits[i])
  {
    if digits == "" then 0
    else
      assert IsDigit(digits[|digits| - 1]);
      Denoted(digits[..|digits| - 1]) * 10 + (digits[|digits| - 1] as int - '0' as int)
  }

  lemma {:induction false} PrintedDigit(d: nat)
    requires d < 10
    ensures IsDigit("0123456789"[d]) && "0123456789"[d] as int - '0' as int == d
  {
  }

  lemma {:induction false} DecimalDenotes(n: nat)
    ensures forall i | 0 <= i < |Decimal(n)| :: IsDigit(Decimal(n)[i])
    ensures Denoted(Decimal(n)) == n
  {
    hide IsDigit;
    PrintedDigit(n % 10);
    if n >= 10 {
      DecimalDenotes(n / 10);
      assert Decimal(n)[..|Decimal(n)| - 1] == Decimal(n / 10);
    } else {
      assert Decimal(n)[..0] == "";
    }
  }

  /** Exactly five characters are escaped, each as the numeric reference of its code. */
  lemma {:induction false} EntityIsNumeric(c: char)
    ensures EscapeOf(c) == if c in "\"'&<>" then "&#" + Decimal(c as int) + ";" else [c]
  {
    TwoDigits(3, 4);
    TwoDigits(3, 9);
    TwoDigits(3, 8);
    TwoDigits(6, 0);
    TwoDigits(6, 2);
  }

  lemma {:induction false} TwoDigits(tens: nat, ones: nat)
    requires 0 < tens < 10 && ones < 10
    ensures Decimal(10 * tens + ones) == ["0123456789"[tens], "0123456789"[ones]]
  {
    assert (10 * tens + ones) / 10 == tens && (10 * tens + ones) % 10 == ones;
  }

  // ----- The escaped text -----

  function Escape(s: string): string {
    if s == "" then "" else Escape(s[..|s| - 1]) + EscapeOf(s[|s| - 1])
  }

  function BreakOf(c: char): string {
    if c == '\n' then "<br>" else [c]
  }

  function Breaks(s: string): string {
    if s == "" then "" else Breaks(s[..|s| - 1]) + BreakOf(s[|s| - 1])
  }

  /** A text that starts with NUL counts as empty and is left alone. */
  function NewlineToBr(s: string): string {
    if s == "" || s[0] == '\0' then s else Breaks(s)
  }

  function CountOf(s: string, c: char): nat {
    if s == "" then 0 else CountOf(s[..|s| - 1], c) + if s[|s| - 1] == c then 1 else 0
  }

  function Specials(s: string): nat {
    CountOf(s, '"') + CountOf(s, '\'') + CountOf(s, '&') + CountOf(s, '<') + CountOf(s, '>')
  }

  lemma {:induction false} EscapedSize(s: string)
    ensures |Escape(s)| == |s| + 4 * Specials(s)
  {
    if s != "" { EscapedSize(s[..|s| - 1]); }
  }

  lemma {:induction false} NothingToEscape(s: string)
    requires Specials(s) == 0
    ensures Escape(s) == s
  {
    if s != "" {
      NothingToEscape(s[..|s| - 1]);
      assert s == s[..|s| - 1] + [s[|s| - 1]];
    }
  }

  lemma {:induction false} BrokenSize(s: string)
    ensures |Breaks(s)| == |s| + 3 * CountOf(s, '\n')
  {
    if s != "" { BrokenSize(s[..|s| - 1]); }
  }

  lemma {:induction false} NothingToBreak(s: string)
    requires CountOf(s, '\n') == 0
    ensures Breaks(s) == s
  {
    if s != "" {
      NothingToBreak(s[..|s| - 1]);
      assert s == s[..|s| - 1] + [s[|s| - 1]];
    }
  }

  // ----- The passes -----

  /** How often each of the five characters occurs. */
  method CountSpecials(data: array<char>, size: nat) returns (counter: array<int>)
    requires size <= data.Length
    ensures fresh(counter) && counter.Length == 5
    ensures forall j | 0 <= j < 5 :: counter[j] == CountOf(data[..size], ESCAPE_KEY[j])
  {
    counter := new int[5](_ => 0);
    for i := 0 to size
      invariant forall j | 0 <= j < 5 :: counter[j] == CountOf(data[..i], ESCAPE_KEY[j])
    {
      assert data[..i + 1][..i] == data[..i];
      for j := 0 to 5
        invariant forall k | 0 <= k < 5 ::
          counter[k] == CountOf(if k < j then data[..i + 1] else data[..i], ESCAPE_KEY[k])
      {
        if data[i] == ESCAPE_KEY[j] {
          counter[j] := counter[j] + 1;
        }
      }
    }
  }

  /** Writes one character, or its entity, at the end of what has been written. */
  method PutEscaped(buf: array<char>, o: nat, c: char) returns (end: nat)
    requires o + |EscapeOf(c)| <= buf.Length
    modifies buf
    ensures end == o + |EscapeOf(c)| && buf[..end] == old(buf[..o]) + EscapeOf(c)
  {
    for j := 0 to 5
      invariant buf[..] == old(buf[..])
      invariant forall k | 0 <= k < j :: c != ESCAPE_KEY[k]
    {
      if c == ESCAPE_KEY[j] {
        var e := ESCAPE_MAP[j];
        assert EscapeOf(c) == e;
        buf[o], buf[o + 1], buf[o + 2], buf[o + 3], buf[o + 4] := e[0], e[1], e[2], e[3], e[4];
        end := o + 5;
        return;
      }
    }
    assert c != ESCAPE_KEY[0] && c != ESCAPE_KEY[1] && c != ESCAPE_KEY[2] && c != ESCAPE_KEY[3] && c != ESCAPE_KEY[4];
    buf[o] := c;
    end := o + 1;
  }

  lemma {:induction false} EscapePrefix(s: string, i: nat)
    requires i < |s|
    ensures Escape(s[..i + 1]) == Escape(s[..i]) + EscapeOf(s[i])
    ensures |Escape(s[..i + 1])| <= |Escape(s)|
  {
    assert s[..i + 1][..i] == s[..i];
    EscapeGrows(s, i + 1);
  }

  lemma {:induction false} EscapeGrows(s: string, i: nat)
    requires i <= |s|
    ensures |Escape(s[..i])| <= |Escape(s)|
  {
    if i < |s| {
      EscapeGrows(s[..|s| - 1], i);
      assert s[..|s| - 1][..i] == s[..i];
    } else {
      assert s[..i] == s;
    }
  }

  /** The new buffer is filled exactly. */
  method HtmlEscape(str: BasicString)
    requires str.Valid()
    modifies str
    ensures str.Valid() && str.Text() == Escape(old(str.Text()))
    ensures str.data == old(str.data) || fresh(str.data)
  {
    ghost var text := str.Text();
    EscapedSize(text);
    var counter := CountSpecials(str.data, str.size);
    var newSize := str.size;
    newSize := newSize + 4 * counter[0] + 4 * counter[1] + 4 * counter[2] + 4 * counter[3] + 4 * counter[4];
    if newSize == str.size {
      NothingToEscape(text);
      return;
    }
    var buf := new char[newSize + 1](_ => '\0');
    var o := 0;
    for i := 0 to str.size
      invariant str.Valid() && str.Text() == text && unchanged(str)
      invariant o == |Escape(text[..i])| <= newSize && buf[..o] == Escape(text[..i])
    {
      EscapePrefix(text, i);
      o := PutEscaped(buf, o, str.data[i]);
    }
    assert text[..|text|] == text;
    str.data := buf;
    str.size := newSize;
    str.data[newSize] := '\0';
  }

  lemma {:induction false} BreakPrefix(s: string, i: nat)
    requires i < |s|
    ensures Breaks(s[..i + 1]) == Breaks(s[..i]) + BreakOf(s[i])
    ensures |Breaks(s[..i + 1])| <= |Breaks(s)|
  {
    assert s[..i + 1][..i] == s[..i];
    BreakGrows(s, i + 1);
  }

  lemma {:induction false} BreakGrows(s: string, i: nat)
    requires i <= |s|
    ensures |Breaks(s[..i])| <= |Breaks(s)|
  {
    if i < |s| {
      BreakGrows(s[..|s| - 1], i);
      assert s[..|s| - 1][..i] == s[..i];
    } else {
      assert s[..i] == s;
    }
  }

  method PutBroken(buf: array<char>, o: nat, c: char) returns (end: nat)
    requires o + |BreakOf(c)| <= buf.Length
    modifies buf
    ensures end == o + |BreakOf(c)| && buf[..end] == old(buf[..o]) + BreakOf(c)
  {
    if c == '\n' {
      buf[o], buf[o + 1], buf[o + 2], buf[o + 3] := '<', 'b', 'r', '>';
      end := o + 4;
    } else {
      buf[o] := c;
      end := o + 1;
    }
  }

  method InsertBreaks(str: BasicString)
    requires str.Valid()
    modifies str
    ensures str.Valid() && str.Text() == NewlineToBr(old(str.Text()))
    ensures str.data == old(str.data) || fresh(str.data)
  {
    ghost var text := str.Text();
    if str.data[0] == '\0' {
      return;
    }
    var counter := 0;
    for i := 0 to str.size
      invariant counter == CountOf(text[..i], '\n')
    {
      assert text[..i + 1][..i] == text[..i];
      if str.data[i] == '\n' {
        counter := counter + 1;
      }
    }
    assert text[..|text|] == text;
    BrokenSize(text);
    if counter == 0 {
      NothingToBreak(text);
      return;
    }
    var buf := new char[str.size + counter * 3 + 1](_ => '\0');
    var o := 0;
    for i := 0 to str.size
      invariant str.Valid() && str.Text() == text && unchanged(str)
      invariant o == |Breaks(text[..i])| <= |Breaks(text)| && buf[..o] == Breaks(text[..i])
    {
      BreakPrefix(text, i);
      o := PutBroken(buf, o, str.data[i]);
    }
    str.data := buf;
    str.size := str.size + counter * 3;
    str.data[str.size] := '\0';
  }

  // ----- What the result may contain, and that nothing is lost -----

  /** How a post is shown: escaped when it is stored, its line breaks inserted when it is rendered. */
  function Shown(text: string): string {
    NewlineToBr(Escape(text))
  }

  predicate Plain(c: char) {
    c != '"' && c != '\'' && c != '&' && c != '<' && c != '>'
  }

  /** A numeric reference of two digits. */
  predicate StartsWithEntity(p: string) {
    |p| >= 5 && p[0] == '&' && p[1] == '#' && IsDigit(p[2]) && IsDigit(p[3]) && p[4] == ';'
  }

  /** The character whose code the digits denote. */
  function CharOf(p: string): char
    requires StartsWithEntity(p)
  {
    DenotedTwo(p[2], p[3]);
    Denoted([p[2], p[3]]) as char
  }

  lemma {:induction false} DenotedTwo(a: char, b: char)
    requires IsDigit(a) && IsDigit(b)
    ensures Denoted([a, b]) == (a as int - '0' as int) * 10 + (b as int - '0' as int) < 100
  {
    assert [a, b][..1] == [a] && [a][..0] == "";
    assert Denoted([a]) == a as int - '0' as int;
  }

  /** Angle brackets occur only in `<br>`, ampersands only in the five entities, quotes not at all. */
  predicate Safe(p: string) {
    || p == ""
    || (StartsWith(p, "<br>") && Safe(p[4..]))
    || (StartsWithEntity(p) && !Plain(CharOf(p)) && Safe(p[5..]))
    || (Plain(p[0]) && Safe(p[1..]))
  }

  /** What safe text looks like, character by character. */
  lemma {:induction false} SafeAt(p: string, i: nat)
    requires Safe(p) && i < |p|
    ensures p[i] != '"' && p[i] != '\''
    ensures p[i] == '<' ==> StartsWith(p[i..], "<br>")
    ensures p[i] == '>' ==> i >= 3 && StartsWith(p[i - 3..], "<br>")
    ensures p[i] == '&' ==> StartsWithEntity(p[i..]) && CharOf(p[i..]) in "\"'&<>"
    decreases |p|, 1
  {
    hide CharOf;
    if StartsWith(p, "<br>") && Safe(p[4..]) {
      assert p[0] == '<' && p[1] == 'b' && p[2] == 'r' && p[3] == '>' by { assert p[..4] == "<br>"; }
      if i >= 4 { SafeLater(p, 4, i); }
    } else if StartsWithEntity(p) && !Plain(CharOf(p)) && Safe(p[5..]) {
      assert p[0..] == p;
      if i >= 5 { SafeLater(p, 5, i); }
    } else {
      if i >= 1 { SafeLater(p, 1, i); }
    }
  }

  lemma {:induction false} SafeLater(p: string, n: nat, i: nat)
    requires 0 < n <= i < |p| && Safe(p[n..])
    ensures p[i] != '"' && p[i] != '\''
    ensures p[i] == '<' ==> StartsWith(p[i..], "<br>")
    ensures p[i] == '>' ==> i >= 3 && StartsWith(p[i - 3..], "<br>")
    ensures p[i] == '&' ==> StartsWithEntity(p[i..]) && CharOf(p[i..]) in "\"'&<>"
    decreases |p|, 0
  {
    hide CharOf, StartsWith;
    SafeAt(p[n..], i - n);
    assert p[n..][i - n..] == p[i..];
    if i - n >= 3 { assert p[n..][i - n - 3..] == p[i - 3..]; }
  }

  /** Reads the shown text back. */
  function Restore(p: string): string {
    if p == "" then ""
    else if StartsWith(p, "<br>") then "\n" + Restore(p[4..])
    else if StartsWithEntity(p) then [CharOf(p)] + Restore(p[5..])
    else [p[0]] + Restore(p[1..])
  }

  /** One character as it is shown; without breaks for a text that starts with NUL. */
  function Show(c: char, breaks: bool): (e: string)
    ensures |e| >= 1
  {
    if c == '\n' && breaks then "<br>" else EscapeOf(c)
  }

  function ShowAll(s: string, breaks: bool): string {
    if s == "" then "" else Show(s[0], breaks) + ShowAll(s[1..], breaks)
  }

  lemma {:induction false} ShowAllLast(s: string, breaks: bool)
    requires s != ""
    ensures ShowAll(s, breaks) == ShowAll(s[..|s| - 1], breaks) + Show(s[|s| - 1], breaks)
  {
    hide Show;
    if |s| == 1 {
      assert s[1..] == "" && s[..0] == "";
    } else {
      var front := s[..|s| - 1];
      ShowAllLast(s[1..], breaks);
      assert s[1..][..|s| - 2] == front[1..];
      assert ShowAll(front, breaks) == Show(s[0], breaks) + ShowAll(front[1..], breaks);
      assert ShowAll(s, breaks) == Show(s[0], breaks) + ShowAll(s[1..], breaks);
    }
  }

  lemma {:induction false} EscapeShows(s: string)
    ensures Escape(s) == ShowAll(s, false)
  {
    if s != "" {
      EscapeShows(s[..|s| - 1]);
      ShowAllLast(s, false);
    }
  }

  lemma {:induction false} BreaksSnoc(a: string, c: char)
    ensures Breaks(a + [c]) == Breaks(a) + BreakOf(c)
  {
    assert (a + [c])[..|a|] == a;
  }

  lemma {:induction false} BreaksOfNothing()
    ensures Breaks("") == ""
  {
  }

  lemma {:induction false} BreaksAppend(a: string, b: string)
    ensures Breaks(a + b) == Breaks(a) + Breaks(b)
  {
    hide Breaks, BreakOf;
    if b == "" {
      BreaksOfNothing();
      assert a + b == a;
    } else {
      var front, last := b[..|b| - 1], b[|b| - 1];
      BreaksAppend(a, front);
      BreaksSnoc(a + front, last);
      BreaksSnoc(front, last);
      assert front + [last] == b;
      assert a + b == (a + front) + [last];
    }
  }

  lemma {:induction false} BreaksOfOne(c: char)
    ensures Breaks(EscapeOf(c)) == Show(c, true)
  {
    if Plain(c) {
      assert EscapeOf(c) == [c] && [c][..0] == "";
      assert Breaks([c]) == Breaks("") + BreakOf(c);
    } else {
      assert CountOf(EscapeOf(c), '\n') == 0 by { EntitiesHaveNoNewline(c); }
      NothingToBreak(EscapeOf(c));
    }
  }

  lemma {:induction false} EntitiesHaveNoNewline(c: char)
    requires !Plain(c)
    ensures CountOf(EscapeOf(c), '\n') == 0
  {
    var e := EscapeOf(c);
    assert e[..4][..3] == e[..3] && e[..3][..2] == e[..2] && e[..2][..1] == e[..1] && e[..1][..0] == "";
    assert CountOf(e[..1], '\n') == 0;
    assert CountOf(e[..2], '\n') == 0;
    assert CountOf(e[..3], '\n') == 0;
    assert CountOf(e[..4], '\n') == 0;
  }

  lemma {:induction false} BreaksShow(s: string)
    ensures Breaks(Escape(s)) == ShowAll(s, true)
  {
    if s != "" {
      BreaksShow(s[..|s| - 1]);
      BreaksAppend(Escape(s[..|s| - 1]), EscapeOf(s[|s| - 1]));
      BreaksOfOne(s[|s| - 1]);
      ShowAllLast(s, true);
    }
  }

  lemma {:induction false} FirstShown(c: char)
    ensures Show(c, false)[0] == '\0' <==> c == '\0'
  {
  }

  lemma {:induction false} ShownIs(text: string)
    ensures Shown(text) == ShowAll(text, text != "" && text[0] != '\0')
  {
    hide Escape, Breaks, EscapeOf, Show;
    EscapeShows(text);
    BreaksShow(text);
    if text != "" {
      FirstShown(text[0]);
    }
  }

  /** A shown character is one token of the grammar, and reads back as itself. */
  lemma {:induction false} ShowOne(c: char, breaks: bool, rest: string)
    ensures Restore(Show(c, breaks) + rest) == [c] + Restore(rest)
    ensures Safe(rest) ==> Safe(Show(c, breaks) + rest)
  {
    var e, p := Show(c, breaks), Show(c, breaks) + rest;
    assert p[..|e|] == e && p[|e|..] == rest;
    if e == [c] {
      assert p[0] == c && Plain(c);
      FirstOfToken(p);
    } else if e == "<br>" {
    } else {
      EntityDenotes(c);
      assert p[0] == e[0] && p[1] == e[1] && p[2] == e[2] && p[3] == e[3] && p[4] == e[4];
      FirstOfToken(p);
    }
  }

  lemma {:induction false} FirstOfToken(p: string)
    requires p != ""
    ensures StartsWithEntity(p) ==> p[0] == '&'
    ensures StartsWith(p, "<br>") ==> p[0] == '<'
  {
  }

  lemma {:induction false} EntityDenotes(c: char)
    requires !Plain(c)
    ensures |EscapeOf(c)| == 5 && StartsWithEntity(EscapeOf(c)) && CharOf(EscapeOf(c)) == c
  {
    var e := EscapeOf(c);
    DenotedTwo(e[2], e[3]);
  }

  lemma {:induction false} ShowAllSafe(s: string, breaks: bool)
    ensures Restore(ShowAll(s, breaks)) == s && Safe(ShowAll(s, breaks))
  {
    hide Show, StartsWith, StartsWithEntity;
    if s != "" {
      ShowAllSafe(s[1..], breaks);
      ShowOne(s[0], breaks, ShowAll(s[1..], breaks));
      assert s == [s[0]] + s[1..];
    }
  }

  lemma {:induction false} ShowAllNewlines(s: string, breaks: bool)
    ensures '\n' in ShowAll(s, breaks) <==> !breaks && '\n' in s
  {
    if s != "" {
      ShowAllNewlines(s[1..], breaks);
      assert s == [s[0]] + s[1..];
    }
  }

  /** The shown text is safe markup, from which the post can be recovered. */
  lemma {:induction false} ShownIsSafe(text: string)
    ensures Safe(Shown(text)) && Restore(Shown(text)) == text
  {
    ShownIs(text);
    ShowAllSafe(text, text != "" && text[0] != '\0');
  }

  /** Line breaks are left as they are in exactly the texts that start with NUL. */
  lemma {:induction false} NewlinesLeft(text: string)
    ensures '\n' in Shown(text) <==> '\n' in text && text[0] == '\0'
  {
    ShownIs(text);
    ShowAllNewlines(text, text != "" && text[0] != '\0');
  }

  /** A post is free of NUL, since it is read up to the first one: its line breaks are all replaced. */
  lemma {:induction false} PostsHaveNoNewline(text: string)
    requires '\0' !in text
    ensures '\n' !in Shown(text)
  {
    hide Shown;
    NewlinesLeft(text);
  }
}
