/** The substring search of src/utility.c (bad-character Boyer-Moore) and the string views built on it. */
module Search {
  import opened Options

  // ----- What a search should find -----

  predicate OccursAt(text: string, pat: string, s: nat) {
    s + |pat| <= |text| && text[s..s + |pat|] == pat
  }

  /** The leftmost occurrence at or after `s`, found naively. */
  function IndexFrom(text: string, pat: string, s: nat): (r: Option<nat>)
    decreases |text| - s
  {
    if s + |pat| > |text| then None
    else if OccursAt(text, pat, s) then Some(s)
    else IndexFrom(text, pat, s + 1)
  }

  lemma {:induction false} OccursPointwise(text: string, pat: string, t: nat, k: int)
    requires OccursAt(text, pat, t)
    ensures 0 <= k < |pat| ==> text[t + k] == pat[k]
  {
    if 0 <= k < |pat| { assert text[t..t + |pat|][k] == pat[k]; }
  }

  function IndexOf(text: string, pat: string): Option<nat> {
    IndexFrom(text, pat, 0)
  }

  lemma {:induction false} IndexFromIsLeftmost(text: string, pat: string, s: nat)
    ensures var r := IndexFrom(text, pat, s);
      && (r.Some? ==>
            s <= r.value && OccursAt(text, pat, r.value) && forall t: nat | s <= t < r.value :: !OccursAt(text, pat, t))
      && (r.None? ==> forall t: nat | s <= t :: !OccursAt(text, pat, t))
    decreases |text| - s
  {
    if s + |pat| <= |text| && !OccursAt(text, pat, s) {
      IndexFromIsLeftmost(text, pat, s + 1);
    }
  }

  /** There is only one leftmost occurrence. */
  lemma {:induction false} IndexIs(text: string, pat: string, at: nat)
    requires OccursAt(text, pat, at) && forall t: nat | t < at :: !OccursAt(text, pat, t)
    ensures IndexOf(text, pat) == Some(at)
  {
    IndexFromIsLeftmost(text, pat, 0);
  }

  lemma {:induction false} IndexIsNone(text: string, pat: string)
    requires forall t: nat | t + |pat| <= |text| :: !OccursAt(text, pat, t)
    ensures IndexOf(text, pat) == None
  {
    IndexFromIsLeftmost(text, pat, 0);
  }

  /** The first occurrence of a character, from the part before it that is free of it. */
  lemma {:induction false} FirstAfter(a: string, c: char, b: string)
    requires c !in a
    ensures IndexOf(a + [c] + b, [c]) == Some(|a|)
  {
    var s := a + [c] + b;
    assert s[|a|..|a| + 1] == [c];
    forall t: nat | t < |a|
      ensures !OccursAt(s, [c], t)
    {
      if OccursAt(s, [c], t) { OccursPointwise(s, [c], t, 0); }
      assert s[t] == a[t];
    }
    IndexIs(s, [c], |a|);
  }

  predicate Ascii(s: string) {
    forall i | 0 <= i < |s| :: 0 < s[i] as int < 128
  }

  // ----- The table of last positions -----

  /** The value of an index stored in a signed 8-bit char. */
  function SignedChar(i: int): int {
    var low := i % 256;
    if low < 128 then low else low - 256
  }

  function LastIndex(pat: string, c: int): (i: int)
    ensures -1 <= i < |pat|
    ensures i >= 0 ==> pat[i] as int == c
    ensures forall k | i < k < |pat| :: pat[k] as int != c
  {
    if pat == "" then -1
    else if pat[|pat| - 1] as int == c then |pat| - 1
    else LastIndex(pat[..|pat| - 1], c)
  }

  method BadCharHeuristic(pat: string) returns (badchar: array<int>)
    requires Ascii(pat)
    ensures badchar.Length == 256 && fresh(badchar)
    ensures forall c | 0 <= c < 256 :: badchar[c] == SignedChar(LastIndex(pat, c))
  {
    badchar := new int[256](_ => -1);
    for i := 0 to |pat|
      invariant forall c | 0 <= c < 256 :: badchar[c] == SignedChar(LastIndex(pat[..i], c))
    {
      assert pat[..i + 1][..i] == pat[..i];
      badchar[pat[i] as int] := SignedChar(i);
    }
    assert pat[..|pat|] == pat;
  }

  // ----- The scan -----

  /** The largest index up to `j` at which the pattern, laid at `s`, differs from the text; -1 if there is none. */
  function Mismatch(text: string, pat: string, s: nat, j: int): (k: int)
    requires s + |pat| <= |text| && -1 <= j < |pat|
    ensures -1 <= k <= j
    ensures k >= 0 ==> pat[k] != text[s + k]
    ensures forall i | k < i <= j :: pat[i] == text[s + i]
    decreases j + 1
  {
    if j >= 0 && pat[j] == text[s + j] then Mismatch(text, pat, s, j - 1) else j
  }

  function Max(x: int, y: int): int {
    if x < y then y else x
  }

  /** Where the scan that has reached `s` ends: one before the occurrence it stops at. */
  function Scan(text: string, pat: string, s: nat): Option<int>
    requires |pat| <= |text|
    decreases |text| - s
  {
    if s > |text| - |pat| then None
    else
      var j := Mismatch(text, pat, s, |pat| - 1);
      if j < 0 then Some(s - 1)
      else Scan(text, pat, s + Max(1, j - SignedChar(LastIndex(pat, text[s + j] as int))))
  }

  /** The pattern, laid over a text with `c` under its index `j` and agreeing behind it, is shifted past an occurrence
      that starts `d` characters further on. */
  predicate BadShift(pat: string, j: nat, c: char, d: nat) {
    && j < |pat| && 0 < c as int < 128 && pat[j] != c
    && 1 <= d < j - SignedChar(LastIndex(pat, c as int))
    && (d <= j ==> pat[j - d] == c)
    && forall i | 0 <= i && j < i + d < |pat| :: pat[i] == pat[i + d]
  }

  ghost predicate NoBadShift(pat: string) {
    forall j: nat, c: char, d: nat :: !BadShift(pat, j, c, d)
  }

  /** A shift that passes an occurrence is a bad one. */
  lemma {:induction false} PassedIsBad(text: string, pat: string, s: nat, t: nat)
    requires Ascii(text) && s + |pat| <= |text| && OccursAt(text, pat, t)
    requires var j := Mismatch(text, pat, s, |pat| - 1);
      j >= 0 && s <= t < s + Max(1, j - SignedChar(LastIndex(pat, text[s + j] as int)))
    ensures var j := Mismatch(text, pat, s, |pat| - 1);
      BadShift(pat, j, text[s + j], t - s)
  {
    hide LastIndex, SignedChar;
    var j, d := Mismatch(text, pat, s, |pat| - 1), t - s;
    OccursPointwise(text, pat, t, j - d);
    forall i | 0 <= i && j < i + d < |pat|
      ensures pat[i] == pat[i + d]
    {
      OccursPointwise(text, pat, t, i);
    }
  }

  /** Without bad shifts, no shift passes an occurrence. */
  lemma {:induction false} NoShiftSkips(text: string, pat: string, s: nat, t: nat)
    requires NoBadShift(pat) && Ascii(text) && s + |pat| <= |text|
    requires var j := Mismatch(text, pat, s, |pat| - 1);
      j >= 0 && s <= t < s + Max(1, j - SignedChar(LastIndex(pat, text[s + j] as int)))
    ensures !OccursAt(text, pat, t)
  {
    hide LastIndex, SignedChar, BadShift, OccursAt;
    if OccursAt(text, pat, t) { PassedIsBad(text, pat, s, t); }
  }

  /** The indices of a short pattern fit a signed char. */
  lemma {:induction false} BadMeansLong(pat: string, j: nat, c: char, d: nat)
    requires BadShift(pat, j, c, d)
    ensures |pat| > 128
  {
  }

  lemma {:induction false} ShortIsGood(pat: string)
    requires |pat| <= 128
    ensures NoBadShift(pat)
  {
    hide BadShift;
    forall j: nat, c: char, d: nat | BadShift(pat, j, c, d)
      ensures false
    {
      BadMeansLong(pat, j, c, d);
    }
  }

  /** A character other than the last that occurs behind index 127 gives a bad shift. */
  lemma {:induction false} LateCharacter(pat: string, i: nat)
    requires Ascii(pat) && 128 <= i < |pat| && pat[i] != pat[|pat| - 1]
    ensures !NoBadShift(pat)
  {
    var last := LastIndex(pat, pat[i] as int);
    assert i <= last < |pat| - 1 && pat[last] == pat[i];
    assert BadShift(pat, |pat| - 1, pat[i], |pat| - 1 - last);
  }

  /** A text that meets the bad shift at its start, and ends with the occurrence that is passed. */
  function Trap(pat: string, j: nat, c: char, d: nat): (text: string)
    ensures |text| == d + |pat|
    ensures forall i | 0 <= i < |text| :: text[i] == if i >= d then pat[i - d] else if j < i < |pat| then pat[i] else c
  {
    seq(d + |pat|, i requires 0 <= i < d + |pat| => if i >= d then pat[i - d] else if j < i < |pat| then pat[i] else c)
  }

  lemma {:induction false} TrapOccurs(pat: string, j: nat, c: char, d: nat)
    requires Ascii(pat) && 0 < c as int < 128
    ensures OccursAt(Trap(pat, j, c, d), pat, d) && Ascii(Trap(pat, j, c, d))
  {
    assert Trap(pat, j, c, d)[d..d + |pat|] == pat;
  }

  lemma {:induction false} TrapMismatch(pat: string, j: nat, c: char, d: nat)
    requires BadShift(pat, j, c, d)
    ensures Trap(pat, j, c, d)[j] == c && Mismatch(Trap(pat, j, c, d), pat, 0, |pat| - 1) == j
  {
    hide LastIndex, SignedChar;
    var text := Trap(pat, j, c, d);
    forall k | j < k < |pat|
      ensures pat[k] == text[0 + k]
    {
      if k >= d { assert pat[k - d] == pat[k - d + d]; }
    }
    MismatchIs(text, pat, 0, |pat| - 1, j);
  }

  lemma {:induction false} TrapIsMissed(pat: string, j: nat, c: char, d: nat)
    requires Ascii(pat) && BadShift(pat, j, c, d)
    ensures var text := Trap(pat, j, c, d); Ascii(text) && Scan(text, pat, 0) == None && IndexOf(text, pat) != None
  {
    hide LastIndex, SignedChar, Mismatch, OccursAt, Trap;
    var text := Trap(pat, j, c, d);
    TrapOccurs(pat, j, c, d);
    TrapMismatch(pat, j, c, d);
    IndexFromIsLeftmost(text, pat, 0);
  }

  lemma {:induction false} MismatchIs(text: string, pat: string, s: nat, j: int, k: nat)
    requires s + |pat| <= |text| && k <= j < |pat|
    requires pat[k] != text[s + k] && forall i | k < i <= j :: pat[i] == text[s + i]
    ensures Mismatch(text, pat, s, j) == k
  {
  }

  /** The scan is right on all texts for exactly the patterns without bad shifts. */
  lemma {:induction false} ExactOnAllTextsExactlyWhen(pat: string)
    requires Ascii(pat) && |pat| >= 2
    ensures NoBadShift(pat) <==>
      forall text | Ascii(text) && |pat| <= |text| :: Scan(text, pat, 0) == OneBefore(IndexOf(text, pat))
  {
    hide Scan, IndexOf, BadShift;
    if NoBadShift(pat) {
      forall text | Ascii(text) && |pat| <= |text|
        ensures Scan(text, pat, 0) == OneBefore(IndexOf(text, pat))
      {
        ScanFromStart(text, pat);
      }
    } else {
      var j: nat, c: char, d: nat :| BadShift(pat, j, c, d);
      TrapIsMissed(pat, j, c, d);
      assert |pat| <= |Trap(pat, j, c, d)|;
    }
  }

  lemma {:induction false} ScanFromStart(text: string, pat: string)
    requires NoBadShift(pat) && Ascii(text) && 2 <= |pat| <= |text|
    ensures Scan(text, pat, 0) == OneBefore(IndexOf(text, pat))
  {
    ScanIsExact(text, pat, 0);
  }

  lemma {:induction false} NoMismatch(text: string, pat: string, s: nat)
    requires s + |pat| <= |text| && Mismatch(text, pat, s, |pat| - 1) < 0
    ensures IndexFrom(text, pat, s) == Some(s)
  {
    assert text[s..s + |pat|] == pat;
  }

  /** The scan finds exactly the leftmost occurrence. */
  lemma {:induction false} ScanIsExact(text: string, pat: string, s: nat)
    requires NoBadShift(pat) && Ascii(text) && 2 <= |pat| <= |text|
    ensures Scan(text, pat, s) == OneBefore(IndexFrom(text, pat, s))
    decreases |text| - s
  {
    hide OccursAt, LastIndex, SignedChar, Mismatch, NoBadShift, Ascii;
    if s <= |text| - |pat| {
      var j := Mismatch(text, pat, s, |pat| - 1);
      if j < 0 {
        NoMismatch(text, pat, s);
      } else {
        var next := s + Max(1, j - SignedChar(LastIndex(pat, text[s + j] as int)));
        forall t: nat | s <= t < next
          ensures !OccursAt(text, pat, t)
        {
          NoShiftSkips(text, pat, s, t);
        }
        SkipEmpty(text, pat, s, next);
        ScanIsExact(text, pat, next);
      }
    }
  }

  /** The "-1" convention of the search for two or more characters. */
  function OneBefore(r: Option<nat>): Option<int> {
    match r
    case None => None
    case Some(at) => Some(at - 1)
  }

  lemma {:induction false} SkipEmpty(text: string, pat: string, s: nat, next: nat)
    requires s <= next && forall t: nat | s <= t < next :: !OccursAt(text, pat, t)
    ensures IndexFrom(text, pat, s) == IndexFrom(text, pat, next)
    decreases next - s
  {
    if s < next { SkipEmpty(text, pat, s + 1, next); }
  }

  function Repeat(c: char, n: nat): (s: string)
    ensures |s| == n && forall i | 0 <= i < n :: s[i] == c
  {
    seq(n, _ => c)
  }

  /** A pattern of 130 characters: its index 128 is stored as -128, and the scan jumps over the only occurrence. */
  lemma {:induction false} LongPatternIsMissed()
    ensures var pat := Repeat('a', 128) + "ba";
      var text := "a" + pat;
      Ascii(text) && OccursAt(text, pat, 1) && Scan(text, pat, 0) == None
  {
    var pat := Repeat('a', 128) + "ba";
    var text := "a" + pat;
    assert text[1..1 + |pat|] == pat;
    assert Mismatch(text, pat, 0, 129) == 129;
    assert LastIndex(pat, 'b' as int) == 128;
    assert text[129] == 'b';
  }

  /** One round of the scan. */
  lemma {:induction false} ScanStep(text: string, pat: string, s: nat, j: int)
    requires s + |pat| <= |text| && j == Mismatch(text, pat, s, |pat| - 1)
    ensures -1 <= j < |pat| && s + j < |text|
    ensures Scan(text, pat, s) ==
      if j < 0 then Some(s - 1) else Scan(text, pat, s + Max(1, j - SignedChar(LastIndex(pat, text[s + j] as int))))
  {
    hide SignedChar, LastIndex;
  }

  /** Compares from the end of the pattern. */
  method CompareAt(text: string, pat: string, s: nat) returns (j: int)
    requires s + |pat| <= |text|
    ensures j == Mismatch(text, pat, s, |pat| - 1)
  {
    j := |pat| - 1;
    while j >= 0 && pat[j] == text[s + j]
      invariant -1 <= j < |pat| && Mismatch(text, pat, s, j) == Mismatch(text, pat, s, |pat| - 1)
    {
      j := j - 1;
    }
  }

  /** Returns the offset of a pointer into the text: for one-character patterns the match itself, else one before it. */
  method BoyerMoore(text: string, pat: string) returns (r: Option<int>)
    requires Ascii(text) && Ascii(pat)
    ensures |pat| == 0 || |pat| > |text| ==> r == None
    ensures |pat| == 1 ==> r == IndexOf(text, pat)
    ensures 2 <= |pat| <= |text| ==> r == Scan(text, pat, 0)
    ensures 2 <= |pat| && NoBadShift(pat) ==> r == OneBefore(IndexOf(text, pat))
    ensures |pat| <= 128 ==> NoBadShift(pat)
  {
    hide OccursAt, IndexOf, LastIndex, SignedChar, BadShift, NoBadShift, Mismatch;
    if |pat| <= 128 { ShortIsGood(pat); }
    var m, n := |pat|, |text|;
    if m == 0 || m > n {
      if m > n { IndexIsNone(text, pat); }
      return None;
    }
    if m == 1 {
      assert pat == [pat[0]];
      r := StrChr(text, pat[0]);
      return;
    }
    if NoBadShift(pat) { ScanFromStart(text, pat); }
    var badchar := BadCharHeuristic(pat);
    var s := 0;
    while s <= n - m
      invariant 0 <= s && Scan(text, pat, s) == Scan(text, pat, 0)
      invariant forall c | 0 <= c < 256 :: badchar[c] == SignedChar(LastIndex(pat, c))
      decreases n - s
    {
      var j := CompareAt(text, pat, s);
      ScanStep(text, pat, s, j);
      if j < 0 {
        return Some(s - 1);
      } else {
        s := s + Max(1, j - badchar[text[s + j] as int]);
      }
    }
    r := None;
  }

  /** The first occurrence of a character. */
  method StrChr(text: string, c: char) returns (r: Option<int>)
    ensures r == IndexOf(text, [c])
  {
    for i := 0 to |text|
      invariant forall t: nat | t < i :: !OccursAt(text, [c], t)
    {
      if text[i] == c {
        assert OccursAt(text, [c], i);
        IndexIs(text, [c], i);
        return Some(i);
      }
      if OccursAt(text, [c], i) { OccursPointwise(text, [c], i, 0); }
    }
    IndexIsNone(text, [c]);
    r := None;
  }

  method FindFirstOf(text: string, delim: string) returns (r: Option<int>)
    requires Ascii(text) && Ascii(delim)
    ensures |delim| == 1 ==> r == IndexOf(text, delim)
    ensures 2 <= |delim| && NoBadShift(delim) ==> r == OneBefore(IndexOf(text, delim))
    ensures |delim| <= 128 ==> NoBadShift(delim)
  {
    hide NoBadShift;
    if |delim| <= 128 { ShortIsGood(delim); }
    if text != "" {
      r := BoyerMoore(text, delim);
    } else {
      if delim != "" { IndexIsNone(text, delim); }
      r := None;
    }
  }

  /** The size of the view of `text` that ends at the delimiter, -1 without one. */
  method ViewSize(text: string, delim: string) returns (size: int)
    requires Ascii(text) && Ascii(delim)
    ensures 2 <= |delim| && NoBadShift(delim) ==> size == match IndexOf(text, delim) case None => -1 case Some(at) => at
    ensures |delim| == 1 ==> size == match IndexOf(text, delim) case None => -1 case Some(at) => at + 1
    ensures |delim| <= 128 ==> NoBadShift(delim)
  {
    size := -1;
    var found := FindFirstOf(text, delim);
    if found.Some? {
      size := found.value + 1;
    }
  }
}
