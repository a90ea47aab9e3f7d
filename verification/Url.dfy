/** URL encoding and decoding (src/http/helper.c, section 2.1 of RFC 3986). */
module Url {

  // ----- Decoding -----

  predicate IsHex(c: char) {
    '0' <= c <= '9' || 'a' <= c <= 'f' || 'A' <= c <= 'F'
  }

  /** The arithmetic of the decoder: fold to upper case, then subtract. */
  function HexValue(c: char): (v: int)
    requires IsHex(c)
    ensures 0 <= v < 16
  {
    var a := c as int;
    var folded := if a >= 'a' as int then a - ('a' as int - 'A' as int) else a;
    if folded >= 'A' as int then folded - ('A' as int - 10) else folded - '0' as int
  }

  predicate TripletAt(s: string) {
    |s| >= 3 && s[0] == '%' && IsHex(s[1]) && IsHex(s[2])
  }

  function Decode(s: string): string {
    if s == "" then ""
    else if TripletAt(s) then [(16 * HexValue(s[1]) + HexValue(s[2])) as char] + Decode(s[3..])
    else [if s[0] == '+' then ' ' else s[0]] + Decode(s[1..])
  }

  function Percents(s: string): nat {
    if s == "" then 0 else (if s[0] == '%' then 1 else 0) + Percents(s[1..])
  }

  /** The number of valid triplets that decoding consumes. */
  function Triplets(s: string): nat {
    if s == "" then 0 else if TripletAt(s) then 1 + Triplets(s[3..]) else Triplets(s[1..])
  }

  /** Every % starts a valid triplet. */
  predicate WellEscaped(s: string) {
    s == "" || if s[0] == '%' then TripletAt(s) && WellEscaped(s[3..]) else WellEscaped(s[1..])
  }

  lemma {:induction false} DecodedSize(s: string)
    ensures |Decode(s)| + 2 * Triplets(s) == |s|
    ensures Triplets(s) <= Percents(s)
  {
    if s != "" {
      if TripletAt(s) {
        DecodedSize(s[3..]);
        SkipTriplet(s);
      } else {
        DecodedSize(s[1..]);
      }
    }
  }

  lemma {:induction false} SkipTriplet(s: string)
    requires TripletAt(s)
    ensures Percents(s) == 1 + Percents(s[3..])
  {
    assert s[1..][1..] == s[2..] && s[2..][1..] == s[3..];
    assert s[1..][0] == s[1] && s[2..][0] == s[2];
    assert Percents(s[2..]) == Percents(s[3..]);
    assert Percents(s[1..]) == Percents(s[2..]);
  }

  /** In well escaped text, and only there, every % is consumed. */
  lemma {:induction false} AllPercentsConsumed(s: string)
    ensures WellEscaped(s) <==> Triplets(s) == Percents(s)
  {
    if s != "" {
      if TripletAt(s) {
        AllPercentsConsumed(s[3..]);
        SkipTriplet(s);
      } else {
        AllPercentsConsumed(s[1..]);
        DecodedSize(s[1..]);
      }
    }
  }

  const REMAIN_SPACE := 16

  /** The % signs that the decoder counts: all but one in first place. */
  function Counted(s: string): nat {
    if s == "" then 0 else Percents(s[1..])
  }

  /** The room that the decoder allocates. */
  function Room(s: string): int {
    |s| - Counted(s) * 2 + 1 + REMAIN_SPACE
  }

  /** A % sign in first place is not counted: it makes no more room than any other character. */
  lemma {:induction false} FirstIsNotCounted(c: char, s: string)
    ensures Room([c] + s) == |s| + 18 - 2 * Percents(s)
  {
    assert ([c] + s)[1..] == s;
  }

  /** What is left of the room after the decoded text and its NUL: two bytes are lost for each counted % that
      starts no triplet. */
  lemma {:induction false} SpareRoom(s: string)
    ensures Room(s) - (|Decode(s)| + 1) == REMAIN_SPACE - 2 * (Counted(s) - Triplets(s))
    ensures WellEscaped(s) ==> Room(s) - (|Decode(s)| + 1) >= REMAIN_SPACE
  {
    DecodedSize(s);
    AllPercentsConsumed(s);
  }

  /** The decoded text and its NUL fit the room that is allocated if and only if at most eight of the counted % signs
      start no triplet. */
  lemma {:induction false} FitsExactlyWhen(s: string)
    ensures |Decode(s)| + 1 <= Room(s) <==> Counted(s) - Triplets(s) <= 8
  {
    SpareRoom(s);
  }

  /** Nine % signs that start no triplet: the decoder writes eleven bytes into nine. */
  lemma {:induction false} NinePercentsOverrun()
    ensures var s := "a%%%%%%%%%"; Room(s) == 9 && |Decode(s)| + 1 == 11
  {
    var s := "a%%%%%%%%%";
    PercentsAlone(9);
    assert s[1..] == seq(9, _ => '%');
    DecodedSize(s);
    assert Triplets(s) == Triplets(s[1..]);
  }

  lemma {:induction false} PercentsAlone(n: nat)
    ensures Percents(seq(n, _ => '%')) == n && Triplets(seq(n, _ => '%')) == 0
  {
    var s := seq(n, _ => '%');
    if n > 0 {
      PercentsAlone(n - 1);
      assert s[1..] == seq(n - 1, _ => '%');
    }
  }

  /** The test of the decoder for a triplet at `i`. */
  predicate TripletIn(s: string, i: nat)
    requires i < |s|
  {
    s[i] == '%' && i + 2 < |s| && IsHex(s[i + 1]) && IsHex(s[i + 2])
  }

  lemma {:induction false} DecodeStep(s: string, i: nat)
    requires i < |s|
    ensures Decode(s[i..]) ==
      if TripletIn(s, i) then [(16 * HexValue(s[i + 1]) + HexValue(s[i + 2])) as char] + Decode(s[i + 3..])
      else [if s[i] == '+' then ' ' else s[i]] + Decode(s[i + 1..])
  {
    assert s[i..][1..] == s[i + 1..];
    if TripletAt(s[i..]) { assert s[i..][3..] == s[i + 3..]; }
  }

  /** One more character has been decoded. */
  lemma {:induction false} OneMore(done: string, c: char, rest: string)
    ensures done + ([c] + rest) == (done + [c]) + rest
  {
  }

  /** The loop that decodes into a buffer. `src` is the C string without its NUL. */
  method UrlDecode2(dst: array<char>, src: string)
    requires |Decode(src)| + 1 <= dst.Length
    modifies dst
    ensures dst[..|Decode(src)|] == Decode(src) && dst[|Decode(src)|] == '\0'
  {
    hide Decode, HexValue, IsHex;
    var o, i := 0, 0;
    ghost var done: string := "";
    assert src[0..] == src;
    while i < |src|
      invariant 0 <= i <= |src| && 0 <= o == |done| && |done + Decode(src[i..])| < dst.Length
      invariant dst[..o] == done && done + Decode(src[i..]) == Decode(src)
    {
      DecodeStep(src, i);
      if src[i] == '%' && i + 2 < |src| && IsHex(src[i + 1]) && IsHex(src[i + 2]) {
        dst[o] := (16 * HexValue(src[i + 1]) + HexValue(src[i + 2])) as char;
        i := i + 3;
      } else if src[i] == '+' {
        dst[o] := ' ';
        i := i + 1;
      } else {
        dst[o] := src[i];
        i := i + 1;
      }
      OneMore(done, dst[o], Decode(src[i..]));
      done := done + [dst[o]];
      o := o + 1;
    }
    assert src[i..] == "";
    DecodeNothing();
    dst[o] := '\0';
  }

  lemma {:induction false} DecodeNothing()
    ensures Decode("") == ""
  {
  }

  /** Allocates by counting % signs, with some space in reserve, and decodes. */
  method UrlDecoder(str: string) returns (newUrl: array<char>)
    requires |Decode(str)| + 1 <= Room(str)
    ensures fresh(newUrl) && newUrl.Length == Room(str)
    ensures newUrl[..|Decode(str)|] == Decode(str) && newUrl[|Decode(str)|] == '\0'
  {
    var percentCounter := 0;
    var i := 0;
    assert str[0..] == str;
    while i < |str|
      invariant 0 <= i <= |str| && percentCounter + Counted(str[i..]) == Counted(str)
    {
      i := i + 1;
      assert str[i - 1..][1..] == str[i..];
      if i < |str| && str[i] == '%' {
        percentCounter := percentCounter + 1;
      }
    }
    assert str[i..] == "";
    newUrl := new char[|str| - percentCounter * 2 + 1 + REMAIN_SPACE](_ => '\0');
    UrlDecode2(newUrl, str);
  }

  // ----- Encoding -----

  predicate Unreserved(c: char) {
    'a' <= c <= 'z' || 'A' <= c <= 'Z' || '0' <= c <= '9'
  }

  function HexDigit(v: int): char
    requires 0 <= v < 16
  {
    "0123456789abcdef"[v]
  }

  function EncodeOne(c: char): (e: string)
    requires c as int < 128
    ensures 1 <= |e| <= 3
  {
    if Unreserved(c) then [c] else ['%', HexDigit(c as int / 16), HexDigit(c as int % 16)]
  }

  predicate SevenBit(s: string) {
    forall i | 0 <= i < |s| :: s[i] as int < 128
  }

  function Encode(s: string): (e: string)
    requires SevenBit(s)
    ensures |e| <= 3 * |s|
  {
    if s == "" then "" else Encode(s[..|s| - 1]) + EncodeOne(s[|s| - 1])
  }

  lemma {:induction false} EncodeStep(s: string, i: nat)
    requires SevenBit(s) && i < |s|
    ensures Encode(s[..i + 1]) == Encode(s[..i]) + EncodeOne(s[i])
  {
    assert s[..i + 1][..i] == s[..i];
  }

  /** Writes one character at `pos`, as it is or in three. */
  method PutEncoded(res: array<char>, pos: nat, c: char) returns (end: nat)
    requires c as int < 128 && pos + 3 <= res.Length
    modifies res
    ensures end == pos + |EncodeOne(c)| && res[..end] == old(res[..pos]) + EncodeOne(c)
  {
    if Unreserved(c) {
      res[pos] := c;
      end := pos + 1;
    } else {
      res[pos] := '%';
      res[pos + 1] := HexDigit(c as int / 16);
      res[pos + 2] := HexDigit(c as int % 16);
      end := pos + 3;
    }
  }

  method UrlEncoder(str: string) returns (res: array<char>, pos: nat)
    requires SevenBit(str)
    ensures fresh(res) && pos == |Encode(str)| < res.Length == 3 * |str| + 1
    ensures res[..pos] == Encode(str) && res[pos] == '\0'
  {
    hide Encode, EncodeOne;
    res := new char[|str| * 3 + 1](_ => '\0');
    pos := 0;
    NothingEncoded();
    assert str[..0] == "";
    for i := 0 to |str|
      invariant pos == |Encode(str[..i])| && res[..pos] == Encode(str[..i])
    {
      EncodeStep(str, i);
      pos := PutEncoded(res, pos, str[i]);
    }
    assert str[..|str|] == str;
    res[pos] := '\0';
  }

  lemma {:induction false} NothingEncoded()
    ensures Encode("") == ""
  {
  }

  // ----- Digits, written out -----

  /** The hex digits of either case, and nothing else, with their values. */
  lemma {:induction false} HexDigitsAre(v: nat)
    requires v < 16
    ensures IsHex("0123456789abcdef"[v]) && HexValue("0123456789abcdef"[v]) == v
    ensures IsHex("0123456789ABCDEF"[v]) && HexValue("0123456789ABCDEF"[v]) == v
  {
  }

  lemma {:induction false} OnlyHexDigits(c: char)
    ensures IsHex(c) <==> c in "0123456789abcdef" || c in "0123456789ABCDEF"
    ensures IsHex(c) ==> c == "0123456789abcdef"[HexValue(c)] || c == "0123456789ABCDEF"[HexValue(c)]
  {
  }

  /** The characters that the encoder leaves as they are. */
  lemma {:induction false} UnreservedAre(c: char)
    ensures Unreserved(c) <==>
      || c in "0123456789"
      || c in "abcdefghijklmnopqrstuvwxyz"
      || c in "ABCDEFGHIJKLMNOPQRSTUVWXYZ"
  {
    InRow(c, '0', "0123456789");
    InRow(c, 'a', "abcdefghijklmnopqrstuvwxyz");
    InRow(c, 'A', "ABCDEFGHIJKLMNOPQRSTUVWXYZ");
  }

  lemma {:induction false} InRow(c: char, first: char, row: string)
    requires |row| > 0 && first as int + |row| <= 128
    requires forall i | 0 <= i < |row| :: row[i] as int == first as int + i
    ensures c in row <==> first as int <= c as int < first as int + |row|
  {
    if first as int <= c as int < first as int + |row| { assert row[c as int - first as int] == c; }
  }

  /** What the encoder makes of one character: the character, or a triplet with small digits. */
  lemma {:induction false} EncodeOneIs(c: char)
    requires c as int < 128
    ensures Unreserved(c) ==> EncodeOne(c) == [c]
    ensures !Unreserved(c) ==>
      EncodeOne(c) == ['%', "0123456789abcdef"[c as int / 16], "0123456789abcdef"[c as int % 16]]
  {
  }

  /** What the decoder makes of each kind of text, in turn. */
  lemma {:induction false} DecodeTriplet(x: char, y: char, i: nat, j: nat, rest: string)
    requires i < 16 && (x == "0123456789abcdef"[i] || x == "0123456789ABCDEF"[i])
    requires j < 16 && (y == "0123456789abcdef"[j] || y == "0123456789ABCDEF"[j])
    ensures Decode(['%', x, y] + rest) == [(16 * i + j) as char] + Decode(rest)
  {
    HexDigitsAre(i);
    HexDigitsAre(j);
    var s := ['%', x, y] + rest;
    assert s[3..] == rest && s[0] == '%' && s[1] == x && s[2] == y;
  }

  lemma {:induction false} DecodeOther(c: char, rest: string)
    ensures c == '+' ==> Decode([c] + rest) == " " + Decode(rest)
    ensures c != '+' && c != '%' ==> Decode([c] + rest) == [c] + Decode(rest)
    ensures c == '%' && !(|rest| >= 2 && IsHex(rest[0]) && IsHex(rest[1])) ==> Decode([c] + rest) == "%" + Decode(rest)
    ensures Decode("") == ""
  {
    var s := [c] + rest;
    assert s[1..] == rest && s[0] == c;
    if |rest| >= 2 { assert s[1] == rest[0] && s[2] == rest[1]; }
  }

  /** Two characters are the same digit, in either case. */
  predicate SameDigit(a: char, b: char) {
    exists v: nat :: v < 16
      && (a == "0123456789abcdef"[v] || a == "0123456789ABCDEF"[v])
      && (b == "0123456789abcdef"[v] || b == "0123456789ABCDEF"[v])
  }

  /** The texts differ in the case of the digits of their triplets only. */
  predicate SameButCase(s: string, t: string)
    decreases |s|
  {
    if s == "" then t == ""
    else if TripletAt(s) then
      TripletAt(t) && SameDigit(s[1], t[1]) && SameDigit(s[2], t[2]) && SameButCase(s[3..], t[3..])
    else t != "" && !TripletAt(t) && s[0] == t[0] && SameButCase(s[1..], t[1..])
  }

  lemma {:induction false} SameDigitSameValue(a: char, b: char)
    requires SameDigit(a, b)
    ensures IsHex(a) && IsHex(b) && HexValue(a) == HexValue(b)
  {
    var v: nat :| v < 16
      && (a == "0123456789abcdef"[v] || a == "0123456789ABCDEF"[v])
      && (b == "0123456789abcdef"[v] || b == "0123456789ABCDEF"[v]);
    HexDigitsAre(v);
  }

  /** The case of the digits does not matter (section 2.1 of RFC 3986). */
  lemma {:induction false} CaseDoesNotMatter(s: string, t: string)
    requires SameButCase(s, t)
    ensures Decode(s) == Decode(t)
    decreases |s|
  {
    hide HexValue, IsHex, SameDigit;
    if s == "" {
    } else if TripletAt(s) {
      SameDigitSameValue(s[1], t[1]);
      SameDigitSameValue(s[2], t[2]);
      CaseDoesNotMatter(s[3..], t[3..]);
    } else {
      CaseDoesNotMatter(s[1..], t[1..]);
    }
  }

  /** Another encoder, which escapes everything and prints capital digits. */
  function EncodeCapital(s: string): string
    requires SevenBit(s)
  {
    if s == "" then ""
    else ['%', "0123456789ABCDEF"[s[0] as int / 16], "0123456789ABCDEF"[s[0] as int % 16]] + EncodeCapital(s[1..])
  }

  lemma {:induction false} DecodeEncodeCapital(s: string)
    requires SevenBit(s)
    ensures Decode(EncodeCapital(s)) == s
  {
    hide Decode;
    if s == "" {
      DecodeOther('a', "");
    } else {
      var i, j := s[0] as int / 16, s[0] as int % 16;
      DecodeEncodeCapital(s[1..]);
      DecodeTriplet("0123456789ABCDEF"[i], "0123456789ABCDEF"[j], i, j, EncodeCapital(s[1..]));
      assert [s[0]] + s[1..] == s;
    }
  }

  // ----- Decoding undoes encoding -----

  lemma {:induction false} HexRoundTrip(v: int)
    requires 0 <= v < 16
    ensures IsHex(HexDigit(v)) && HexValue(HexDigit(v)) == v
  {
  }

  lemma {:induction false} DecodeEncodeOne(c: char, rest: string)
    requires c as int < 128
    ensures Decode(EncodeOne(c) + rest) == [c] + Decode(rest)
    ensures WellEscaped(rest) ==> WellEscaped(EncodeOne(c) + rest)
  {
    var e, p := EncodeOne(c), EncodeOne(c) + rest;
    assert p[|e|..] == rest;
    if Unreserved(c) {
      assert p[0] == c;
    } else {
      HexRoundTrip(c as int / 16);
      HexRoundTrip(c as int % 16);
      assert p[0] == e[0] && p[1] == e[1] && p[2] == e[2];
      assert 16 * (c as int / 16) + c as int % 16 == c as int;
    }
  }

  lemma {:induction false} DecodeEncodeAll(s: string, rest: string)
    requires SevenBit(s)
    ensures Decode(Encode(s) + rest) == s + Decode(rest)
    ensures WellEscaped(rest) ==> WellEscaped(Encode(s) + rest)
  {
    hide Decode, WellEscaped, EncodeOne;
    if s == "" {
      assert "" + rest == rest;
    } else {
      var front, c := s[..|s| - 1], s[|s| - 1];
      DecodeEncodeOne(c, rest);
      DecodeEncodeAll(front, EncodeOne(c) + rest);
      assert Encode(s) + rest == Encode(front) + (EncodeOne(c) + rest);
      assert front + ([c] + Decode(rest)) == s + Decode(rest);
    }
  }

  /** Decoding undoes encoding on ASCII text, and encoded text always fits its buffer. */
  lemma {:induction false} DecodeEncode(s: string)
    requires SevenBit(s)
    ensures Decode(Encode(s)) == s && WellEscaped(Encode(s))
  {
    DecodeEncodeAll(s, "");
    assert Encode(s) + "" == Encode(s);
  }
}
