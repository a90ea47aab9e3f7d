/** The base-64 codec of src/base64.c (section 4 of RFC 4648). */
module Base64 {

  type Byte = b: int | 0 <= b < 256
  type Sextet = v: int | 0 <= v < 64

  /** The two tables. A character outside the alphabet has no value. */
  function Letter(v: Sextet): char {
    if v < 26 then 'A' + v as char
    else if v < 52 then 'a' + (v - 26) as char
    else if v < 62 then '0' + (v - 52) as char
    else if v == 62 then '+' else '/'
  }

  predicate InAlphabet(c: char) {
    'A' <= c <= 'Z' || 'a' <= c <= 'z' || '0' <= c <= '9' || c == '+' || c == '/'
  }

  function Value(c: char): (v: Sextet)
    requires InAlphabet(c)
  {
    if 'A' <= c <= 'Z' then c as int - 'A' as int
    else if 'a' <= c <= 'z' then c as int - 'a' as int + 26
    else if '0' <= c <= '9' then c as int - '0' as int + 52
    else if c == '+' then 62 else 63
  }

  lemma {:induction false} TablesAreInverse(v: Sextet, c: char)
    ensures InAlphabet(Letter(v)) && Value(Letter(v)) == v && Letter(v) != '='
    ensures InAlphabet(c) ==> Letter(Value(c)) == c
  {
  }

  lemma {:induction false} Capitals(v: nat)
    requires v < 26
    ensures "ABCDEFGHIJKLMNOPQRSTUVWXYZ"[v] == 'A' + v as char
  {
  }

  lemma {:induction false} SmallLetters(v: nat)
    requires v < 26
    ensures "abcdefghijklmnopqrstuvwxyz"[v] == 'a' + v as char
  {
  }

  lemma {:induction false} Others(v: nat)
    requires v < 12
    ensures "0123456789+/"[v] == if v < 10 then '0' + v as char else if v == 10 then '+' else '/'
  {
  }

  /** The tables, against the alphabet of the RFC written out. */
  lemma {:induction false} LetterIs(v: Sextet)
    ensures Letter(v) == "ABCDEFGHIJKLMNOPQRSTUVWXYZabcdefghijklmnopqrstuvwxyz0123456789+/"[v]
  {
    hide Letter;
    AlphabetParts();
    LetterInParts("ABCDEFGHIJKLMNOPQRSTUVWXYZ", "abcdefghijklmnopqrstuvwxyz", "0123456789+/", v);
  }

  lemma {:induction false} AlphabetParts()
    ensures "ABCDEFGHIJKLMNOPQRSTUVWXYZabcdefghijklmnopqrstuvwxyz0123456789+/" ==
      "ABCDEFGHIJKLMNOPQRSTUVWXYZ" + "abcdefghijklmnopqrstuvwxyz" + "0123456789+/"
  {
  }

  lemma {:induction false} LetterInParts(capitals: string, small: string, others: string, v: Sextet)
    requires capitals == "ABCDEFGHIJKLMNOPQRSTUVWXYZ" && small == "abcdefghijklmnopqrstuvwxyz"
    requires others == "0123456789+/"
    ensures |capitals + small + others| == 64 && (capitals + small + others)[v] == Letter(v)
  {
    if v < 26 {
      Capitals(v);
    } else if v < 52 {
      SmallLetters(v - 26);
    } else {
      Others(v - 52);
    }
  }

  lemma {:induction false} ValueIs(c: char)
    ensures InAlphabet(c) <==> c in "ABCDEFGHIJKLMNOPQRSTUVWXYZabcdefghijklmnopqrstuvwxyz0123456789+/"
    ensures InAlphabet(c) ==> "ABCDEFGHIJKLMNOPQRSTUVWXYZabcdefghijklmnopqrstuvwxyz0123456789+/"[Value(c)] == c
  {
    hide Letter, Value, InAlphabet;
    if InAlphabet(c) {
      TablesAreInverse(0, c);
      LetterIs(Value(c));
    } else if i: nat :| i < 64 && "ABCDEFGHIJKLMNOPQRSTUVWXYZabcdefghijklmnopqrstuvwxyz0123456789+/"[i] == c {
      LetterIs(i);
      TablesAreInverse(i, c);
    }
  }

  // ----- Splitting bits -----

  lemma {:induction false} Split4(x: nat, y: nat)
    requires y < 4
    ensures (x * 4 + y) / 4 == x && (x * 4 + y) % 4 == y
  {
  }

  lemma {:induction false} Split16(x: nat, y: nat)
    requires y < 16
    ensures (x * 16 + y) / 16 == x && (x * 16 + y) % 16 == y
  {
  }

  lemma {:induction false} Split64(x: nat, y: nat)
    requires y < 64
    ensures (x * 64 + y) / 64 == x && (x * 64 + y) % 64 == y
  {
  }

  // ----- The encoding, group by group, as the RFC describes it -----

  function Encode(d: seq<Byte>): string {
    if |d| == 0 then ""
    else if |d| == 1 then [Letter(d[0] / 4), Letter(d[0] % 4 * 16), '=', '=']
    else if |d| == 2 then [Letter(d[0] / 4), Letter(d[0] % 4 * 16 + d[1] / 16), Letter(d[1] % 16 * 4), '=']
    else Quad(d[0], d[1], d[2]) + Encode(d[3..])
  }

  function Quad(a: Byte, b: Byte, c: Byte): string {
    [Letter(a / 4), Letter(a % 4 * 16 + b / 16), Letter(b % 16 * 4 + c / 64), Letter(c % 64)]
  }

  /** Whole quads of letters; only the last two places may hold padding. */
  predicate WellFormed(s: string) {
    && |s| % 4 == 0
    && (s != "" ==>
      if |s| > 4 then (forall i | 0 <= i < 4 :: InAlphabet(s[i])) && WellFormed(s[4..])
      else
        && InAlphabet(s[0]) && InAlphabet(s[1])
        && (InAlphabet(s[2]) || (s[2] == '=' && s[3] == '=')) && (InAlphabet(s[3]) || s[3] == '='))
  }

  function Triple(p: Sextet, q: Sextet, r: Sextet, t: Sextet): seq<Byte> {
    [p * 4 + q / 16, q % 16 * 16 + r / 4, r % 4 * 64 + t]
  }

  function Decode(s: string): seq<Byte>
    requires WellFormed(s)
  {
    if s == "" then []
    else if s[3] != '=' then Triple(Value(s[0]), Value(s[1]), Value(s[2]), Value(s[3])) + Decode(s[4..])
    else if s[2] != '=' then
      [Value(s[0]) * 4 + Value(s[1]) / 16, Value(s[1]) % 16 * 16 + Value(s[2]) / 4]
    else [Value(s[0]) * 4 + Value(s[1]) / 16]
  }

  /** The bits that padding leaves over are zero (section 3.5 of RFC 4648). */
  predicate Canonical(s: string)
    requires WellFormed(s)
  {
    s != "" ==>
      if |s| > 4 then Canonical(s[4..])
      else (s[2] == '=' ==> Value(s[1]) % 16 == 0) && (s[3] == '=' && s[2] != '=' ==> Value(s[2]) % 4 == 0)
  }

  lemma {:induction false} EncodedSize(d: seq<Byte>)
    ensures |Encode(d)| == (|d| + 2) / 3 * 4
  {
    hide Letter;
    if |d| >= 3 { EncodedSize(d[3..]); }
  }

  lemma {:induction false} DecodedSize(s: string)
    requires WellFormed(s)
    ensures |Decode(s)| == |s| / 4 * 3 - Padding(s)
  {
    hide Value, Decode, Padding;
    if s == "" {
      NothingToDecode();
    } else if |s| > 4 {
      MoreGroups(s);
      DecodedSize(s[4..]);
    } else {
      OneGroup(s);
    }
  }

  lemma {:induction false} NothingToDecode()
    ensures Decode("") == [] && Padding("") == 0
  {
  }

  lemma {:induction false} MoreGroups(s: string)
    requires WellFormed(s) && |s| > 4
    ensures |Decode(s)| == 3 + |Decode(s[4..])| && Padding(s) == Padding(s[4..]) && |s| / 4 == |s[4..]| / 4 + 1
  {
    hide Value;
  }

  lemma {:induction false} OneGroup(s: string)
    requires WellFormed(s) && |s| == 4
    ensures |Decode(s)| == 3 - Padding(s)
  {
    hide Value;
    assert s[4..] == "";
  }

  /** How many of the last two characters are padding. */
  function Padding(s: string): nat {
    (if |s| >= 1 && s[|s| - 1] == '=' then 1 else 0) + if |s| >= 2 && s[|s| - 2] == '=' then 1 else 0
  }

  lemma {:induction false} QuadValues(a: Byte, b: Byte, c: Byte)
    ensures var q := Quad(a, b, c);
      && (forall i | 0 <= i < 4 :: InAlphabet(q[i]) && q[i] != '=')
      && Value(q[0]) == a / 4 && Value(q[1]) == a % 4 * 16 + b / 16
      && Value(q[2]) == b % 16 * 4 + c / 64 && Value(q[3]) == c % 64
  {
    hide Letter, Value, InAlphabet;
    TablesAreInverse(a / 4, 'A');
    TablesAreInverse(a % 4 * 16 + b / 16, 'A');
    TablesAreInverse(b % 16 * 4 + c / 64, 'A');
    TablesAreInverse(c % 64, 'A');
  }

  lemma {:induction false} QuadDecodes(a: Byte, b: Byte, c: Byte)
    ensures var q := Quad(a, b, c);
      && (forall i | 0 <= i < 4 :: InAlphabet(q[i]) && q[i] != '=')
      && Triple(Value(q[0]), Value(q[1]), Value(q[2]), Value(q[3])) == [a, b, c]
  {
    hide Letter, Value, InAlphabet, Quad;
    QuadValues(a, b, c);
    Split16(a % 4, b / 16);
    Split4(b % 16, c / 64);
  }

  /** Decoding undoes encoding, on every byte string. */
  lemma {:induction false} DecodeEncode(d: seq<Byte>)
    ensures WellFormed(Encode(d)) && Canonical(Encode(d)) && Decode(Encode(d)) == d
  {
    hide Letter, Quad, WellFormed, Canonical, Decode;
    if d == [] {
      NothingDecodes();
    } else if |d| == 1 {
      DecodeEncodeOne(d[0]);
      assert d == [d[0]];
    } else if |d| == 2 {
      DecodeEncodeTwo(d[0], d[1]);
      assert d == [d[0], d[1]];
    } else {
      DecodeEncode(d[3..]);
      DecodeQuad(d[0], d[1], d[2], d[3..]);
      assert [d[0], d[1], d[2]] + d[3..] == d;
    }
  }

  lemma {:induction false} NothingDecodes()
    ensures Encode([]) == "" && WellFormed("") && Canonical("") && Decode("") == []
  {
  }

  lemma {:induction false} DecodeQuad(a: Byte, b: Byte, c: Byte, rest: seq<Byte>)
    requires WellFormed(Encode(rest)) && Canonical(Encode(rest)) && Decode(Encode(rest)) == rest
    ensures var s := Quad(a, b, c) + Encode(rest); WellFormed(s) && Canonical(s) && Decode(s) == [a, b, c] + rest
  {
    hide Letter, Value, InAlphabet, Encode, Quad, Triple;
    QuadDecodes(a, b, c);
    var q, s := Quad(a, b, c), Quad(a, b, c) + Encode(rest);
    QuadSize(a, b, c);
    assert s[4..] == Encode(rest);
    assert s[0] == q[0] && s[1] == q[1] && s[2] == q[2] && s[3] == q[3];
  }

  lemma {:induction false} QuadSize(a: Byte, b: Byte, c: Byte)
    ensures |Quad(a, b, c)| == 4
  {
  }

  lemma {:induction false} DecodeEncodeOne(a: Byte)
    ensures var s := Encode([a]); WellFormed(s) && Canonical(s) && Decode(s) == [a]
  {
    hide Letter, Value, InAlphabet;
    TablesAreInverse(a / 4, 'A');
    TablesAreInverse(a % 4 * 16, 'A');
    Split16(a % 4, 0);
  }

  lemma {:induction false} DecodeEncodeTwo(a: Byte, b: Byte)
    ensures var s := Encode([a, b]); WellFormed(s) && Canonical(s) && Decode(s) == [a, b]
  {
    hide Letter, Value, InAlphabet;
    TablesAreInverse(a / 4, 'A');
    TablesAreInverse(a % 4 * 16 + b / 16, 'A');
    TablesAreInverse(b % 16 * 4, 'A');
    Split16(a % 4, b / 16);
    Split4(b % 16, 0);
  }

  lemma {:induction false} TripleEncodes(p: Sextet, q: Sextet, r: Sextet, t: Sextet)
    ensures var d := Triple(p, q, r, t); Quad(d[0], d[1], d[2]) == [Letter(p), Letter(q), Letter(r), Letter(t)]
  {
    hide Letter;
    Split4(p, q / 16);
    Split16(q % 16, r / 4);
    Split64(r % 4, t);
  }

  /** Encoding undoes decoding exactly on the canonical strings. */
  lemma {:induction false} EncodeDecode(s: string)
    requires WellFormed(s)
    ensures Encode(Decode(s)) == s <==> Canonical(s)
  {
    hide Letter, Value, Triple, Quad;
    if s == "" {
    } else if s[3] != '=' {
      EncodeDecode(s[4..]);
      EncodeDecodeQuad(s);
    } else {
      LastGroup(s);
    }
  }

  lemma {:induction false} EncodeDecodeQuad(s: string)
    requires WellFormed(s) && s != "" && s[3] != '='
    ensures WellFormed(s[4..]) && Encode(Decode(s)) == s[..4] + Encode(Decode(s[4..]))
    ensures Encode(Decode(s)) == s <==> Encode(Decode(s[4..])) == s[4..]
    ensures Canonical(s) <==> Canonical(s[4..])
  {
    hide Letter, Value;
    var p, q, r, t := Value(s[0]), Value(s[1]), Value(s[2]), Value(s[3]);
    TripleEncodes(p, q, r, t);
    TablesAreInverse(0, s[0]);
    TablesAreInverse(0, s[1]);
    TablesAreInverse(0, s[2]);
    TablesAreInverse(0, s[3]);
    EncodeAppend(Triple(p, q, r, t), Decode(s[4..]));
    Prefixed(s, Encode(Decode(s[4..])));
  }

  lemma {:induction false} EncodeAppend(d: seq<Byte>, rest: seq<Byte>)
    requires |d| == 3
    ensures Encode(d + rest) == Quad(d[0], d[1], d[2]) + Encode(rest)
  {
    assert (d + rest)[3..] == rest;
  }

  lemma {:induction false} Prefixed(s: string, e: string)
    requires |s| >= 4
    ensures s[..4] + e == s <==> e == s[4..]
  {
    assert (s[..4] + e)[4..] == e;
    assert s[..4] + s[4..] == s;
  }

  lemma {:induction false} LastGroup(s: string)
    requires WellFormed(s) && |s| == 4 && s[3] == '='
    ensures Encode(Decode(s)) == s <==> Canonical(s)
  {
    hide Letter, Value, InAlphabet, Encode, Decode;
    if s[2] != '=' { LastTwoBytes(s); } else { LastByte(s); }
  }

  /** Two characters carry the last byte; the low bits of the second are lost. */
  lemma {:induction false} LastByte(s: string)
    requires WellFormed(s) && |s| == 4 && s[3] == '=' && s[2] == '='
    ensures Encode(Decode(s)) == s <==> Value(s[1]) % 16 == 0
  {
    hide Letter, Value, InAlphabet;
    var p, q := Value(s[0]), Value(s[1]);
    TablesAreInverse(p, s[0]);
    TablesAreInverse(q / 16 * 16, s[1]);
    Split4(p, q / 16);
    assert Encode(Decode(s)) == [s[0], Letter(q / 16 * 16), '=', '='];
  }

  /** Three characters carry the last two bytes; the low bits of the third are lost. */
  lemma {:induction false} LastTwoBytes(s: string)
    requires WellFormed(s) && |s| == 4 && s[3] == '=' && s[2] != '='
    ensures Encode(Decode(s)) == s <==> Value(s[2]) % 4 == 0
  {
    hide Letter, Value, InAlphabet;
    var p, q, r := Value(s[0]), Value(s[1]), Value(s[2]);
    TablesAreInverse(p, s[0]);
    TablesAreInverse(q, s[1]);
    TablesAreInverse(r / 4 * 4, s[2]);
    Split4(p, q / 16);
    Split16(q % 16, r / 4);
    assert Encode(Decode(s)) == [s[0], s[1], Letter(r / 4 * 4), '='];
  }

  /** Different byte strings have different encodings, so that encoded columns can be compared for equality. */
  lemma {:induction false} EncodeInjective(d: seq<Byte>, e: seq<Byte>)
    requires Encode(d) == Encode(e)
    ensures d == e
  {
    DecodeEncode(d);
    DecodeEncode(e);
  }

  // ----- The same, as a change of base -----

  /** The bytes read as one big-endian number. */
  function Number(d: seq<Byte>): nat {
    if d == [] then 0 else Number(d[..|d| - 1]) * 256 + d[|d| - 1]
  }

  /** The last `m` digits of a number in base 64. */
  function Digits(n: nat, m: nat): (v: seq<Sextet>)
    ensures |v| == m
  {
    if m == 0 then [] else Digits(n / 64, m - 1) + [n % 64]
  }

  function Letters(v: seq<Sextet>): (s: string)
    ensures |s| == |v| && forall i | 0 <= i < |v| :: s[i] == Letter(v[i])
  {
    seq(|v|, i requires 0 <= i < |v| => Letter(v[i]))
  }

  lemma {:induction false} DigitsStep(n: nat, t: Sextet, m: nat)
    ensures Digits(n * 64 + t, m + 1) == Digits(n, m) + [t]
  {
    Split64(n, t);
  }

  lemma {:induction false} DigitsOfTriple(n: nat, a: Byte, b: Byte, c: Byte, m: nat)
    ensures Digits(n * 0x100_0000 + a * 0x10000 + b * 0x100 + c, m + 4) ==
      Digits(n, m) + [a / 4, a % 4 * 16 + b / 16, b % 16 * 4 + c / 64, c % 64]
  {
    var p, q, r, t := a / 4, a % 4 * 16 + b / 16, b % 16 * 4 + c / 64, c % 64;
    DigitsStep(n, p, m);
    DigitsStep(n * 64 + p, q, m + 1);
    DigitsStep((n * 64 + p) * 64 + q, r, m + 2);
    DigitsStep(((n * 64 + p) * 64 + q) * 64 + r, t, m + 3);
    assert (((n * 64 + p) * 64 + q) * 64 + r) * 64 + t == n * 0x100_0000 + a * 0x10000 + b * 0x100 + c;
    assert Digits(n, m) + [p] + [q] + [r] + [t] == Digits(n, m) + [p, q, r, t];
  }

  lemma {:induction false} NumberOfThree(d: seq<Byte>, a: Byte, b: Byte, c: Byte)
    ensures Number(d + [a, b, c]) == Number(d) * 0x100_0000 + a * 0x10000 + b * 0x100 + c
  {
    var x, y, z := d + [a], d + [a, b], d + [a, b, c];
    assert z[..|d| + 2] == y && y[..|d| + 1] == x && x[..|d|] == d;
    assert Number(z) == Number(y) * 256 + c && Number(y) == Number(x) * 256 + b && Number(x) == Number(d) * 256 + a;
  }

  /** Encoding splits behind whole groups. */
  lemma {:induction false} EncodeSplits(d: seq<Byte>, k: nat, g: seq<Byte>)
    requires |d| == 3 * k
    ensures Encode(d + g) == Encode(d) + Encode(g)
  {
    hide Letter, Quad, Encode;
    if k == 0 {
      assert d == [] && d + g == g;
      NothingEncoded();
      assert "" + Encode(g) == Encode(g);
    } else {
      EncodeSplits(d[3..], k - 1, g);
      assert (d + g)[3..] == d[3..] + g && d[0..] == d && (d + g)[0..] == d + g;
      EncodeQuad(d, 0);
      EncodeQuad(d + g, 0);
      Assoc(Quad(d[0], d[1], d[2]), Encode(d[3..]), Encode(g));
    }
  }

  /** On whole groups, encoding writes the number in base 64. */
  lemma {:induction false} EncodeWhole(d: seq<Byte>, k: nat)
    requires |d| == 3 * k
    ensures Encode(d) == Letters(Digits(Number(d), 4 * k))
  {
    hide Letter, Number, Digits, Encode;
    if k == 0 {
      assert d == [];
      NothingEncoded();
    } else {
      var n := |d| - 3;
      var front, a, b, c := d[..n], d[n], d[n + 1], d[n + 2];
      assert d == front + [a, b, c];
      EncodeWhole(front, k - 1);
      EncodeSplits(front, k - 1, [a, b, c]);
      EncodeAppend([a, b, c], []);
      assert [a, b, c] + [] == [a, b, c];
      NothingEncoded();
      NumberOfThree(front, a, b, c);
      DigitsOfTriple(Number(front), a, b, c, 4 * k - 4);
      QuadLetters(Digits(Number(front), 4 * k - 4), a, b, c);
    }
  }

  lemma {:induction false} QuadLetters(v: seq<Sextet>, a: Byte, b: Byte, c: Byte)
    ensures Letters(v + [a / 4, a % 4 * 16 + b / 16, b % 16 * 4 + c / 64, c % 64]) == Letters(v) + Quad(a, b, c)
  {
    hide Letter;
  }

  /** How many bytes are missing in the last group. */
  function Missing(d: seq<Byte>): (n: nat)
    ensures n < 3
  {
    (3 - |d| % 3) % 3
  }

  function Zeros(n: nat): seq<Byte>
    requires n < 3
  {
    if n == 0 then [] else if n == 1 then [0] else [0, 0]
  }

  /** With zeros for the missing bytes, the last letters change only. */
  lemma {:induction false} EncodeWithZeros(d: seq<Byte>)
    ensures var m, pad, z := |Encode(d)|, Missing(d), Encode(d + Zeros(Missing(d)));
      && |z| == m >= pad && Encode(d)[..m - pad] == z[..m - pad]
      && forall k | m - pad <= k < m :: Encode(d)[k] == '='
  {
    hide Letter, Encode;
    var k, zeros := |d| / 3, Zeros(Missing(d));
    var front, g := d[..3 * k], d[3 * k..];
    assert d == front + g && d + zeros == front + (g + zeros);
    EncodeSplits(front, k, g);
    EncodeSplits(front, k, g + zeros);
    if |g| == 1 {
      assert g == [g[0]] && g + zeros == [g[0], 0, 0];
      GroupOfOne(g[0]);
      SamePrefix(Encode(front), Encode(g), Encode(g + zeros), 2);
    } else if |g| == 2 {
      assert g == [g[0], g[1]] && g + zeros == [g[0], g[1], 0];
      GroupOfTwo(g[0], g[1]);
      SamePrefix(Encode(front), Encode(g), Encode(g + zeros), 3);
    } else {
      assert d + zeros == d;
    }
  }

  lemma {:induction false} SamePrefix(a: string, b: string, c: string, n: nat)
    requires n <= |b| && n <= |c| && b[..n] == c[..n]
    ensures (a + b)[..|a| + n] == (a + c)[..|a| + n]
  {
    assert (a + b)[..|a| + n] == a + b[..n] && (a + c)[..|a| + n] == a + c[..n];
  }

  lemma {:induction false} GroupOfOne(a: Byte)
    ensures |Encode([a])| == |Encode([a, 0, 0])| == 4 && Encode([a])[..2] == Encode([a, 0, 0])[..2]
    ensures Encode([a])[2] == Encode([a])[3] == '='
  {
    hide Letter;
  }

  lemma {:induction false} GroupOfTwo(a: Byte, b: Byte)
    ensures |Encode([a, b])| == |Encode([a, b, 0])| == 4 && Encode([a, b])[..3] == Encode([a, b, 0])[..3]
    ensures Encode([a, b])[3] == '='
  {
    hide Letter;
  }

  /** The k-th character of the encoding: the k-th base-64 digit of the bytes, filled up with zeros, or padding. */
  lemma {:induction false} EncodeIsPositional(d: seq<Byte>, k: nat)
    requires k < |Encode(d)|
    ensures var m, pad := |Encode(d)|, Missing(d);
      Encode(d)[k] ==
        if k < m - pad
        then "ABCDEFGHIJKLMNOPQRSTUVWXYZabcdefghijklmnopqrstuvwxyz0123456789+/"
               [Digits(Number(d + Zeros(pad)), m)[k]]
        else '='
  {
    hide Letter, Encode, Number, Digits;
    var m, z := |Encode(d)|, d + Zeros(Missing(d));
    EncodeWithZeros(d);
    EncodeWhole(z, |z| / 3);
    EncodedSize(d);
    if k < m - Missing(d) {
      assert Encode(d)[k] == Encode(d)[..m - Missing(d)][k] == Encode(z)[..m - Missing(d)][k];
      LetterIs(Digits(Number(z), m)[k]);
    }
  }

  predicate AllLetters(s: string) {
    forall i | 0 <= i < |s| :: InAlphabet(s[i])
  }

  /** The letters read as one number in base 64. */
  function LettersNumber(s: string): nat
    requires AllLetters(s)
  {
    if s == "" then 0 else LettersNumber(s[..|s| - 1]) * 64 + Value(s[|s| - 1])
  }

  lemma {:induction false} LettersStep(s: string, c: char)
    requires AllLetters(s) && InAlphabet(c)
    ensures AllLetters(s + [c]) && LettersNumber(s + [c]) == LettersNumber(s) * 64 + Value(c)
  {
    hide InAlphabet, Value;
    assert (s + [c])[..|s|] == s;
  }

  lemma {:induction false} BytesStep(d: seq<Byte>, b: Byte)
    ensures Number(d + [b]) == Number(d) * 256 + b
  {
    assert (d + [b])[..|d|] == d;
  }

  /** Decoding splits behind whole groups of letters. */
  lemma {:induction false} DecodeSplits(s: string, g: string)
    requires AllLetters(s) && |s| % 4 == 0 && |g| == 4 && WellFormed(g)
    ensures WellFormed(s) && WellFormed(s + g) && Decode(s + g) == Decode(s) + Decode(g)
  {
    hide Value, Triple, InAlphabet;
    if s == "" {
      assert s + g == g && Decode(s) + Decode(g) == Decode(g);
    } else {
      DecodeSplits(s[4..], g);
      assert (s + g)[4..] == s[4..] + g;
      assert forall i | 0 <= i < 4 :: (s + g)[i] == s[i];
      NotPadding(s[3]);
      if |s| == 4 { assert s[4..] == ""; }
    }
  }

  lemma {:induction false} NotPadding(c: char)
    ensures InAlphabet(c) ==> c != '='
  {
  }

  lemma {:induction false} WholeNumber(s: string)
    requires AllLetters(s) && |s| % 4 == 0
    ensures WellFormed(s) && Number(Decode(s)) == LettersNumber(s)
  {
    hide Value, InAlphabet, Number, LettersNumber, WellFormed, Decode;
    if s == "" {
      NothingRead();
    } else {
      var front, g := s[..|s| - 4], s[|s| - 4..];
      assert s == front + g;
      WholeNumber(front);
      FourLetters(g);
      DecodeSplits(front, g);
      ReadFour(front, g);
      NumberOfTriple(Decode(front), Value(g[0]), Value(g[1]), Value(g[2]), Value(g[3]));
    }
  }

  lemma {:induction false} NumberOfTriple(d: seq<Byte>, p: Sextet, q: Sextet, r: Sextet, t: Sextet)
    ensures Number(d + Triple(p, q, r, t)) == Number(d) * 0x100_0000 + p * 0x40000 + q * 0x1000 + r * 0x40 + t
  {
    hide Number;
    var a: Byte, b: Byte, c: Byte := p * 4 + q / 16, q % 16 * 16 + r / 4, r % 4 * 64 + t;
    assert Triple(p, q, r, t) == [a, b, c];
    NumberOfThree(d, a, b, c);
  }

  lemma {:induction false} NothingRead()
    ensures WellFormed("") && Number(Decode("")) == 0 && LettersNumber("") == 0
  {
  }

  lemma {:induction false} FourLetters(g: string)
    requires AllLetters(g) && |g| == 4
    ensures WellFormed(g) && Decode(g) == Triple(Value(g[0]), Value(g[1]), Value(g[2]), Value(g[3]))
  {
    hide Value, Triple;
    assert g[4..] == "";
  }

  lemma {:induction false} ReadFour(s: string, g: string)
    requires AllLetters(s) && AllLetters(g) && |g| == 4
    ensures LettersNumber(s + g) == LettersNumber(s) * 0x100_0000
      + Value(g[0]) * 0x40000 + Value(g[1]) * 0x1000 + Value(g[2]) * 0x40 + Value(g[3])
  {
    hide InAlphabet, Value, LettersNumber;
    LettersStep(s, g[0]);
    LettersStep(s + [g[0]], g[1]);
    LettersStep(s + [g[0]] + [g[1]], g[2]);
    LettersStep(s + [g[0]] + [g[1]] + [g[2]], g[3]);
    assert s + [g[0]] + [g[1]] + [g[2]] + [g[3]] == s + g;
  }

  /** The decoded bytes are the number that the letters stand for, without the bits that padding leaves over. */
  lemma {:induction false} DecodeIsPositional(s: string)
    requires WellFormed(s)
    ensures Padding(s) <= 2 && AllLetters(s[..|s| - Padding(s)])
    ensures Padding(s) == 0 ==> Number(Decode(s)) == LettersNumber(s)
    ensures Padding(s) == 1 ==> Number(Decode(s)) == LettersNumber(s[..|s| - 1]) / 4
    ensures Padding(s) == 2 ==> Number(Decode(s)) == LettersNumber(s[..|s| - 2]) / 16
  {
    hide Value, InAlphabet, Number, LettersNumber, Decode, Padding, WellFormed;
    NothingToDecode();
    WellFormedEnds(s);
    if Padding(s) == 0 {
      assert s[..|s|] == s;
      WholeNumber(s);
    } else {
      var front, g := s[..|s| - 4], s[|s| - 4..];
      assert s == front + g;
      WholeNumber(front);
      DecodeSplits(front, g);
      if Padding(s) == 1 {
        ThreeLetters(front, g);
        assert s[..|s| - 1] == front + g[..3];
      } else {
        TwoLetters(front, g);
        assert s[..|s| - 2] == front + g[..2];
      }
    }
  }

  /** What precedes the last group are letters. */
  lemma {:induction false} LastFour(s: string)
    requires WellFormed(s) && s != ""
    ensures |s| % 4 == 0 && |s| >= 4 && AllLetters(s[..|s| - 4]) && WellFormed(s[|s| - 4..])
  {
    hide InAlphabet;
    if |s| > 4 {
      LastFour(s[4..]);
      assert s[4..][|s| - 8..] == s[|s| - 4..];
      assert s[..|s| - 4] == s[..4] + s[4..][..|s| - 8];
    } else {
      assert s[0..] == s;
    }
  }

  lemma {:induction false} GroupEnds(g: string)
    requires WellFormed(g) && |g| == 4
    ensures Padding(g) <= 2 && AllLetters(g[..4 - Padding(g)])
  {
    NotPadding(g[2]);
    NotPadding(g[3]);
  }

  lemma {:induction false} WellFormedEnds(s: string)
    requires WellFormed(s)
    ensures |s| % 4 == 0 && Padding(s) <= |s| && AllLetters(s[..|s| - Padding(s)])
    ensures s != "" ==>
      && |s| >= 4 && AllLetters(s[..|s| - 4]) && WellFormed(s[|s| - 4..]) && Padding(s[|s| - 4..]) == Padding(s) <= 2
  {
    hide InAlphabet, WellFormed;
    if s == "" {
    } else {
      LastFour(s);
      var front, g := s[..|s| - 4], s[|s| - 4..];
      assert g[3] == s[|s| - 1] && g[2] == s[|s| - 2];
      GroupEnds(g);
      assert s[..|s| - Padding(s)] == front + g[..4 - Padding(g)];
    }
  }

  lemma {:induction false} ThreeLetters(front: string, g: string)
    requires AllLetters(front) && WellFormed(front) && |g| == 4 && WellFormed(g) && Padding(g) == 1
    requires Number(Decode(front)) == LettersNumber(front)
    ensures AllLetters(g[..3]) && AllLetters(front + g[..3])
    ensures g[2] != '=' && Number(Decode(front) + Decode(g)) == LettersNumber(front + g[..3]) / 4
  {
    hide Value, Number, LettersNumber;
    var d := Decode(g);
    LettersStep(front, g[0]);
    LettersStep(front + [g[0]], g[1]);
    LettersStep(front + [g[0]] + [g[1]], g[2]);
    assert front + [g[0]] + [g[1]] + [g[2]] == front + g[..3];
    BytesStep(Decode(front), d[0]);
    BytesStep(Decode(front) + [d[0]], d[1]);
    assert Decode(front) + [d[0]] + [d[1]] == Decode(front) + d;
    ThreeDigits(Number(Decode(front)), Value(g[0]), Value(g[1]), Value(g[2]));
  }

  lemma {:induction false} ThreeDigits(n: nat, p: Sextet, q: Sextet, r: Sextet)
    ensures (n * 256 + p * 4 + q / 16) * 256 + (q % 16 * 16 + r / 4) == (((n * 64 + p) * 64 + q) * 64 + r) / 4
  {
    Split4((n * 256 + p * 4 + q / 16) * 256 + (q % 16 * 16 + r / 4), r % 4);
  }

  lemma {:induction false} TwoLetters(front: string, g: string)
    requires AllLetters(front) && WellFormed(front) && |g| == 4 && WellFormed(g) && Padding(g) == 2
    requires Number(Decode(front)) == LettersNumber(front)
    ensures AllLetters(g[..2]) && AllLetters(front + g[..2])
    ensures Number(Decode(front) + Decode(g)) == LettersNumber(front + g[..2]) / 16
  {
    hide Value, Number, LettersNumber;
    var d := Decode(g);
    LettersStep(front, g[0]);
    LettersStep(front + [g[0]], g[1]);
    assert front + [g[0]] + [g[1]] == front + g[..2];
    BytesStep(Decode(front), d[0]);
    assert d == [d[0]];
    TwoDigits(Number(Decode(front)), Value(g[0]), Value(g[1]));
  }

  lemma {:induction false} TwoDigits(n: nat, p: Sextet, q: Sextet)
    ensures n * 256 + p * 4 + q / 16 == ((n * 64 + p) * 64 + q) / 16
  {
    Split16(n * 256 + p * 4 + q / 16, q % 16);
  }

  // ----- The two loops -----

  lemma {:induction false} EncodeQuad(d: seq<Byte>, i: nat)
    requires i + 3 <= |d|
    ensures Encode(d[i..]) == Quad(d[i], d[i + 1], d[i + 2]) + Encode(d[i + 3..])
  {
    assert d[i..][3..] == d[i + 3..];
  }

  /** Shifting and masking a 24-bit triple gives the four sextets. */
  lemma {:induction false} TripleBits(a: Byte, b: Byte, c: Byte)
    ensures var t := a * 0x10000 + b * 0x100 + c;
      && t / 0x40000 % 64 == a / 4 && t / 0x1000 % 64 == a % 4 * 16 + b / 16
      && t / 0x40 % 64 == b % 16 * 4 + c / 64 && t % 64 == c % 64
  {
    TopBits(a / 4, a % 4 * 0x10000 + b * 0x100 + c);
    SecondBits(a / 4, a % 4 * 16 + b / 16, b % 16 * 0x100 + c);
    ThirdBits(a * 16 + b / 16, b % 16 * 4 + c / 64, c % 64);
  }

  lemma {:induction false} TopBits(x: nat, rest: nat)
    requires x < 64 && rest < 0x40000
    ensures (x * 0x40000 + rest) / 0x40000 % 64 == x
  {
  }

  lemma {:induction false} SecondBits(high: nat, x: nat, rest: nat)
    requires x < 64 && rest < 0x1000
    ensures (high * 0x40000 + x * 0x1000 + rest) / 0x1000 % 64 == x
  {
    assert (high * 0x40000 + x * 0x1000 + rest) / 0x1000 == high * 64 + x;
  }

  lemma {:induction false} ThirdBits(high: nat, x: nat, low: nat)
    requires x < 64 && low < 64
    ensures (high * 0x1000 + x * 64 + low) / 64 % 64 == x && (high * 0x1000 + x * 64 + low) % 64 == low
  {
    assert (high * 0x1000 + x * 64 + low) / 64 == high * 64 + x;
  }

  /** One full group of three bytes. */
  method PutQuad(out: array<char>, o: nat, a: Byte, b: Byte, c: Byte)
    requires o + 4 <= out.Length
    modifies out
    ensures out[..o + 4] == old(out[..o]) + Quad(a, b, c)
  {
    hide Letter;
    TripleBits(a, b, c);
    var triple := a * 0x10000 + b * 0x100 + c;
    out[o] := Letter(triple / 0x40000 % 64);
    out[o + 1] := Letter(triple / 0x1000 % 64);
    out[o + 2] := Letter(triple / 0x40 % 64);
    out[o + 3] := Letter(triple % 64);
  }

  /** The last one or two bytes, with padding. */
  method PutTail(out: array<char>, o: nat, data: seq<Byte>)
    requires |data| % 3 != 0 && o + 4 <= out.Length
    modifies out
    ensures out[..o + 4] == old(out[..o]) + Encode(data[|data| / 3 * 3..])
  {
    hide Letter;
    var len := |data|;
    if len % 3 == 1 {
      assert data[len / 3 * 3..] == [data[len - 1]];
      out[o] := Letter(data[len - 1] / 4);
      out[o + 1] := Letter(data[len - 1] % 4 * 16);
      out[o + 2] := '=';
      out[o + 3] := '=';
    } else {
      assert data[len / 3 * 3..] == [data[len - 2], data[len - 1]];
      out[o] := Letter(data[len - 2] / 4);
      out[o + 1] := Letter(data[len - 2] % 4 * 16 + data[len - 1] / 16);
      out[o + 2] := Letter(data[len - 1] % 16 * 4);
      out[o + 3] := '=';
    }
  }

  lemma {:induction false} Assoc<T>(a: seq<T>, b: seq<T>, c: seq<T>)
    ensures a + (b + c) == (a + b) + c
  {
  }

  method EncodeBuffer(data: seq<Byte>) returns (out: array<char>, size: nat)
    ensures size == (|data| + 2) / 3 * 4 && out.Length == size + 1
    ensures out[..size] == Encode(data) && out[size] == '\0'
  {
    hide Letter, Quad, Encode;
    var len := |data|;
    size := (len + 2) / 3 * 4;
    out := new char[size + 1](_ => '\0');
    var o, i := 0, 0;
    ghost var done: string, k := "", 0;
    assert data[0..] == data;
    while len - i > 2
      invariant 0 <= i == 3 * k <= len && o == 4 * k <= size
      invariant out[..o] == done && done + Encode(data[i..]) == Encode(data)
    {
      EncodeQuad(data, i);
      PutQuad(out, o, data[i], data[i + 1], data[i + 2]);
      Assoc(done, Quad(data[i], data[i + 1], data[i + 2]), Encode(data[i + 3..]));
      done := done + Quad(data[i], data[i + 1], data[i + 2]);
      o := o + 4;
      i := i + 3;
      k := k + 1;
    }
    if len % 3 != 0 {
      assert i == len / 3 * 3;
      PutTail(out, o, data);
      o := o + 4;
    } else {
      assert data[i..] == [];
      NothingEncoded();
    }
    assert o == size;
    assert out[..o] == Encode(data);
    out[size] := '\0';
  }

  lemma {:induction false} NothingEncoded()
    ensures Encode([]) == ""
  {
  }

  // ----- Decoding -----

  /** One full group of four letters: the or of shifted values that share no bits is their sum. */
  method PutTriple(dst: array<int>, o: nat, s: string, i: nat)
    requires o + 3 <= dst.Length && i + 4 <= |s| && forall k | i <= k < i + 4 :: InAlphabet(s[k])
    modifies dst
    ensures dst[..o + 3] == old(dst[..o]) + Triple(Value(s[i]), Value(s[i + 1]), Value(s[i + 2]), Value(s[i + 3]))
  {
    hide Value, InAlphabet, Triple;
    SextetBytes(Value(s[i]), Value(s[i + 1]), Value(s[i + 2]), Value(s[i + 3]));
    var triple := Value(s[i]) * 0x40000 + Value(s[i + 1]) * 0x1000 + Value(s[i + 2]) * 0x40 + Value(s[i + 3]);
    dst[o] := triple / 0x10000 % 256;
    dst[o + 1] := triple / 0x100 % 256;
    dst[o + 2] := triple % 256;
    assert dst[..o + 3] == old(dst[..o]) + [dst[o], dst[o + 1], dst[o + 2]];
  }

  lemma {:induction false} SextetBytes(p: Sextet, q: Sextet, r: Sextet, t: Sextet)
    ensures var x := p * 0x40000 + q * 0x1000 + r * 0x40 + t;
      Triple(p, q, r, t) == [x / 0x10000 % 256, x / 0x100 % 256, x % 256]
  {
    ByteAt(0, p * 4 + q / 16, q % 16 * 0x1000 + r * 0x40 + t);
    LowByteAt(p * 4 + q / 16, q % 16 * 16 + r / 4, r % 4 * 64 + t);
  }

  lemma {:induction false} ByteAt(high: nat, x: nat, rest: nat)
    requires x < 256 && rest < 0x10000
    ensures (high * 0x1000000 + x * 0x10000 + rest) / 0x10000 % 256 == x
  {
    assert (high * 0x1000000 + x * 0x10000 + rest) / 0x10000 == high * 256 + x;
  }

  lemma {:induction false} LowByteAt(high: nat, x: nat, low: nat)
    requires x < 256 && low < 256
    ensures (high * 0x10000 + x * 0x100 + low) / 0x100 % 256 == x && (high * 0x10000 + x * 0x100 + low) % 256 == low
  {
    assert (high * 0x10000 + x * 0x100 + low) / 0x100 == high * 256 + x;
  }

  /** The exact size of the decoded bytes, and the text without its padding. */
  method StripPadding(src: string) returns (dstLen: nat, stripped: nat)
    requires WellFormed(src) && src != ""
    ensures stripped == |src| - Padding(src) && dstLen == |src| / 4 * 3 - Padding(src)
  {
    LastTwo(src);
    dstLen := |src| / 4 * 3;
    stripped := |src|;
    if src[|src| - 1] == '=' {
      dstLen := dstLen - 1;
      stripped := stripped - 1;
    }
    if src[|src| - 2] == '=' {
      dstLen := dstLen - 1;
      stripped := stripped - 1;
    }
  }

  method DecodeBuffer(src: string) returns (dst: array<int>, dstLen: nat)
    requires WellFormed(src) && src != ""
    ensures dst.Length == dstLen + 1 && dst[dstLen] == 0
    ensures dst[..dstLen] == Decode(src) && dstLen == |src| / 4 * 3 - Padding(src)
  {
    hide Value, InAlphabet, Triple, Decode, WellFormed, Padding;
    LastTwo(src);
    ghost var groups, k := |src| / 4, 0;
    var stripped;
    dstLen, stripped := StripPadding(src);
    dst := new int[dstLen + 1](_ => 0);
    var o, i := 0, 0;
    ghost var done: seq<Byte> := [];
    assert src[0..] == src;
    while stripped - i > 3
      invariant 0 <= i == 4 * k <= stripped && o == 3 * k <= dstLen && WellFormed(src[i..])
      invariant dst[..o] == done && done + Decode(src[i..]) == Decode(src)
    {
      FullGroup(src, i, stripped);
      RoomForGroup(groups, k, |src| - stripped);
      PutTriple(dst, o, src, i);
      Assoc(done, Triple(Value(src[i]), Value(src[i + 1]), Value(src[i + 2]), Value(src[i + 3])), Decode(src[i + 4..]));
      done := done + Triple(Value(src[i]), Value(src[i + 1]), Value(src[i + 2]), Value(src[i + 3]));
      o := o + 3;
      i := i + 4;
      k := k + 1;
    }
    o := PutLast(dst, o, src, i, stripped);
    assert o == dstLen;
    dst[o] := 0;
  }

  /** The group with padding, if there is one, holds one or two bytes. */
  method PutLast(dst: array<int>, o: nat, src: string, i: nat, stripped: nat) returns (end: nat)
    requires i <= stripped <= i + 3 && stripped == |src| - Padding(src) && |src| >= 4
    requires i % 4 == |src| % 4 == 0 && WellFormed(src[i..]) && (src[|src| - 2] == '=' ==> src[|src| - 1] == '=')
    requires o + 2 <= dst.Length || (o < dst.Length && Padding(src) != 1)
    modifies dst
    ensures end == o + |Decode(src[i..])| <= dst.Length && dst[..end] == old(dst[..o]) + Decode(src[i..])
    ensures end == o + if Padding(src) == 0 then 0 else 3 - Padding(src)
  {
    hide Value, InAlphabet, Decode, WellFormed;
    PaddedGroup(src, i, stripped);
    var paddingLen := |src| - stripped;
    end := o;
    if paddingLen == 1 {
      dst[o] := Value(src[stripped - 3]) * 4 + Value(src[stripped - 2]) / 16 % 4;
      dst[o + 1] := Value(src[stripped - 2]) * 16 % 256 + Value(src[stripped - 1]) / 4;
      ShiftedByte(Value(src[stripped - 2]));
      end := o + 2;
    } else if paddingLen == 2 {
      dst[o] := Value(src[stripped - 2]) * 4 + Value(src[stripped - 1]) / 16 % 4;
      end := o + 1;
    }
  }

  lemma {:induction false} ShiftedByte(q: Sextet)
    ensures q * 16 % 256 == q % 16 * 16
  {
  }

  lemma {:induction false} RoomForGroup(groups: nat, k: nat, padding: nat)
    requires padding <= 2 && 4 * k + 3 < 4 * groups - padding
    ensures k * 3 + 3 <= groups * 3 - padding
  {
  }

  lemma {:induction false} LastTwo(s: string)
    requires WellFormed(s) && s != ""
    ensures |s| >= 4 && |s| % 4 == 0 && (s[|s| - 2] == '=' ==> s[|s| - 1] == '=') && Padding(s) <= 2
  {
    if |s| > 4 { LastTwo(s[4..]); }
  }

  /** While more than three characters are left, the next four are letters. */
  lemma {:induction false} FullGroup(s: string, i: nat, stripped: nat)
    requires i + 3 < stripped == |s| - Padding(s) && i % 4 == |s| % 4 == 0 && WellFormed(s[i..])
    ensures forall k | i <= k < i + 4 :: InAlphabet(s[k])
    ensures WellFormed(s[i + 4..])
    ensures Decode(s[i..]) ==
      Triple(Value(s[i]), Value(s[i + 1]), Value(s[i + 2]), Value(s[i + 3])) + Decode(s[i + 4..])
  {
    var g := s[i..];
    assert g[4..] == s[i + 4..];
    assert g[0] == s[i] && g[1] == s[i + 1] && g[2] == s[i + 2] && g[3] == s[i + 3];
  }

  /** What is left after the full groups: nothing, or one group with padding. */
  lemma {:induction false} PaddedGroup(s: string, i: nat, stripped: nat)
    requires i <= stripped <= i + 3 && stripped == |s| - Padding(s) && i % 4 == |s| % 4 == 0 && WellFormed(s[i..])
      && |s| >= 4
    requires s[|s| - 2] == '=' ==> s[|s| - 1] == '='
    ensures Padding(s) == 0 ==> i == |s| && Decode(s[i..]) == []
    ensures Padding(s) == 1 ==>
      && stripped == i + 3 && |s| == i + 4
      && InAlphabet(s[i]) && InAlphabet(s[i + 1]) && InAlphabet(s[i + 2])
      && Decode(s[i..]) == [Value(s[i]) * 4 + Value(s[i + 1]) / 16, Value(s[i + 1]) % 16 * 16 + Value(s[i + 2]) / 4]
    ensures Padding(s) == 2 ==>
      && stripped == i + 2 && |s| == i + 4
      && InAlphabet(s[i]) && InAlphabet(s[i + 1])
      && Decode(s[i..]) == [Value(s[i]) * 4 + Value(s[i + 1]) / 16]
  {
    hide Value;
    if i < |s| {
      var g := s[i..];
      assert g[0] == s[i] && g[1] == s[i + 1] && g[2] == s[i + 2] && g[3] == s[i + 3];
    }
  }
}
