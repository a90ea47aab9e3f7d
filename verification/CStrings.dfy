/** Strings as C functions see them: the characters of a buffer up to the first NUL. */
module CStrings {

  predicate IsCString(buf: seq<char>, text: string) {
    |text| < |buf| && buf[..|text|] == text && buf[|text|] == '\0' && '\0' !in text
  }

  predicate StartsWith(s: string, prefix: string) {
    |prefix| <= |s| && s[..|prefix|] == prefix
  }

  /** What C functions see of a text that may contain NUL. */
  function UpToNul(s: string): (t: string)
    ensures '\0' !in t && |t| <= |s| && t == s[..|t|] && (|t| < |s| ==> s[|t|] == '\0')
    ensures '\0' !in s ==> t == s
  {
    if s == "" || s[0] == '\0' then "" else [s[0]] + UpToNul(s[1..])
  }

  /** The characters of a C string, one by one. */
  lemma {:induction false} CharAt(buf: seq<char>, text: string, i: nat)
    requires IsCString(buf, text) && i <= |text|
    ensures |text| < |buf|
    ensures buf[i] == if i < |text| then text[i] else '\0'
    ensures buf[i] == '\0' <==> i == |text|
  {
    assert i < |text| ==> buf[i] == buf[..|text|][i];
  }

  method StrLen(buf: array<char>, start: nat, ghost text: string) returns (n: nat)
    requires start <= buf.Length && IsCString(buf[start..], text)
    ensures n == |text|
  {
    n := 0;
    CharAt(buf[start..], text, 0);
    while buf[start + n] != '\0'
      invariant n <= |text| && (buf[start + n] == '\0' <==> n == |text|)
      decreases |text| - n
    {
      n := n + 1;
      CharAt(buf[start..], text, n);
    }
  }
}
