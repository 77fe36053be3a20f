/** The C library's string operations that the server relies on. A byte is a `char`;
    a C string is the text in front of the first NUL of a character array. */
module CStrings {

  const NUL: char := '\0'

  /** tolower in the C locale. */
  function ToLower(c: char): char {
    if 'A' <= c <= 'Z' then (c as int + 32) as char else c
  }

  /** toupper in the C locale. */
  function ToUpper(c: char): char {
    if 'a' <= c <= 'z' then (c as int - 32) as char else c
  }

  /** strcasecmp(a, b) == 0 */
  predicate SameIgnoringCase(a: string, b: string) {
    |a| == |b| && forall i :: 0 <= i < |a| ==> ToLower(a[i]) == ToLower(b[i])
  }

  /** Two characters differ in case only: they are a capital letter and its small one. */
  lemma SameUpToCase(c: char, d: char)
    ensures ToLower(c) == ToLower(d)
            <==> || c == d
                 || ('A' <= c <= 'Z' && d as int == c as int + 32)
                 || ('A' <= d <= 'Z' && c as int == d as int + 32)
    ensures ToUpper(c) == ToUpper(d) <==> ToLower(c) == ToLower(d)
  {
  }

  /** strncasecmp(s, prefix, strlen(prefix)) == 0 */
  predicate HasPrefixIgnoringCase(s: string, prefix: string) {
    |prefix| <= |s| && SameIgnoringCase(s[..|prefix|], prefix)
  }

  /** A text begins with a prefix, ignoring case, exactly when it is a variant of the prefix followed by anything. */
  lemma PrefixMeans(s: string, prefix: string)
    ensures HasPrefixIgnoringCase(s, prefix) <==> exists p, rest :: s == p + rest && SameIgnoringCase(p, prefix)
  {
    if HasPrefixIgnoringCase(s, prefix) {
      assert s == s[..|prefix|] + s[|prefix|..];
    }
    if p, rest :| s == p + rest && SameIgnoringCase(p, prefix) {
      assert s[..|prefix|] == p;
    }
  }

  /** The C string held by an array with these characters. */
  function CStr(s: string): (r: string)
    ensures r <= s
    ensures NUL !in r
    ensures |r| < |s| ==> s[|r|] == NUL
  {
    if s == "" || s[0] == NUL then "" else [s[0]] + CStr(s[1..])
  }

  /** strchr: the first position of `c`, or -1 for NULL. */
  function StrChr(s: string, c: char): (i: int)
    ensures -1 <= i < |s|
    ensures i == -1 ==> c !in s
    ensures i >= 0 ==> s[i] == c && c !in s[..i]
  {
    if s == "" then -1
    else if s[0] == c then 0
    else
      var j := StrChr(s[1..], c);
      if j == -1 then -1 else assert s[..j + 1] == [s[0]] + s[1..][..j]; j + 1
  }

  /** strrchr: the last position of `c`, or -1 for NULL. */
  function StrRChr(s: string, c: char): (i: int)
    ensures -1 <= i < |s|
    ensures i == -1 ==> c !in s
    ensures i >= 0 ==> s[i] == c && c !in s[i + 1..]
  {
    if s == "" then -1
    else if s[|s| - 1] == c then |s| - 1
    else
      var j := StrRChr(s[..|s| - 1], c);
      assert s == s[..|s| - 1] + [s[|s| - 1]];
      if j == -1 then -1 else assert s[j + 1..] == s[..|s| - 1][j + 1..] + [s[|s| - 1]]; j
  }

  /** Concatenation of a list of texts. */
  function Concat(ss: seq<string>): string {
    if ss == [] then "" else ss[0] + Concat(ss[1..])
  }

  lemma {:induction false} ConcatSplit(a: seq<string>, b: seq<string>)
    ensures Concat(a + b) == Concat(a) + Concat(b)
  {
    if a == [] {
      assert a + b == b;
    } else {
      ConcatSplit(a[1..], b);
      assert (a + b)[1..] == a[1..] + b && (a + b)[0] == a[0];
      assert a[0] + (Concat(a[1..]) + Concat(b)) == (a[0] + Concat(a[1..])) + Concat(b);
    }
  }

  lemma ConcatSnoc(a: seq<string>, s: string)
    ensures Concat(a + [s]) == Concat(a) + s
  {
    ConcatSplit(a, [s]);
    assert Concat([s]) == s + Concat([]);
  }

  lemma CStrOfClean(s: string)
    requires NUL !in s
    ensures CStr(s) == s
  {
  }

  /** Only the text before a NUL counts. */
  lemma {:induction false} CStrStops(s: string, t: string)
    requires t != "" && t[0] == NUL
    ensures CStr(s + t) == CStr(s)
  {
    if s == "" {
      assert s + t == t;
    } else {
      CStrStops(s[1..], t);
      assert (s + t)[1..] == s[1..] + t;
    }
  }
}
