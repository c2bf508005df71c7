/** The string operations the routing code is written in. Case mapping and white space are those of ASCII. */
module Strings {
  import opened Bytes

  predicate StartsWith(s: string, t: string) {
    t <= s
  }

  predicate Contains(s: string, t: string) {
    exists i :: 0 <= i <= |s| && StartsWith(s[i..], t)
  }

  /** `s.indexOf(c, from)`: the first position of `c` at or behind `from`, or -1. */
  function IndexOf(s: string, c: char, from: nat): (i: int)
    ensures i == -1 || (from <= i < |s| && s[i] == c)
    ensures forall j :: from <= j < |s| && (i == -1 || j < i) ==> s[j] != c
    decreases |s| - from
  {
    if from >= |s| then -1 else if s[from] == c then from else IndexOf(s, c, from + 1)
  }

  /** `s.split(c)` for a single separator character: never empty. */
  function Split(s: string, c: char): (parts: seq<string>)
    ensures |parts| > 0
    decreases |s|
  {
    var i := IndexOf(s, c, 0);
    if i == -1 then [s] else [s[..i]] + Split(s[i + 1..], c)
  }

  /** `parts.join(c)` */
  function Join(parts: seq<string>, c: char): string {
    if parts == [] then "" else if |parts| == 1 then parts[0] else parts[0] + [c] + Join(parts[1..], c)
  }

  lemma {:induction false} JoinSplit(s: string, c: char)
    ensures Join(Split(s, c), c) == s
    decreases |s|
  {
    var i := IndexOf(s, c, 0);
    if i != -1 {
      JoinSplit(s[i + 1..], c);
      var parts := Split(s, c);
      assert parts[1..] == Split(s[i + 1..], c);
      assert s == s[..i] + [c] + s[i + 1..];
    }
  }

  function Map(f: char -> char, s: string): (r: string)
    ensures |r| == |s| && forall i :: 0 <= i < |s| ==> r[i] == f(s[i])
  {
    seq(|s|, i requires 0 <= i < |s| => f(s[i]))
  }

  function Lower(s: string): string {
    Map(c => if 'A' <= c <= 'Z' then c + 'a' - 'A' else c, s)
  }

  function Upper(s: string): string {
    Map(c => if 'a' <= c <= 'z' then c - 'a' + 'A' else c, s)
  }

  predicate IsSpace(c: char) {
    c == ' ' || c == '\t' || c == '\n' || c == '\r'
  }

  /** Drops the characters `drop` accepts from both ends. */
  function Strip(s: string, drop: char -> bool): string
    decreases |s|
  {
    if s != "" && drop(s[0]) then Strip(s[1..], drop)
    else if s != "" && drop(s[|s| - 1]) then Strip(s[..|s| - 1], drop)
    else s
  }

  function Trim(s: string): string {
    Strip(s, IsSpace)
  }

  function Decimal(n: nat): string {
    if n < 10 then ["0123456789"[n]] else Decimal(n / 10) + ["0123456789"[n % 10]]
  }

  /** Only the letters of ASCII have a case, and blanks, tabs and line ends are white space. */
  lemma KnownTexts()
    ensures Lower("AbZ@[9.") == "abz@[9." && Upper("aBz`{9.") == "ABZ`{9."
    ensures Trim(" \t\ra b\n ") == "a b"
    ensures Decimal(0) == "0" && Decimal(17890) == "17890"
  {
    assert Strip("a b", IsSpace) == Strip("a b\n", IsSpace) == Strip("a b\n ", IsSpace) == "a b";
    assert Decimal(17) == "17" && Decimal(1789) == "1789";
  }

  /** Splitting undoes joining when no part holds the separator. */
  lemma {:induction false} SplitJoin(parts: seq<string>, c: char)
    requires parts != [] && forall i :: 0 <= i < |parts| ==> c !in parts[i]
    ensures Split(Join(parts, c), c) == parts
    decreases |parts|
  {
    var s := Join(parts, c);
    if |parts| == 1 {
      assert IndexOf(s, c, 0) == -1;
    } else {
      var n := |parts[0]|;
      assert s[..n] == parts[0] && s[n] == c && s[n + 1..] == Join(parts[1..], c);
      IndexOfFirst(s, c, n);
      SplitJoin(parts[1..], c);
    }
  }

  lemma IndexOfFirst(s: string, c: char, n: nat)
    requires n < |s| && s[n] == c && c !in s[..n]
    ensures IndexOf(s, c, 0) == n
  {
    forall j | 0 <= j < n
      ensures s[j] != c
    {
      assert s[..n][j] == s[j];
    }
  }
}
