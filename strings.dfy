/** The few `java.lang.String` operations the core relies on, over `seq<char>`. */
module Strings {
  import opened SeqFacts

  /** `s.startsWith(p)` */
  predicate StartsWith(s: string, p: string) {
    |p| <= |s| && s[..|p|] == p
  }

  /** `s.endsWith(p)` */
  predicate EndsWith(s: string, p: string) {
    |p| <= |s| && s[|s| - |p|..] == p
  }

  /** `s.contains(sub)` */
  predicate Contains(s: string, sub: string)
    decreases |s|
  {
    StartsWith(s, sub) || (|s| > 0 && Contains(s[1..], sub))
  }

  /** Index of the first occurrence of `c` in `s`. */
  function IndexOf(s: string, c: char): (i: nat)
    requires c in s
    ensures i < |s| && s[i] == c && c !in s[..i]
  {
    if s[0] == c then 0 else 1 + IndexOf(s[1..], c)
  }

  /** `s.split(c, 2)[0]`: the text before the first `c`. */
  function BeforeFirst(s: string, c: char): (r: string)
    requires c in s
    ensures c !in r && StartsWith(s, r + [c])
  {
    s[..IndexOf(s, c)]
  }

  /** `s.split(c, 2)[1]`: the text after the first `c`. */
  function AfterFirst(s: string, c: char): (r: string)
    requires c in s
    ensures s == BeforeFirst(s, c) + [c] + r
  {
    s[IndexOf(s, c) + 1..]
  }

  /** Splitting `p + [c] + t` at its first `c` gives back `p` and `t` when `p` has no `c`. */
  lemma SplitFirstOfJoin(p: string, c: char, t: string)
    requires c !in p
    ensures c in p + [c] + t
    ensures BeforeFirst(p + [c] + t, c) == p && AfterFirst(p + [c] + t, c) == t
  {
    var s := p + [c] + t;
    assert s[|p|] == c;
    assert s[..|p|] == p;
  }

  /** `Character.isWhitespace` restricted to the ASCII range. */
  predicate IsWhitespace(c: char) {
    c == ' ' || c == '\t' || c == '\n' || c == '\U{B}' || c == '\U{C}' || c == '\r'
    || ('\U{1C}' <= c <= '\U{1F}')
  }

  /** `s.isBlank()` */
  predicate IsBlank(s: string) {
    forall i :: 0 <= i < |s| ==> IsWhitespace(s[i])
  }

  /** `String.trim()` drops every character up to U+0020 at both ends. */
  function Trim(s: string): (r: string)
    ensures |r| <= |s|
    ensures r != [] ==> r[0] > ' ' && r[|r| - 1] > ' '
  {
    TrimEnd(TrimStart(s))
  }

  function TrimStart(s: string): (r: string)
    ensures |r| <= |s| && r == s[|s| - |r|..]
    ensures r != [] ==> r[0] > ' '
  {
    if s != [] && s[0] <= ' ' then TrimStart(s[1..]) else s
  }

  function TrimEnd(s: string): (r: string)
    ensures |r| <= |s| && r == s[..|r|]
    ensures r != [] ==> r[|r| - 1] > ' '
    ensures s != [] && s[0] > ' ' ==> r != [] && r[0] == s[0]
  {
    if s != [] && s[|s| - 1] <= ' ' then TrimEnd(s[..|s| - 1]) else s
  }

  /** `s.replace(from, to)` for single characters. */
  function ReplaceChar(s: string, from: char, to: char): (r: string)
    ensures |r| == |s|
    ensures forall i :: 0 <= i < |s| ==> r[i] == if s[i] == from then to else s[i]
  {
    if s == [] then [] else [if s[0] == from then to else s[0]] + ReplaceChar(s[1..], from, to)
  }

  /** The pieces of `s` between occurrences of `c` (every piece, empty ones included). */
  function Pieces(s: string, c: char): (r: seq<string>)
    ensures |r| >= 1
    ensures c !in s ==> r == [s]
    decreases |s|
  {
    if c !in s then [s]
    else [BeforeFirst(s, c)] + Pieces(AfterFirst(s, c), c)
  }

  /** Drops the empty strings at the end of a sequence. */
  function DropTrailingEmpty(ps: seq<string>): (r: seq<string>)
    ensures |r| <= |ps| && r == ps[..|r|]
    ensures r == [] || r[|r| - 1] != []
    ensures forall k :: |r| <= k < |ps| ==> ps[k] == []
  {
    if ps == [] || ps[|ps| - 1] != [] then ps else DropTrailingEmpty(ps[..|ps| - 1])
  }

  /** `s.split(Pattern.quote(c))` as Java computes it: when `c` occurs, trailing empty
      pieces are removed; when it does not, the result is `[s]`. */
  function JavaSplit(s: string, c: char): seq<string> {
    if c !in s then [s] else DropTrailingEmpty(Pieces(s, c))
  }

  /** `String.join(sep, parts)` */
  function Join(sep: string, parts: seq<string>): (r: string)
    ensures parts == [] ==> r == []
  {
    if parts == [] then []
    else if |parts| == 1 then parts[0]
    else Join(sep, parts[..|parts| - 1]) + sep + parts[|parts| - 1]
  }

  /** The first `c` of `s + u` is the first `c` of `s` when `s` has one. */
  lemma {:induction false} IndexOfAppend(s: string, u: string, c: char)
    requires c in s
    ensures c in s + u && IndexOf(s + u, c) == IndexOf(s, c)
  {
    if s[0] != c {
      assert (s + u)[1..] == s[1..] + u;
      IndexOfAppend(s[1..], u, c);
    }
  }

  /** Appending to a text that already holds `c` leaves what comes before its first `c`. */
  lemma SplitAppend(s: string, u: string, c: char)
    requires c in s
    ensures c in s + u
    ensures BeforeFirst(s + u, c) == BeforeFirst(s, c) && AfterFirst(s + u, c) == AfterFirst(s, c) + u
  {
    IndexOfAppend(s, u, c);
    var i := IndexOf(s, c);
    assert (s + u)[..i] == s[..i];
    assert (s + u)[i + 1..] == s[i + 1..] + u;
  }

  /** Adding a separator and a piece without separator adds exactly that piece. */
  lemma {:induction false} PiecesSnoc(s: string, c: char, t: string)
    requires c !in t
    ensures Pieces(s + [c] + t, c) == Pieces(s, c) + [t]
    decreases |s|
  {
    if c !in s {
      SplitFirstOfJoin(s, c, t);
    } else {
      var u := [c] + t;
      assert s + [c] + t == s + u;
      SplitAppend(s, u, c);
      var b, rest := BeforeFirst(s, c), AfterFirst(s, c);
      assert rest + u == rest + [c] + t;
      PiecesSnoc(rest, c, t);
      assert Pieces(s + u, c) == [b] + Pieces(rest + u, c);
    }
  }

  /** Splitting a join at its separator gives back the parts, when no part holds it. */
  lemma {:induction false} PiecesOfJoin(c: char, parts: seq<string>)
    requires parts != []
    requires forall i :: 0 <= i < |parts| ==> c !in parts[i]
    ensures Pieces(Join([c], parts), c) == parts
  {
    if |parts| > 1 {
      var front, last := parts[..|parts| - 1], parts[|parts| - 1];
      assert forall i :: 0 <= i < |front| ==> front[i] == parts[i];
      PiecesOfJoin(c, front);
      assert Join([c], parts) == Join([c], front) + [c] + last;
      PiecesSnoc(Join([c], front), c, last);
      InitLast(parts);
    }
  }

  /** ASCII lower case, as `Character.toLowerCase` does on that range. */
  function ToLower(c: char): char {
    if 'A' <= c <= 'Z' then (c as int + 32) as char else c
  }

  /** `a.equalsIgnoreCase(b)` on ASCII text. */
  predicate EqualsIgnoreCase(a: string, b: string) {
    |a| == |b| && forall i :: 0 <= i < |a| ==> ToLower(a[i]) == ToLower(b[i])
  }

  function DigitChar(d: nat): char
    requires d < 10
  {
    "0123456789"[d]
  }

  /** Decimal rendering of a natural number, as `Integer.toString` gives it. */
  function NatToString(n: nat): (r: string)
    ensures |r| >= 1
    ensures forall i :: 0 <= i < |r| ==> '0' <= r[i] <= '9'
  {
    if n < 10 then [DigitChar(n)] else NatToString(n / 10) + [DigitChar(n % 10)]
  }

  /** Decimal rendering of an integer, with a leading `-` when negative. */
  function IntToString(i: int): string {
    if i < 0 then "-" + NatToString(-i) else NatToString(i)
  }

  /** The file-name component of a Unix path (`Paths.get(p).getFileName()`): the text after
      the last `/` once trailing separators are dropped. */
  function FileName(p: string): (r: string)
    ensures '/' !in r
    ensures EndsWith(DropTrailingSlashes(p), r)
  {
    var q := DropTrailingSlashes(p);
    AfterLast(q, '/')
  }

  function DropTrailingSlashes(p: string): (r: string)
    ensures |r| <= |p| && r == p[..|r|]
  {
    if p != [] && p[|p| - 1] == '/' then DropTrailingSlashes(p[..|p| - 1]) else p
  }

  function AfterLast(s: string, c: char): (r: string)
    ensures c !in r && EndsWith(s, r)
    ensures c !in s ==> r == s
  {
    if s == [] then []
    else if s[|s| - 1] == c then []
    else AfterLast(s[..|s| - 1], c) + [s[|s| - 1]]
  }

  /** A path for which `getFileName()` is not null: empty, or holding something besides `/`. */
  predicate HasFileName(p: string) {
    p == [] || exists i :: 0 <= i < |p| && p[i] != '/'
  }
}
