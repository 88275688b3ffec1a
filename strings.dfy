/**
  String primitives of JavaScript used throughout the viewer:
  `toLowerCase` (ASCII letters), `indexOf`/`includes`, `join`, `split`, `trim`
  and the `\s` character class.
 */
module Strings {

  /** `toLowerCase` on one character; letters outside ASCII are left as they are. */
  function LowerChar(c: char): char
  {
    if 'A' <= c <= 'Z' then (c as int + 32) as char else c
  }

  /** `toLowerCase`: length-preserving, character by character. */
  function Lower(s: string): (r: string)
    ensures |r| == |s|
    ensures forall i :: 0 <= i < |s| ==> r[i] == LowerChar(s[i])
  {
    seq(|s|, i requires 0 <= i < |s| => LowerChar(s[i]))
  }

  lemma LowerSlice(s: string, i: int, j: int)
    requires 0 <= i <= j <= |s|
    ensures Lower(s[i..j]) == Lower(s)[i..j]
  {
  }

  /** `q` occurs in `s` starting at index `i`. */
  predicate OccursAt(s: string, q: string, i: int)
  {
    0 <= i && i + |q| <= |s| && s[i..i + |q|] == q
  }

  /** `s.indexOf(q, from)`: the first occurrence at or after `from`, or -1. */
  function IndexOf(s: string, q: string, from: nat): (r: int)
    requires from <= |s|
    ensures r == -1 || (from <= r && r + |q| <= |s|)
    decreases |s| - from
  {
    if from + |q| > |s| then -1
    else if s[from..from + |q|] == q then from
    else IndexOf(s, q, from + 1)
  }

  /** `indexOf` finds an occurrence, and none lies between `from` and it (or the end). */
  lemma {:induction false} IndexOfSpec(s: string, q: string, from: nat)
    requires from <= |s|
    ensures var r := IndexOf(s, q, from); r == -1 || (from <= r && OccursAt(s, q, r))
    ensures forall i :: from <= i && (IndexOf(s, q, from) == -1 || i < IndexOf(s, q, from)) ==> !OccursAt(s, q, i)
    decreases |s| - from
  {
    if from + |q| <= |s| && s[from..from + |q|] != q {
      IndexOfSpec(s, q, from + 1);
    }
  }

  /** `s.includes(q)`. */
  predicate Contains(s: string, q: string)
  {
    IndexOf(s, q, 0) >= 0
  }

  lemma ContainsIff(s: string, q: string)
    ensures Contains(s, q) <==> exists i :: OccursAt(s, q, i)
  {
    IndexOfSpec(s, q, 0);
  }

  /** Case-insensitive match as every search of the viewer does it:
      the lower-cased row text includes the (already lower-cased) query. */
  predicate Matches(text: string, q: string)
  {
    Contains(Lower(text), q)
  }

  /** `xs.join(sep)`. */
  function Join(xs: seq<string>, sep: string): string
  {
    if |xs| == 0 then ""
    else if |xs| == 1 then xs[0]
    else xs[0] + sep + Join(xs[1..], sep)
  }

  /** Index of the first `c` in `s`, or -1. */
  function IndexOfChar(s: string, c: char): (r: int)
    ensures -1 <= r < |s|
    ensures r >= 0 ==> s[r] == c && c !in s[..r]
    ensures r == -1 <==> c !in s
  {
    if |s| == 0 then -1
    else if s[0] == c then 0
    else var k := IndexOfChar(s[1..], c); if k < 0 then -1 else k + 1
  }

  /** `s.split(c)` for a one-character separator. */
  function SplitOn(s: string, c: char): (r: seq<string>)
    ensures |r| >= 1
    ensures forall k :: 0 <= k < |r| ==> c !in r[k]
    decreases |s|
  {
    var i := IndexOfChar(s, c);
    if i < 0 then [s] else [s[..i]] + SplitOn(s[i + 1..], c)
  }

  lemma JoinCons(a: string, rest: seq<string>, sep: string)
    requires |rest| >= 1
    ensures Join([a] + rest, sep) == a + sep + Join(rest, sep)
  {
    assert ([a] + rest)[1..] == rest;
  }

  /** Joining the pieces of a split with the separator gives back the string. */
  lemma {:induction false} JoinSplit(s: string, c: char)
    ensures Join(SplitOn(s, c), [c]) == s
    decreases |s|
  {
    var i := IndexOfChar(s, c);
    if i >= 0 {
      var head, tail := s[..i], s[i + 1..];
      SplitOnAt(s, c, i, head, tail);
      JoinSplit(tail, c);
      JoinCons(head, SplitOn(tail, c), [c]);
    }
  }

  /** One step of `SplitOn` at the first separator, index `i`. */
  lemma SplitOnAt(s: string, c: char, i: nat, head: string, tail: string)
    requires i == IndexOfChar(s, c) && head == s[..i] && tail == s[i + 1..]
    ensures SplitOn(s, c) == [head] + SplitOn(tail, c)
    ensures s == head + [c] + tail
  {
  }

  /** Splitting a join of separator-free pieces gives back the pieces. */
  lemma {:induction false} SplitJoin(xs: seq<string>, c: char)
    requires |xs| >= 1
    requires forall k :: 0 <= k < |xs| ==> c !in xs[k]
    ensures SplitOn(Join(xs, [c]), c) == xs
    decreases |xs|
  {
    if |xs| == 1 {
      assert IndexOfChar(xs[0], c) == -1;
    } else {
      var tail := Join(xs[1..], [c]);
      assert Join(xs, [c]) == xs[0] + [c] + tail;
      SplitOnCons(xs[0], tail, c);
      SplitJoin(xs[1..], c);
      assert xs == [xs[0]] + xs[1..];
    }
  }

  /** The first piece of a split ends at the first separator. */
  lemma SplitOnCons(a: string, b: string, c: char)
    requires c !in a
    ensures SplitOn(a + [c] + b, c) == [a] + SplitOn(b, c)
  {
    var s := a + [c] + b;
    IndexOfCharPrefix(a, [c] + b, c);
    assert s == a + ([c] + b);
    assert s[..|a|] == a;
    assert s[|a| + 1..] == b;
  }

  lemma {:induction false} IndexOfCharPrefix(a: string, b: string, c: char)
    requires c !in a && |b| > 0 && b[0] == c
    ensures IndexOfChar(a + b, c) == |a|
    decreases |a|
  {
    if |a| > 0 {
      assert (a + b)[1..] == a[1..] + b;
      IndexOfCharPrefix(a[1..], b, c);
    }
  }

  /** JavaScript's white space and line terminators: what `trim` removes and `\s` matches. */
  predicate IsJsSpace(c: char)
  {
    c == ' ' || c == '\t' || c == '\n' || c == '\r' || c == '\U{000B}' || c == '\U{000C}'
    || c == '\U{00A0}' || c == '\U{1680}' || ('\U{2000}' <= c <= '\U{200A}')
    || c == '\U{2028}' || c == '\U{2029}' || c == '\U{202F}' || c == '\U{205F}'
    || c == '\U{3000}' || c == '\U{FEFF}'
  }

  function TrimStart(s: string): (r: string)
    ensures |r| <= |s| && r == s[|s| - |r|..]
    ensures |r| == 0 || !IsJsSpace(r[0])
    ensures forall i :: 0 <= i < |s| - |r| ==> IsJsSpace(s[i])
  {
    if |s| > 0 && IsJsSpace(s[0]) then TrimStart(s[1..]) else s
  }

  function TrimEnd(s: string): (r: string)
    ensures |r| <= |s| && r == s[..|r|]
    ensures |r| == 0 || !IsJsSpace(r[|r| - 1])
    ensures forall i :: |r| <= i < |s| ==> IsJsSpace(s[i])
  {
    if |s| > 0 && IsJsSpace(s[|s| - 1]) then TrimEnd(s[..|s| - 1]) else s
  }

  /** `trim`: the infix of `s` left after removing leading and trailing white space. */
  function Trim(s: string): (r: string)
    ensures |r| <= |s|
    ensures |r| == 0 || (!IsJsSpace(r[0]) && !IsJsSpace(r[|r| - 1]))
  {
    TrimEnd(TrimStart(s))
  }

  /** What `trim` removes is white space: the result is the infix of `s` between a
      white-space prefix of length `k` and a white-space suffix. */
  lemma TrimIsInfix(s: string, k: nat, r: string)
    requires k == |s| - |TrimStart(s)| && r == Trim(s)
    ensures k + |r| <= |s| && r == s[k..k + |r|]
    ensures forall i :: 0 <= i < k ==> IsJsSpace(s[i])
    ensures forall i :: k + |r| <= i < |s| ==> IsJsSpace(s[i])
  {
    var t := TrimStart(s);
    assert t == s[k..];
    assert r == TrimEnd(t);
    PrefixOfSuffix(s, t, r, k);
  }

  /** A prefix `r` of the suffix `t` of `s` that starts at `k` is the infix `s[k..k + |r|]`,
      and what follows `r` in `t` follows it in `s`. */
  lemma PrefixOfSuffix(s: string, t: string, r: string, k: nat)
    requires k <= |s| && t == s[k..] && |r| <= |t| && r == t[..|r|]
    requires forall i :: |r| <= i < |t| ==> IsJsSpace(t[i])
    ensures k + |r| <= |s| && r == s[k..k + |r|]
    ensures forall i :: k + |r| <= i < |s| ==> IsJsSpace(s[i])
  {
    forall i | k + |r| <= i < |s| ensures IsJsSpace(s[i]) {
      assert s[i] == t[i - k];
    }
  }

  /** A key name of the terminal library that stands for one printable ASCII character. */
  predicate IsPrintableKey(key: string)
  {
    |key| == 1 && ' ' <= key[0] <= '~'
  }

  /** `s.slice(0, -1)`: everything but the last character (nothing for ""). */
  function DropLast(s: string): (r: string)
    ensures |s| > 0 ==> r == s[..|s| - 1]
    ensures |s| == 0 ==> |r| == 0
  {
    if |s| == 0 then "" else s[..|s| - 1]
  }
}
