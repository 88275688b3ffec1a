/**
  `printHighlighted`: a string is printed as a run of plain chunks and highlighted
  chunks, the highlighted ones being the case-insensitive occurrences of the query,
  found left to right without overlap.
 */
module Highlight {
  import opened Strings

  /** One printed piece: in the base style, or with the highlight background. */
  datatype Chunk = Plain(text: string) | Marked(text: string)

  /** The chunks printed for `s` from index `start`: `lc` is `s` lower-cased, in which the
      lower-cased, non-empty query `q` is searched. */
  function Segments(s: string, lc: string, q: string, start: nat): seq<Chunk>
    requires |q| > 0 && start <= |s| == |lc|
    decreases |s| - start
  {
    var pos := IndexOf(lc, q, start);
    if pos == -1 then Gap(s, start, |s|)
    else Gap(s, start, pos) + [Marked(s[pos..pos + |q|])] + Segments(s, lc, q, pos + |q|)
  }

  /** The plain chunk for `s[i..j]`, printed only when it is not empty. */
  function Gap(s: string, i: nat, j: nat): seq<Chunk>
    requires i <= j <= |s|
  {
    if i < j then [Plain(s[i..j])] else []
  }

  /** One step of `Segments` when no occurrence is left. */
  lemma SegmentsAtEnd(s: string, lc: string, q: string, start: nat)
    requires |q| > 0 && start <= |s| == |lc| && IndexOf(lc, q, start) == -1
    ensures Segments(s, lc, q, start) == Gap(s, start, |s|)
  {
  }

  /** One step of `Segments` at the next occurrence `pos`. */
  lemma SegmentsAtMatch(s: string, lc: string, q: string, start: nat, pos: nat, next: nat)
    requires |q| > 0 && start <= |s| == |lc| && IndexOf(lc, q, start) == pos && next == pos + |q|
    ensures next <= |s|
    ensures Segments(s, lc, q, start) == Gap(s, start, pos) + [Marked(s[pos..next])] + Segments(s, lc, q, next)
  {
    SegmentsUnfold(s, lc, q, start, pos);
  }

  lemma SegmentsUnfold(s: string, lc: string, q: string, start: nat, pos: nat)
    requires |q| > 0 && start <= |s| == |lc| && IndexOf(lc, q, start) == pos
    ensures pos + |q| <= |s|
    ensures Segments(s, lc, q, start) ==
      Gap(s, start, pos) + [Marked(s[pos..pos + |q|])] + Segments(s, lc, q, pos + |q|)
  {
  }

  /** What `printHighlighted(text, {query})` prints. */
  function Highlighted(text: string, query: string): seq<Chunk>
  {
    var q := Lower(query);
    if |q| == 0 then [Plain(text)] else Segments(text, Lower(text), q, 0)
  }

  /** The printing loop: advance `start` past each occurrence of the query. */
  method PrintHighlighted(text: string, query: string) returns (out: seq<Chunk>)
    ensures out == Highlighted(text, query)
  {
    var str := text;
    var q := Lower(query);
    if |q| == 0 {
      return [Plain(str)];
    }
    var lc := Lower(str);
    ghost var total := Segments(str, lc, q, 0);
    var start := 0;
    out := [];
    while start <= |lc|
      invariant 0 <= start <= |lc| + 1
      invariant start <= |lc| ==> out + Segments(str, lc, q, start) == total
      invariant start > |lc| ==> out == total
      decreases |lc| + 1 - start
    {
      var pos := IndexOf(lc, q, start);
      if pos == -1 {
        PrintedAtEnd(out, str, lc, q, start, total);
        out := out + Gap(str, start, |str|);
        break;
      }
      var next := pos + |q|;
      PrintedAtMatch(out, str, lc, q, start, pos, next, total);
      var match_ := str[pos..next];
      out := out + Gap(str, start, pos) + [Marked(match_)];
      start := next;
    }
  }

  /** The loop's last step: the rest of the text is printed plain. */
  lemma PrintedAtEnd(out: seq<Chunk>, s: string, lc: string, q: string, start: nat, total: seq<Chunk>)
    requires |q| > 0 && start <= |s| == |lc| && IndexOf(lc, q, start) == -1
    requires out + Segments(s, lc, q, start) == total
    ensures out + Gap(s, start, |s|) == total
  {
    SegmentsAtEnd(s, lc, q, start);
  }

  /** A step of the loop at an occurrence: the gap before it and the occurrence are printed. */
  lemma PrintedAtMatch(out: seq<Chunk>, s: string, lc: string, q: string, start: nat, pos: nat, next: nat,
                        total: seq<Chunk>)
    requires |q| > 0 && start <= |s| == |lc| && IndexOf(lc, q, start) == pos && next == pos + |q|
    requires out + Segments(s, lc, q, start) == total
    ensures next <= |s|
    ensures out + Gap(s, start, pos) + [Marked(s[pos..next])] + Segments(s, lc, q, next) == total
  {
    SegmentsAtMatch(s, lc, q, start, pos, next);
    Regroup(out, Gap(s, start, pos), [Marked(s[pos..next])], Segments(s, lc, q, next));
  }

  lemma Regroup<T>(a: seq<T>, b: seq<T>, c: seq<T>, d: seq<T>)
    ensures a + b + c + d == a + (b + c + d)
  {
  }

  /** The text of a run of chunks. */
  function Concat(cs: seq<Chunk>): string
  {
    if |cs| == 0 then "" else cs[0].text + Concat(cs[1..])
  }

  lemma {:induction false} ConcatAppend(a: seq<Chunk>, b: seq<Chunk>)
    ensures Concat(a + b) == Concat(a) + Concat(b)
    decreases |a|
  {
    if |a| > 0 {
      ConcatAppend(a[1..], b);
      assert (a + b)[1..] == a[1..] + b;
    } else {
      assert a + b == b;
    }
  }

  lemma ConcatGap(s: string, i: nat, j: nat)
    requires i <= j <= |s|
    ensures Concat(Gap(s, i, j)) == s[i..j]
  {
    if i < j {
      assert Concat([Plain(s[i..j])]) == s[i..j] + Concat([]);
    }
  }

  lemma {:induction false} SegmentsConcat(s: string, lc: string, q: string, start: nat)
    requires |q| > 0 && start <= |s| == |lc|
    ensures Concat(Segments(s, lc, q, start)) == s[start..]
    decreases |s| - start
  {
    var pos := IndexOf(lc, q, start);
    if pos == -1 {
      SegmentsAtEnd(s, lc, q, start);
      ConcatGap(s, start, |s|);
      assert s[start..|s|] == s[start..];
    } else {
      var next := pos + |q|;
      SegmentsAtMatch(s, lc, q, start, pos, next);
      SegmentsConcat(s, lc, q, next);
      var gap, mid, rest := Gap(s, start, pos), [Marked(s[pos..next])], Segments(s, lc, q, next);
      ConcatAppend(gap + mid, rest);
      ConcatAppend(gap, mid);
      ConcatGap(s, start, pos);
      ConcatSingle(Marked(s[pos..next]));
      Glue(s, start, pos, next);
    }
  }

  lemma ConcatSingle(c: Chunk)
    ensures Concat([c]) == c.text
  {
    assert Concat([c]) == c.text + Concat([]);
  }

  lemma Glue(s: string, i: nat, j: nat, k: nat)
    requires i <= j <= k <= |s|
    ensures s[i..j] + s[j..k] + s[k..] == s[i..]
  {
  }

  /** The printed chunks spell out the text exactly. */
  lemma HighlightedConcat(text: string, query: string)
    ensures Concat(Highlighted(text, query)) == text
  {
    if |Lower(query)| > 0 {
      SegmentsConcat(text, Lower(text), Lower(query), 0);
    }
  }

  /** A highlighted chunk is an occurrence of `q`, ignoring case; a plain chunk is non-empty and
      holds no occurrence of it. */
  predicate WellMarked(c: Chunk, q: string)
  {
    (c.Marked? ==> Lower(c.text) == q) && (c.Plain? ==> |c.text| > 0 && !Contains(Lower(c.text), q))
  }

  predicate AllWellMarked(cs: seq<Chunk>, q: string)
  {
    forall k :: 0 <= k < |cs| ==> WellMarked(cs[k], q)
  }

  lemma AllWellMarkedAppend(a: seq<Chunk>, b: seq<Chunk>, q: string)
    requires AllWellMarked(a, q) && AllWellMarked(b, q)
    ensures AllWellMarked(a + b, q)
  {
    forall k | 0 <= k < |a + b| ensures WellMarked((a + b)[k], q) {
      if k >= |a| {
        assert (a + b)[k] == b[k - |a|];
      }
    }
  }

  /** Each highlighted chunk is an occurrence of the query, ignoring case; each plain chunk is
      non-empty and holds no occurrence of it. */
  lemma {:induction false} SegmentsChunks(s: string, lc: string, q: string, start: nat)
    requires |q| > 0 && start <= |s| && lc == Lower(s)
    ensures AllWellMarked(Segments(s, lc, q, start), q)
    decreases |s| - start
  {
    var pos := IndexOf(lc, q, start);
    IndexOfSpec(lc, q, start);
    if pos == -1 {
      SegmentsAtEnd(s, lc, q, start);
      if start < |s| {
        PlainFree(s, q, start, |s|);
        assert WellMarked(Plain(s[start..|s|]), q);
      }
    } else {
      var next := pos + |q|;
      SegmentsAtMatch(s, lc, q, start, pos, next);
      SegmentsChunks(s, lc, q, next);
      var gap := Gap(s, start, pos);
      var mid := [Marked(s[pos..next])];
      assert AllWellMarked(gap, q) by {
        if pos > start {
          PlainFree(s, q, start, pos);
          assert WellMarked(Plain(s[start..pos]), q);
        }
      }
      assert AllWellMarked(mid, q) by {
        LowerSlice(s, pos, next);
        assert WellMarked(Marked(s[pos..next]), q);
      }
      AllWellMarkedAppend(gap, mid, q);
      AllWellMarkedAppend(gap + mid, Segments(s, lc, q, next), q);
    }
  }

  /** A slice that starts at `start` and ends where the next occurrence from `start` begins
      (or at the end of the text) holds no occurrence. */
  lemma PlainFree(s: string, q: string, start: nat, end: nat)
    requires |q| > 0 && start < end <= |s|
    requires forall i :: start <= i < end ==> !OccursAt(Lower(s), q, i)
    ensures !Contains(Lower(s[start..end]), q)
  {
    var t := Lower(s[start..end]);
    LowerSlice(s, start, end);
    ContainsIff(t, q);
    if exists i :: OccursAt(t, q, i) {
      var i :| OccursAt(t, q, i);
      assert Lower(s)[start + i..start + i + |q|] == t[i..i + |q|];
      assert OccursAt(Lower(s), q, start + i);
      assert false;
    }
  }

  /** With a non-empty query every chunk is well marked; with an empty one the text is printed
      whole, as one chunk. */
  lemma HighlightedChunks(text: string, query: string)
    ensures |Lower(query)| > 0 ==> AllWellMarked(Highlighted(text, query), Lower(query))
    ensures |Lower(query)| == 0 ==> Highlighted(text, query) == [Plain(text)]
  {
    if |Lower(query)| > 0 {
      SegmentsChunks(text, Lower(text), Lower(query), 0);
    }
  }

  /** Where chunk `k` starts in the text the chunks spell out. */
  function Offset(cs: seq<Chunk>, k: nat): nat
    requires k <= |cs|
  {
    |Concat(cs[..k])|
  }

  /** Chunk `c`, placed at index `at` of the lower-cased text `lc`, is printed as the rule
      requires: a highlighted chunk is an occurrence of `q` there, and a plain chunk is
      non-empty with no occurrence of `q` starting anywhere inside it. */
  predicate Fits(c: Chunk, lc: string, q: string, at: int)
  {
    (c.Marked? ==> |c.text| == |q| && OccursAt(lc, q, at))
    && (c.Plain? ==> |c.text| > 0 && forall i :: at <= i < at + |c.text| ==> !OccursAt(lc, q, i))
  }

  /** Every chunk of `cs` fits where it lies, the run starting at index `p`. */
  predicate AllFit(cs: seq<Chunk>, lc: string, q: string, p: nat)
  {
    forall k :: 0 <= k < |cs| ==> Fits(cs[k], lc, q, p + Offset(cs, k))
  }

  /** No two plain chunks are adjacent. */
  predicate NoAdjacentPlain(cs: seq<Chunk>)
  {
    forall k :: 0 <= k < |cs| - 1 ==> cs[k].Marked? || cs[k + 1].Marked?
  }

  /** `cs` spells out `s[p..]`, every chunk fits where it lies in `lc` (the lower-cased `s`),
      and no two plain chunks are adjacent: the occurrences are taken left to right, each
      as soon as it starts. */
  predicate LeftmostFrom(cs: seq<Chunk>, s: string, lc: string, q: string, p: nat)
  {
    p <= |s| && Concat(cs) == s[p..] && AllFit(cs, lc, q, p) && NoAdjacentPlain(cs)
  }

  predicate Leftmost(cs: seq<Chunk>, text: string, q: string)
  {
    LeftmostFrom(cs, text, Lower(text), q, 0)
  }

  lemma ConcatCons(c: Chunk, cs: seq<Chunk>)
    ensures Concat([c] + cs) == c.text + Concat(cs)
  {
    assert ([c] + cs)[1..] == cs;
  }

  lemma OffsetCons(c: Chunk, cs: seq<Chunk>, k: nat)
    requires 1 <= k <= |cs| + 1
    ensures Offset([c] + cs, k) == |c.text| + Offset(cs, k - 1)
  {
    assert ([c] + cs)[..k] == [c] + cs[..k - 1];
    ConcatCons(c, cs[..k - 1]);
  }

  lemma AllFitCons(c: Chunk, cs: seq<Chunk>, lc: string, q: string, p: nat)
    requires Fits(c, lc, q, p) && AllFit(cs, lc, q, p + |c.text|)
    ensures AllFit([c] + cs, lc, q, p)
  {
    var ds := [c] + cs;
    forall k | 0 <= k < |ds| ensures Fits(ds[k], lc, q, p + Offset(ds, k)) {
      if k == 0 {
        assert ds[..0] == [];
      } else {
        OffsetCons(c, cs, k);
        assert ds[k] == cs[k - 1];
      }
    }
  }

  lemma AllFitUncons(cs: seq<Chunk>, lc: string, q: string, p: nat)
    requires |cs| > 0 && AllFit(cs, lc, q, p)
    ensures Fits(cs[0], lc, q, p) && AllFit(cs[1..], lc, q, p + |cs[0].text|)
  {
    AllFitHead(cs, lc, q, p);
    forall k | 0 <= k < |cs[1..]| ensures Fits(cs[1..][k], lc, q, p + |cs[0].text| + Offset(cs[1..], k)) {
      FitsShifted(cs, lc, q, p, k);
    }
  }

  lemma AllFitHead(cs: seq<Chunk>, lc: string, q: string, p: nat)
    requires |cs| > 0 && AllFit(cs, lc, q, p)
    ensures Fits(cs[0], lc, q, p)
  {
    assert cs[..0] == [];
    assert Fits(cs[0], lc, q, p + Offset(cs, 0));
  }

  lemma FitsShifted(cs: seq<Chunk>, lc: string, q: string, p: nat, k: nat)
    requires k + 1 < |cs| && AllFit(cs, lc, q, p)
    ensures Fits(cs[1..][k], lc, q, p + |cs[0].text| + Offset(cs[1..], k))
  {
    assert Fits(cs[k + 1], lc, q, p + Offset(cs, k + 1));
    assert cs == [cs[0]] + cs[1..];
    OffsetCons(cs[0], cs[1..], k + 1);
  }

  lemma NoAdjacentPlainCons(c: Chunk, cs: seq<Chunk>)
    requires NoAdjacentPlain(cs) && (c.Plain? && |cs| > 0 ==> cs[0].Marked?)
    ensures NoAdjacentPlain([c] + cs)
  {
    var ds := [c] + cs;
    forall k | 0 <= k < |ds| - 1 ensures ds[k].Marked? || ds[k + 1].Marked? {
      if k > 0 {
        assert ds[k] == cs[k - 1] && ds[k + 1] == cs[k];
      }
    }
  }

  lemma NoAdjacentPlainUncons(cs: seq<Chunk>)
    requires |cs| > 0 && NoAdjacentPlain(cs)
    ensures NoAdjacentPlain(cs[1..]) && (cs[0].Plain? && |cs| > 1 ==> cs[1].Marked?)
  {
    var rest := cs[1..];
    forall k | 0 <= k < |rest| - 1 ensures rest[k].Marked? || rest[k + 1].Marked? {
      assert cs[k + 1] == rest[k] && cs[k + 2] == rest[k + 1];
    }
  }

  lemma SpellCons(c: Chunk, cs: seq<Chunk>, s: string, p: nat)
    requires p + |c.text| <= |s| && c.text == s[p..p + |c.text|] && Concat(cs) == s[p + |c.text|..]
    ensures Concat([c] + cs) == s[p..]
  {
    ConcatCons(c, cs);
    assert s[p..p + |c.text|] + s[p + |c.text|..] == s[p..];
  }

  lemma SpellUncons(cs: seq<Chunk>, s: string, p: nat)
    requires |cs| > 0 && p <= |s| && Concat(cs) == s[p..]
    ensures p + |cs[0].text| <= |s| && cs[0].text == s[p..p + |cs[0].text|]
    ensures Concat(cs[1..]) == s[p + |cs[0].text|..]
  {
    var c, rest := cs[0], cs[1..];
    var n := |c.text|;
    assert cs == [c] + rest;
    ConcatCons(c, rest);
    assert s[p..] == c.text + Concat(rest);
    assert s[p..][..n] == c.text;
    assert s[p..][..n] == s[p..p + n];
    assert s[p..][n..] == s[p + n..];
  }

  /** A chunk that fits at `p`, followed by a leftmost run for the rest, is a leftmost run. */
  lemma LeftmostCons(c: Chunk, cs: seq<Chunk>, s: string, lc: string, q: string, p: nat)
    requires p + |c.text| <= |s| && c.text == s[p..p + |c.text|]
    requires Fits(c, lc, q, p)
    requires LeftmostFrom(cs, s, lc, q, p + |c.text|)
    requires c.Plain? && |cs| > 0 ==> cs[0].Marked?
    ensures LeftmostFrom([c] + cs, s, lc, q, p)
  {
    SpellCons(c, cs, s, p);
    AllFitCons(c, cs, lc, q, p);
    NoAdjacentPlainCons(c, cs);
  }

  /** The first chunk of a leftmost run fits at `p` and the rest is a leftmost run. */
  lemma LeftmostUncons(cs: seq<Chunk>, s: string, lc: string, q: string, p: nat)
    requires LeftmostFrom(cs, s, lc, q, p) && |cs| > 0
    ensures p + |cs[0].text| <= |s| && cs[0].text == s[p..p + |cs[0].text|]
    ensures Fits(cs[0], lc, q, p)
    ensures LeftmostFrom(cs[1..], s, lc, q, p + |cs[0].text|)
    ensures cs[0].Plain? && |cs| > 1 ==> cs[1].Marked?
  {
    SpellUncons(cs, s, p);
    AllFitUncons(cs, lc, q, p);
    NoAdjacentPlainUncons(cs);
  }

  /** `indexOf` returns an occurrence when none lies between `from` and it. */
  lemma IndexOfFirst(s: string, q: string, from: nat, m: nat)
    requires from <= m && OccursAt(s, q, m)
    requires forall i :: from <= i < m ==> !OccursAt(s, q, i)
    ensures IndexOf(s, q, from) == m
  {
    IndexOfSpec(s, q, from);
  }

  /** `indexOf` returns -1 when no non-empty occurrence starts at or after `from`. */
  lemma IndexOfNone(s: string, q: string, from: nat)
    requires |q| > 0 && from <= |s|
    requires forall i :: from <= i < |s| ==> !OccursAt(s, q, i)
    ensures IndexOf(s, q, from) == -1
  {
    IndexOfSpec(s, q, from);
  }

  /** With no occurrence at or after `p`, the rest is one plain chunk (none when empty). */
  lemma SegmentsNoOccurrence(s: string, lc: string, q: string, p: nat)
    requires |q| > 0 && p <= |s| == |lc|
    requires forall i :: p <= i < |s| ==> !OccursAt(lc, q, i)
    ensures Segments(s, lc, q, p) == Gap(s, p, |s|)
  {
    IndexOfNone(lc, q, p);
    SegmentsAtEnd(s, lc, q, p);
  }

  /** An occurrence at `p` is highlighted at once. */
  lemma SegmentsAtOccurrence(s: string, lc: string, q: string, p: nat)
    requires |q| > 0 && p <= |s| == |lc| && OccursAt(lc, q, p)
    ensures Segments(s, lc, q, p) == [Marked(s[p..p + |q|])] + Segments(s, lc, q, p + |q|)
  {
    IndexOfFirst(lc, q, p, p);
    SegmentsUnfold(s, lc, q, p, p);
    assert Gap(s, p, p) == [];
  }

  /** Before the first occurrence `m` after `p`, the text is one plain chunk. */
  lemma SegmentsBeforeOccurrence(s: string, lc: string, q: string, p: nat, m: nat)
    requires |q| > 0 && p < m <= |s| == |lc| && OccursAt(lc, q, m)
    requires forall i :: p <= i < m ==> !OccursAt(lc, q, i)
    ensures Segments(s, lc, q, p) == [Plain(s[p..m])] + Segments(s, lc, q, m)
  {
    IndexOfFirst(lc, q, p, m);
    SegmentsSplit(s, lc, q, p, m);
  }

  lemma SegmentsSplit(s: string, lc: string, q: string, p: nat, m: nat)
    requires |q| > 0 && p < m <= |s| == |lc| && IndexOf(lc, q, p) == m && OccursAt(lc, q, m)
    ensures Segments(s, lc, q, p) == [Plain(s[p..m])] + Segments(s, lc, q, m)
  {
    SegmentsUnfold(s, lc, q, p, m);
    IndexOfFirst(lc, q, m, m);
    SegmentsUnfold(s, lc, q, m, m);
    assert Gap(s, m, m) == [];
    assert Gap(s, p, m) == [Plain(s[p..m])];
    Assemble(Segments(s, lc, q, p), Segments(s, lc, q, m), [Plain(s[p..m])], [Marked(s[m..m + |q|])],
             Segments(s, lc, q, m + |q|));
  }

  lemma Assemble<T>(whole: seq<T>, tail: seq<T>, a: seq<T>, b: seq<T>, c: seq<T>)
    requires whole == a + b + c && tail == b + c
    ensures whole == a + tail
  {
  }

  lemma Regroup3<T>(a: seq<T>, b: seq<T>, c: seq<T>)
    ensures a + b + c == a + (b + c)
  {
  }

  /** The plain tail is a leftmost run. */
  lemma LeftmostTail(s: string, lc: string, q: string, p: nat)
    requires |q| > 0 && p <= |s| == |lc|
    requires forall i :: p <= i < |s| ==> !OccursAt(lc, q, i)
    ensures LeftmostFrom(Gap(s, p, |s|), s, lc, q, p)
  {
    if p < |s| {
      var c := Plain(s[p..|s|]);
      assert Fits(c, lc, q, p);
      assert LeftmostFrom([], s, lc, q, |s|);
      LeftmostCons(c, [], s, lc, q, p);
      assert [c] + [] == Gap(s, p, |s|);
    } else {
      assert Concat([]) == s[p..];
    }
  }

  /** An occurrence at `pos`, then a leftmost run, is one. */
  lemma LeftmostMarkedCons(s: string, lc: string, q: string, pos: nat, rest: seq<Chunk>)
    requires |q| > 0 && |s| == |lc| && OccursAt(lc, q, pos)
    requires LeftmostFrom(rest, s, lc, q, pos + |q|)
    ensures LeftmostFrom([Marked(s[pos..pos + |q|])] + rest, s, lc, q, pos)
  {
    var m := Marked(s[pos..pos + |q|]);
    assert Fits(m, lc, q, pos);
    LeftmostCons(m, rest, s, lc, q, pos);
  }

  /** A gap free of occurrences, then a leftmost run starting with an occurrence, is one. */
  lemma LeftmostPlainCons(s: string, lc: string, q: string, start: nat, pos: nat, ms: seq<Chunk>)
    requires start < pos && |s| == |lc|
    requires forall i :: start <= i < pos ==> !OccursAt(lc, q, i)
    requires LeftmostFrom(ms, s, lc, q, pos) && |ms| > 0 && ms[0].Marked?
    ensures LeftmostFrom([Plain(s[start..pos])] + ms, s, lc, q, start)
  {
    var g := Plain(s[start..pos]);
    assert Fits(g, lc, q, start);
    LeftmostCons(g, ms, s, lc, q, start);
  }

  /** A gap free of occurrences, then the occurrence at `pos`, then a leftmost run, is one. */
  lemma LeftmostGapMatch(s: string, lc: string, q: string, start: nat, pos: nat, rest: seq<Chunk>)
    requires |q| > 0 && start <= pos && |s| == |lc| && OccursAt(lc, q, pos)
    requires forall i :: start <= i < pos ==> !OccursAt(lc, q, i)
    requires LeftmostFrom(rest, s, lc, q, pos + |q|)
    ensures LeftmostFrom(Gap(s, start, pos) + [Marked(s[pos..pos + |q|])] + rest, s, lc, q, start)
  {
    var ms := [Marked(s[pos..pos + |q|])] + rest;
    LeftmostMarkedCons(s, lc, q, pos, rest);
    if start < pos {
      LeftmostPlainCons(s, lc, q, start, pos, ms);
      Regroup3(Gap(s, start, pos), [Marked(s[pos..pos + |q|])], rest);
    } else {
      assert Gap(s, start, pos) + [Marked(s[pos..pos + |q|])] + rest == ms;
    }
  }

  lemma {:induction false} SegmentsLeftmost(s: string, lc: string, q: string, start: nat)
    requires |q| > 0 && start <= |s| == |lc|
    ensures LeftmostFrom(Segments(s, lc, q, start), s, lc, q, start)
    decreases |s| - start
  {
    var pos := IndexOf(lc, q, start);
    if pos == -1 {
      LeftmostAtEnd(s, lc, q, start);
    } else {
      SegmentsLeftmost(s, lc, q, pos + |q|);
      LeftmostAtMatch(s, lc, q, start);
    }
  }

  /** The last step of `Segments` prints a leftmost run. */
  lemma LeftmostAtEnd(s: string, lc: string, q: string, start: nat)
    requires |q| > 0 && start <= |s| == |lc| && IndexOf(lc, q, start) == -1
    ensures LeftmostFrom(Segments(s, lc, q, start), s, lc, q, start)
  {
    IndexOfSpec(lc, q, start);
    SegmentsAtEnd(s, lc, q, start);
    LeftmostTail(s, lc, q, start);
  }

  /** A step of `Segments` at an occurrence keeps the run leftmost. */
  lemma LeftmostAtMatch(s: string, lc: string, q: string, start: nat)
    requires |q| > 0 && start <= |s| == |lc| && IndexOf(lc, q, start) != -1
    requires LeftmostFrom(Segments(s, lc, q, IndexOf(lc, q, start) + |q|), s, lc, q, IndexOf(lc, q, start) + |q|)
    ensures LeftmostFrom(Segments(s, lc, q, start), s, lc, q, start)
  {
    var pos := IndexOf(lc, q, start);
    var next := pos + |q|;
    IndexOfSpec(lc, q, start);
    SegmentsAtMatch(s, lc, q, start, pos, next);
    LeftmostGapMatch(s, lc, q, start, pos, Segments(s, lc, q, next));
  }

  lemma {:induction false} LeftmostIsSegments(cs: seq<Chunk>, s: string, lc: string, q: string, p: nat)
    requires |q| > 0 && |lc| == |s| && LeftmostFrom(cs, s, lc, q, p)
    ensures cs == Segments(s, lc, q, p)
    decreases |cs|
  {
    if |cs| == 0 {
      LeftmostEmpty(cs, s, lc, q, p);
    } else {
      LeftmostUncons(cs, s, lc, q, p);
      LeftmostIsSegments(cs[1..], s, lc, q, p + |cs[0].text|);
      LeftmostStep(cs, s, lc, q, p);
    }
  }

  lemma LeftmostEmpty(cs: seq<Chunk>, s: string, lc: string, q: string, p: nat)
    requires |q| > 0 && |lc| == |s| && LeftmostFrom(cs, s, lc, q, p) && |cs| == 0
    ensures cs == Segments(s, lc, q, p)
  {
    assert |s[p..]| == 0;
    SegmentsNoOccurrence(s, lc, q, p);
  }

  lemma LeftmostStep(cs: seq<Chunk>, s: string, lc: string, q: string, p: nat)
    requires |q| > 0 && |lc| == |s| && LeftmostFrom(cs, s, lc, q, p) && |cs| > 0
    requires cs[1..] == Segments(s, lc, q, p + |cs[0].text|)
    ensures cs == Segments(s, lc, q, p)
  {
    LeftmostHead(cs, s, lc, q, p);
    FirstChunk(cs, s, lc, q, p);
  }

  /** What a leftmost run says about its first two chunks. */
  lemma LeftmostHead(cs: seq<Chunk>, s: string, lc: string, q: string, p: nat)
    requires LeftmostFrom(cs, s, lc, q, p) && |cs| > 0
    ensures p + |cs[0].text| <= |s| && cs[0].text == s[p..p + |cs[0].text|]
    ensures Fits(cs[0], lc, q, p)
    ensures |cs| == 1 ==> p + |cs[0].text| == |s|
    ensures cs[0].Plain? && |cs| > 1 ==> cs[1].Marked? && Fits(cs[1], lc, q, p + |cs[0].text|)
  {
    LeftmostUncons(cs, s, lc, q, p);
    if |cs| > 1 {
      LeftmostUncons(cs[1..], s, lc, q, p + |cs[0].text|);
    } else {
      assert |s[p + |cs[0].text|..]| == |Concat(cs[1..])| == 0;
    }
  }

  /** The step of `LeftmostIsSegments`: the first chunk is the one `Segments` prints. */
  lemma FirstChunk(cs: seq<Chunk>, s: string, lc: string, q: string, p: nat)
    requires |q| > 0 && |lc| == |s| && |cs| > 0
    requires p + |cs[0].text| <= |s| && cs[0].text == s[p..p + |cs[0].text|]
    requires Fits(cs[0], lc, q, p)
    requires cs[1..] == Segments(s, lc, q, p + |cs[0].text|)
    requires |cs| == 1 ==> p + |cs[0].text| == |s|
    requires cs[0].Plain? && |cs| > 1 ==> cs[1].Marked? && Fits(cs[1], lc, q, p + |cs[0].text|)
    ensures cs == Segments(s, lc, q, p)
  {
    var c := cs[0];
    var m := p + |c.text|;
    if c.Marked? {
      FirstMarked(cs, s, lc, q, p);
    } else if |cs| == 1 {
      FirstPlainLast(cs, s, lc, q, p);
    } else {
      assert OccursAt(lc, q, m);
      FirstPlainBefore(cs, s, lc, q, p);
    }
  }

  lemma FirstMarked(cs: seq<Chunk>, s: string, lc: string, q: string, p: nat)
    requires |q| > 0 && |lc| == |s| && |cs| > 0 && cs[0].Marked?
    requires |cs[0].text| == |q| && p + |q| <= |s| && cs[0].text == s[p..p + |q|] && OccursAt(lc, q, p)
    requires cs[1..] == Segments(s, lc, q, p + |q|)
    ensures cs == Segments(s, lc, q, p)
  {
    SegmentsAtOccurrence(s, lc, q, p);
    assert cs[0] == Marked(s[p..p + |q|]);
    assert cs == [cs[0]] + cs[1..];
  }

  lemma FirstPlainLast(cs: seq<Chunk>, s: string, lc: string, q: string, p: nat)
    requires |q| > 0 && |lc| == |s| && |cs| == 1 && cs[0].Plain?
    requires p < |s| && cs[0].text == s[p..|s|]
    requires forall i :: p <= i < |s| ==> !OccursAt(lc, q, i)
    ensures cs == Segments(s, lc, q, p)
  {
    SegmentsNoOccurrence(s, lc, q, p);
    assert cs == [Plain(s[p..|s|])];
  }

  lemma FirstPlainBefore(cs: seq<Chunk>, s: string, lc: string, q: string, p: nat)
    requires |q| > 0 && |lc| == |s| && |cs| > 1 && cs[0].Plain?
    requires var m := p + |cs[0].text|;
      p < m <= |s| && cs[0].text == s[p..m] && OccursAt(lc, q, m)
      && (forall i :: p <= i < m ==> !OccursAt(lc, q, i))
      && cs[1..] == Segments(s, lc, q, m)
    ensures cs == Segments(s, lc, q, p)
  {
    var m := p + |cs[0].text|;
    SegmentsBeforeOccurrence(s, lc, q, p, m);
    assert cs[0] == Plain(s[p..m]);
    assert cs == [cs[0]] + cs[1..];
  }

  /** The printed chunks take the occurrences left to right: each highlighted chunk starts at
      an occurrence, no occurrence starts inside a plain chunk, and plain chunks never touch. */
  lemma HighlightedLeftmost(text: string, query: string)
    ensures |Lower(query)| > 0 ==> Leftmost(Highlighted(text, query), text, Lower(query))
  {
    if |Lower(query)| > 0 {
      SegmentsLeftmost(text, Lower(text), Lower(query), 0);
    }
  }

  /** Only one run of chunks follows that rule, so it fixes what is printed. */
  lemma LeftmostUnique(cs: seq<Chunk>, text: string, query: string)
    requires |Lower(query)| > 0 && Leftmost(cs, text, Lower(query))
    ensures cs == Highlighted(text, query)
  {
    LeftmostIsSegments(cs, text, Lower(text), Lower(query), 0);
  }
}
