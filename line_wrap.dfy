/**
  `wrapLines`: text is cut into lines at each line feed (a carriage return just
  before it goes too), every line is word-wrapped to the width on its own, and a
  line the wrapper turns into nothing still yields one blank row, so that blank
  lines survive. The word wrapper itself belongs to a library and is a parameter.
 */
module LineWrap {
  import opened Strings

  /** A line with one trailing carriage return removed. */
  function DropCR(p: string): (r: string)
    ensures |p| > 0 && p[|p| - 1] == '\r' ==> r == p[..|p| - 1]
    ensures !(|p| > 0 && p[|p| - 1] == '\r') ==> r == p
  {
    if |p| > 0 && p[|p| - 1] == '\r' then p[..|p| - 1] else p
  }

  /** `split(/\r?\n/)`: the pieces between line feeds, each but the last losing the
      carriage return that closed it. */
  function SplitLines(s: string): (r: seq<string>)
    ensures |r| == |SplitOn(s, '\n')| >= 1
    ensures forall k :: 0 <= k < |r| ==> '\n' !in r[k]
    ensures forall k :: 0 <= k < |r| - 1 ==> r[k] == DropCR(SplitOn(s, '\n')[k])
    ensures r[|r| - 1] == SplitOn(s, '\n')[|r| - 1]
  {
    var pieces := SplitOn(s, '\n');
    seq(|pieces|, k requires 0 <= k < |pieces| => if k < |pieces| - 1 then DropCR(pieces[k]) else pieces[k])
  }

  /** Text without carriage returns splits into exactly its line-feed pieces, which
      join back into the text. */
  lemma SplitLinesRoundTrip(s: string)
    requires '\r' !in s
    ensures SplitLines(s) == SplitOn(s, '\n')
    ensures Join(SplitLines(s), "\n") == s
  {
    var pieces := SplitOn(s, '\n');
    forall k | 0 <= k < |pieces| - 1
      ensures DropCR(pieces[k]) == pieces[k]
    {
      JoinSplit(s, '\n');
      PieceInText(pieces, k, '\n');
      assert Join(pieces, "\n") == s;
      if |pieces[k]| > 0 {
        assert pieces[k][|pieces[k]| - 1] in pieces[k];
      }
    }
    JoinSplit(s, '\n');
  }

  /** Every character of a piece occurs in the joined text. */
  lemma {:induction false} PieceInText(xs: seq<string>, k: nat, c: char)
    requires k < |xs|
    ensures forall ch :: ch in xs[k] ==> ch in Join(xs, [c])
    decreases |xs|
  {
    if |xs| > 1 {
      if k > 0 {
        PieceInText(xs[1..], k - 1, c);
        assert xs[1..][k - 1] == xs[k];
      }
      assert Join(xs, [c]) == xs[0] + [c] + Join(xs[1..], [c]);
    }
  }

  /** The rows one line becomes: what the wrapper returns, or one blank row when it returns nothing. */
  function Block(line: string, w: nat, wrap: (string, nat) -> seq<string>): (r: seq<string>)
    ensures |r| >= 1
    ensures |wrap(line, w)| > 0 ==> r == wrap(line, w)
  {
    var wrapped := wrap(line, w);
    if |wrapped| > 0 then wrapped else [""]
  }

  /** The rows of a run of lines, block after block. */
  function Rows(lines: seq<string>, w: nat, wrap: (string, nat) -> seq<string>): seq<string>
  {
    if |lines| == 0 then [] else Rows(lines[..|lines| - 1], w, wrap) + Block(lines[|lines| - 1], w, wrap)
  }

  /** `Math.max(1, width)`. */
  function WrapWidth(width: int): (w: nat)
    ensures w >= 1 && w >= width
  {
    if width < 1 then 1 else width
  }

  /** `wrapLines(text, width)` with `wrap` standing for the word wrapper. */
  method WrapLines(text: string, width: int, wrap: (string, nat) -> seq<string>) returns (out: seq<string>)
    ensures out == Rows(SplitLines(text), WrapWidth(width), wrap)
  {
    var w := WrapWidth(width);
    var lines := SplitLines(text);
    out := [];
    for i := 0 to |lines|
      invariant out == Rows(lines[..i], w, wrap)
    {
      var wrapped := wrap(lines[i], w);
      if |wrapped| > 0 {
        out := out + wrapped;
      } else {
        out := out + [""];
      }
      assert lines[..i + 1][..i] == lines[..i];
    }
    assert lines[..|lines|] == lines;
  }

  /** Each line yields at least one row, so no line (blank ones included) disappears. */
  lemma {:induction false} RowsAtLeastLines(lines: seq<string>, w: nat, wrap: (string, nat) -> seq<string>)
    ensures |Rows(lines, w, wrap)| >= |lines|
    decreases |lines|
  {
    if |lines| > 0 {
      RowsAtLeastLines(lines[..|lines| - 1], w, wrap);
    }
  }

  /** When the wrapper leaves every line as the single row it is, the rows are the lines. */
  lemma {:induction false} RowsOfFittingLines(lines: seq<string>, w: nat, wrap: (string, nat) -> seq<string>)
    requires forall k :: 0 <= k < |lines| ==> wrap(lines[k], w) == [lines[k]]
    ensures Rows(lines, w, wrap) == lines
    decreases |lines|
  {
    if |lines| > 0 {
      var init := lines[..|lines| - 1];
      assert forall k :: 0 <= k < |init| ==> init[k] == lines[k];
      RowsOfFittingLines(init, w, wrap);
      assert lines == init + [lines[|lines| - 1]];
    }
  }

  /** Text with no carriage returns whose lines all fit is shown line for line. */
  lemma WrapKeepsFittingText(text: string, width: int, wrap: (string, nat) -> seq<string>)
    requires '\r' !in text
    requires forall line :: line in SplitLines(text) ==> wrap(line, WrapWidth(width)) == [line]
    ensures Rows(SplitLines(text), WrapWidth(width), wrap) == SplitOn(text, '\n')
    ensures Join(Rows(SplitLines(text), WrapWidth(width), wrap), "\n") == text
  {
    SplitLinesRoundTrip(text);
    RowsOfFittingLines(SplitLines(text), WrapWidth(width), wrap);
  }
}
