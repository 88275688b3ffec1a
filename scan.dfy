/**
  The ring search behind every "find next" of the viewer: starting from a position,
  step one place at a time in one direction, wrapping at either end, and stop at the
  first position that matches; the starting position itself is looked at last. The
  loops of the screens (n/N in the list search, `findFrom` in the conversation list,
  n/N and the live search in the text panel) are each proved against this reference.
 */
module Scan {

  /** The position reached after `k` steps in direction `dir` (forward when non-negative)
      from `start` on a ring of `n` positions. */
  function Visit(start: int, dir: int, k: nat, n: nat): (r: nat)
    requires n > 0
    ensures r < n
  {
    if dir >= 0 then (start + k) % n else (start - k) % n
  }

  /** The first step from `k` up to `n` that lands on a hit, or -1. */
  function FirstHit(n: nat, hit: int -> bool, start: int, dir: int, k: nat): (r: int)
    requires n > 0 && k >= 1
    ensures r == -1 || (k <= r <= n && hit(Visit(start, dir, r, n)))
    decreases n + 1 - k
  {
    if k > n then -1
    else if hit(Visit(start, dir, k, n)) then k
    else FirstHit(n, hit, start, dir, k + 1)
  }

  /** No step between `k` and the answer (or `n`, when there is none) is a hit. */
  lemma {:induction false} FirstHitMisses(n: nat, hit: int -> bool, start: int, dir: int, k: nat, r: int)
    requires n > 0 && k >= 1 && r == FirstHit(n, hit, start, dir, k)
    ensures forall j :: k <= j <= n && (r == -1 || j < r) ==> !hit(Visit(start, dir, j, n))
    decreases n + 1 - k
  {
    if k <= n && !hit(Visit(start, dir, k, n)) {
      FirstHitMisses(n, hit, start, dir, k + 1, r);
    }
  }

  /** One step of the search: a hit at step `k` ends it there, a miss defers to step `k + 1`. */
  lemma FirstHitStep(n: nat, hit: int -> bool, start: int, dir: int, k: nat, i: int)
    requires n > 0 && 1 <= k <= n && i == Visit(start, dir, k, n)
    ensures hit(i) ==> FirstHit(n, hit, start, dir, k) == k
    ensures !hit(i) ==> FirstHit(n, hit, start, dir, k) == FirstHit(n, hit, start, dir, k + 1)
  {
  }

  /** The reference search: the position of the first hit met when stepping from `start`
      for at most `n` steps, or -1 when there is none (always -1 on an empty ring). */
  function CircularSearch(n: nat, hit: int -> bool, start: int, dir: int): int
  {
    if n == 0 then -1
    else
      var k := FirstHit(n, hit, start, dir, 1);
      if k == -1 then -1 else Visit(start, dir, k, n)
  }

  // ---------------------------------------------------------------- arithmetic of the ring

  /** Euclidean division has one remainder: `a = q * n + r` with `0 <= r < n` fixes `r`. */
  lemma ModUnique(a: int, n: int, q: int, r: int)
    requires n > 0 && 0 <= r < n && a == q * n + r
    ensures a % n == r
  {
    var q', r' := a / n, a % n;
    assert a == q' * n + r';
    if q' > q {
      assert q' * n >= (q + 1) * n by { MulMonotone(q + 1, q', n); }
      assert false;
    } else if q' < q {
      assert q * n >= (q' + 1) * n by { MulMonotone(q' + 1, q, n); }
      assert false;
    }
  }

  lemma MulMonotone(a: int, b: int, n: int)
    requires a <= b && n > 0
    ensures a * n <= b * n
  {
    assert b * n - a * n == (b - a) * n;
  }

  /** Starting inside the ring, no step leaves you where you are. */
  lemma VisitZero(start: int, dir: int, n: nat)
    requires 0 <= start < n
    ensures Visit(start, dir, 0, n) == start
  {
    ModUnique(start, n, 0, start);
  }

  /** One more step moves to the neighbour in direction `dir`, wrapping at the ends. */
  lemma VisitNext(start: int, dir: int, k: nat, n: nat)
    requires n > 0
    ensures var i := Visit(start, dir, k, n);
      Visit(start, dir, k + 1, n)
      == if dir >= 0 then (if i + 1 == n then 0 else i + 1) else (if i == 0 then n - 1 else i - 1)
  {
    var a := if dir >= 0 then start + k else start - k;
    var q, i := a / n, a % n;
    assert a == q * n + i;
    if dir >= 0 {
      if i + 1 == n {
        ModUnique(a + 1, n, q + 1, 0);
      } else {
        ModUnique(a + 1, n, q, i + 1);
      }
    } else {
      if i == 0 {
        ModUnique(a - 1, n, q - 1, n - 1);
      } else {
        ModUnique(a - 1, n, q, i - 1);
      }
    }
  }

  /** The loops' way of taking one step: move by `dir` and jump to the other end when
      falling off one. */
  lemma VisitStep(start: int, dir: int, k: nat, n: nat, i: int, next: int)
    requires n > 0 && (dir == 1 || dir == -1) && i == Visit(start, dir, k, n)
    requires next == if i + dir < 0 then n - 1 else if i + dir >= n then 0 else i + dir
    ensures next == Visit(start, dir, k + 1, n)
  {
    VisitNext(start, dir, k, n);
  }

  /** One iteration of a search loop: the loop's step lands on the next position, where
      the search either ends or carries on. */
  lemma SearchStep(n: nat, hit: int -> bool, start: int, dir: int, k: nat, i: int, next: int)
    requires n > 0 && (dir == 1 || dir == -1) && k < n && i == Visit(start, dir, k, n)
    requires next == if i + dir < 0 then n - 1 else if i + dir >= n then 0 else i + dir
    ensures next == Visit(start, dir, k + 1, n)
    ensures hit(next) ==> FirstHit(n, hit, start, dir, k + 1) == k + 1
    ensures !hit(next) ==> FirstHit(n, hit, start, dir, k + 1) == FirstHit(n, hit, start, dir, k + 2)
  {
    VisitStep(start, dir, k, n, i, next);
    FirstHitStep(n, hit, start, dir, k + 1, next);
  }

  /** The forward loops' way of counting: step `k` from a position `s` of the ring is
      `s + k`, less `n` once past the end. */
  lemma ForwardStep(n: nat, hit: int -> bool, s: int, k: nat, i: int)
    requires 0 <= s < n && 1 <= k <= n && i == (if s + k < n then s + k else s + k - n)
    ensures i == Visit(s, 1, k, n)
    ensures hit(i) ==> FirstHit(n, hit, s, 1, k) == k
    ensures !hit(i) ==> FirstHit(n, hit, s, 1, k) == FirstHit(n, hit, s, 1, k + 1)
  {
    if s + k < n {
      ModUnique(s + k, n, 0, i);
    } else {
      ModUnique(s + k, n, 1, i);
    }
    FirstHitStep(n, hit, s, 1, k, i);
  }

  /** The step at which position `j` is reached: between 1 and `n`, and below `n` unless
      `j` is the starting position. */
  function StepsTo(start: int, dir: int, n: nat, j: nat): (k: nat)
    requires 0 <= j < n
    ensures 1 <= k <= n && Visit(start, dir, k, n) == j
    ensures j != start % n ==> k < n
  {
    var d := if dir >= 0 then j - start else start - j;
    var m := d % n;
    StepsToFacts(start, dir, n, j, d, m);
    if m == 0 then n else m
  }

  lemma StepsToFacts(start: int, dir: int, n: nat, j: nat, d: int, m: int)
    requires 0 <= j < n && d == (if dir >= 0 then j - start else start - j) && m == d % n
    ensures m == 0 ==> Visit(start, dir, n, n) == j && j == start % n
    ensures m != 0 ==> 1 <= m < n && Visit(start, dir, m, n) == j
  {
    var Q := d / n;
    assert d == Q * n + m;
    if dir >= 0 {
      if m == 0 {
        ModUnique(start + n, n, 1 - Q, j);
        ModUnique(start, n, -Q, j);
      } else {
        ModUnique(start + m, n, -Q, j);
      }
    } else {
      if m == 0 {
        ModUnique(start - n, n, Q - 1, j);
        ModUnique(start, n, Q, j);
      } else {
        ModUnique(start - m, n, Q, j);
      }
    }
  }

  // ---------------------------------------------------------------- the loop

  /** The position the n/N loops move to from `sel`: one step in direction `dir`, jumping
      to the other end when falling off one. */
  function Entry(sel: int, dir: int, n: nat): int
  {
    if sel + dir < 0 then n - 1 else if sel + dir >= n then 0 else sel + dir
  }

  /** The loop the screens run for n/N: from `sel`, take the step of `Entry` at most `n`
      times and stop at the first hit. It is the reference search from the position one
      step before the first one it looks at, which is `sel` itself when `sel` is in the ring. */
  method StepSearch(n: nat, hit: int -> bool, sel: int, dir: int) returns (r: int)
    requires dir == 1 || dir == -1
    ensures r == -1 || (0 <= r < n && hit(r))
    ensures n > 0 ==> r == CircularSearch(n, hit, Entry(sel, dir, n) - dir, dir)
    ensures n == 0 ==> r == -1
  {
    ghost var start := Entry(sel, dir, n) - dir;
    var i := sel;
    var steps := 0;
    while steps < n
      invariant 0 <= steps <= n
      invariant steps > 0 ==> 0 <= i < n && i == Visit(start, dir, steps, n)
      invariant steps == 0 ==> i == sel
      invariant n > 0 ==> FirstHit(n, hit, start, dir, 1) == FirstHit(n, hit, start, dir, steps + 1)
      decreases n - steps
    {
      var next := Entry(i, dir, n);
      LoopStep(n, hit, sel, dir, start, steps, i, next);
      i := next;
      if hit(i) {
        SearchEnds(n, hit, start, dir, steps + 1);
        assert CircularSearch(n, hit, start, dir) == i;
        return i;
      }
      steps := steps + 1;
    }
    if n > 0 {
      SearchEnds(n, hit, start, dir, n + 1);
      assert CircularSearch(n, hit, start, dir) == -1;
    }
    return -1;
  }

  /** Where a search loop ends: at step `k` when that step hits and none before it did,
      with -1 when every step has missed. */
  lemma SearchEnds(n: nat, hit: int -> bool, start: int, dir: int, k: nat)
    requires n > 0 && 1 <= k <= n + 1
    requires FirstHit(n, hit, start, dir, 1) == FirstHit(n, hit, start, dir, k)
    ensures k <= n && hit(Visit(start, dir, k, n)) ==> CircularSearch(n, hit, start, dir) == Visit(start, dir, k, n)
    ensures k == n + 1 ==> CircularSearch(n, hit, start, dir) == -1
  {
  }

  /** One iteration of the n/N loop: its step lands on the next position of the ring,
      where the search either ends or carries on. */
  lemma LoopStep(n: nat, hit: int -> bool, sel: int, dir: int, start: int, steps: nat, i: int, next: int)
    requires n > 0 && (dir == 1 || dir == -1) && steps < n && start == Entry(sel, dir, n) - dir
    requires steps == 0 ==> i == sel
    requires steps > 0 ==> i == Visit(start, dir, steps, n)
    requires next == Entry(i, dir, n)
    ensures next == Visit(start, dir, steps + 1, n)
    ensures hit(next) ==> FirstHit(n, hit, start, dir, steps + 1) == steps + 1
    ensures !hit(next) ==> FirstHit(n, hit, start, dir, steps + 1) == FirstHit(n, hit, start, dir, steps + 2)
  {
    if steps == 0 {
      EntryVisit(sel, dir, n);
      FirstHitStep(n, hit, start, dir, 1, next);
    } else {
      SearchStep(n, hit, start, dir, steps, i, next);
    }
  }

  /** The loops' first step lands one ring step after `Entry(sel, dir, n) - dir`. */
  lemma EntryVisit(sel: int, dir: int, n: nat)
    requires n > 0 && (dir == 1 || dir == -1)
    ensures Visit(Entry(sel, dir, n) - dir, dir, 1, n) == Entry(sel, dir, n)
  {
    var e := Entry(sel, dir, n);
    ModUnique(e, n, 0, e);
  }

  /** From a position of the ring, the loops' search is the reference search from there. */
  lemma EntryInRing(n: nat, hit: int -> bool, sel: int, dir: int)
    requires 0 <= sel < n && (dir == 1 || dir == -1)
    ensures CircularSearch(n, hit, Entry(sel, dir, n) - dir, dir) == CircularSearch(n, hit, sel, dir)
  {
    var start := Entry(sel, dir, n) - dir;
    ModUnique(sel, n, 0, sel);
    if start == n {
      ModUnique(n, n, 1, 0);
    } else if start == -1 {
      ModUnique(-1, n, -1, n - 1);
    }
    FirstHitCongruent(n, hit, start, sel, dir, 1);
    var k := FirstHit(n, hit, sel, dir, 1);
    if k != -1 {
      VisitCongruent(start, sel, dir, k, n);
    }
  }

  /** Starts that agree modulo `n` visit the same positions. */
  lemma VisitCongruent(a: int, b: int, dir: int, k: nat, n: nat)
    requires n > 0 && a % n == b % n
    ensures Visit(a, dir, k, n) == Visit(b, dir, k, n)
  {
    var r := a % n;
    var d := if dir >= 0 then r + k else r - k;
    var qa, qb := a / n, b / n;
    assert a == qa * n + r && b == qb * n + r;
    var xa, xb := (if dir >= 0 then a + k else a - k), (if dir >= 0 then b + k else b - k);
    assert xa == d + qa * n && xb == d + qb * n;
    ModShift(d, qa, n);
    ModShift(d, qb, n);
    assert Visit(a, dir, k, n) == xa % n && Visit(b, dir, k, n) == xb % n;
  }

  /** Adding whole turns of the ring does not change the position. */
  lemma ModShift(x: int, q: int, n: nat)
    requires n > 0
    ensures (x + q * n) % n == x % n
  {
    var t, m := x / n, x % n;
    assert (t + q) * n == t * n + q * n;
    ModUnique(x + q * n, n, t + q, m);
  }

  /** ... and so find the same first hit. */
  lemma {:induction false} FirstHitCongruent(n: nat, hit: int -> bool, a: int, b: int, dir: int, k: nat)
    requires n > 0 && k >= 1 && a % n == b % n
    ensures FirstHit(n, hit, a, dir, k) == FirstHit(n, hit, b, dir, k)
    decreases n + 1 - k
  {
    if k <= n {
      VisitCongruent(a, b, dir, k, n);
      FirstHitCongruent(n, hit, a, b, dir, k + 1);
    }
  }

  // ---------------------------------------------------------------- what the search promises

  /** The search answers a hit or -1, and -1 exactly when no position hits: `n` steps
      look at every position. */
  lemma CircularSearchSound(n: nat, hit: int -> bool, start: int, dir: int)
    ensures var r := CircularSearch(n, hit, start, dir);
      r == -1 || (0 <= r < n && hit(r))
    ensures CircularSearch(n, hit, start, dir) == -1 <==> forall i :: 0 <= i < n ==> !hit(i)
  {
    if n > 0 && CircularSearch(n, hit, start, dir) == -1 {
      FirstHitMisses(n, hit, start, dir, 1, FirstHit(n, hit, start, dir, 1));
      forall i | 0 <= i < n
        ensures !hit(i)
      {
        var k := StepsTo(start, dir, n, i);
      }
    }
  }

  /** The starting position is looked at last: the search lands on it exactly when it is
      the only position that hits. */
  lemma CircularSearchStartLast(n: nat, hit: int -> bool, start: int, dir: int)
    requires 0 <= start < n
    ensures CircularSearch(n, hit, start, dir) == start <==>
      hit(start) && forall i :: 0 <= i < n && i != start ==> !hit(i)
  {
    ModUnique(start, n, 0, start);
    VisitFull(start, dir, n);
    var k := FirstHit(n, hit, start, dir, 1);
    FirstHitMisses(n, hit, start, dir, 1, k);
    if CircularSearch(n, hit, start, dir) == start {
      if k < n {
        StepsUnique(start, dir, n, k, n);
      }
      forall i | 0 <= i < n && i != start
        ensures !hit(i)
      {
        var j := StepsTo(start, dir, n, i);
      }
    }
  }

  /** `n` steps lead back to the start. */
  lemma VisitFull(start: int, dir: int, n: nat)
    requires 0 <= start < n
    ensures Visit(start, dir, n, n) == start
  {
    if dir >= 0 {
      ModUnique(start + n, n, 1, start);
    } else {
      ModUnique(start - n, n, -1, start);
    }
  }

  /** Different steps up to `n` land on different positions. */
  lemma StepsUnique(start: int, dir: int, n: nat, k1: nat, k2: nat)
    requires n > 0 && 1 <= k1 < k2 <= n
    ensures Visit(start, dir, k1, n) != Visit(start, dir, k2, n)
  {
    var d := k2 - k1;
    var a1 := if dir >= 0 then start + k1 else start - k1;
    var q, r := a1 / n, a1 % n;
    assert a1 == q * n + r;
    if dir >= 0 {
      if r + d < n {
        ModUnique(a1 + d, n, q, r + d);
      } else {
        ModUnique(a1 + d, n, q + 1, r + d - n);
      }
    } else {
      if r - d >= 0 {
        ModUnique(a1 - d, n, q, r - d);
      } else {
        ModUnique(a1 - d, n, q - 1, r - d + n);
      }
    }
  }
}
