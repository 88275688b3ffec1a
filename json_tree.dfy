/**
  The lazy JSON tree browser of cli/jsontree.js: every value of a parsed document is a
  node identified by its path of keys from the root; the browser keeps the set of
  expanded nodes, the set of nodes whose children have been built, the pre-order list of
  visible nodes, and a cursor and scroll offset over that list.

  A node object of the program is modelled by its path: within one parsed document no two
  nodes share a path (`VisibleShape`), so the program's per-node `expanded` and
  `_childrenBuilt` flags are the membership of the node's path in `expanded` and `built`.
 */
module JsonTree {
  import opened Wrappers
  import opened Numerals
  import opened JsonValues
  import opened Viewport
  import opened Screen

  // ---------------------------------------------------------------- values

  /** One key of a path: an object member's name or an array index. The two never
      compare equal, as `'0' !== 0` in the program. */
  datatype Step = Name(name: string) | Index(index: nat)

  type Path = seq<Step>

  /** `typeOf`. */
  function TypeOf(v: Json): string
  {
    match v
    case Null => "null"
    case Bool(_) => "boolean"
    case Num(_) => "number"
    case Str(_) => "string"
    case Arr(_) => "array"
    case Obj(_) => "object"
  }

  /** Two values are of the same kind of JSON value. */
  predicate SameKind(v: Json, w: Json)
  {
    v.Null? == w.Null? && v.Bool? == w.Bool? && v.Num? == w.Num?
    && v.Str? == w.Str? && v.Arr? == w.Arr? && v.Obj? == w.Obj?
  }

  /** The type name shown on the status line tells the kinds of values apart exactly. */
  lemma TypeOfKinds(v: Json, w: Json)
    ensures TypeOf(v) == TypeOf(w) <==> SameKind(v, w)
  {
    if !SameKind(v, w) {
      assert |TypeOf(v)| != |TypeOf(w)| || TypeOf(v)[0] != TypeOf(w)[0];
    }
  }

  /** Values as `JSON.parse` produces them: no object has two members of the same name. */
  predicate Parsed(v: Json)
    decreases v
  {
    match v
    case Arr(items) => forall i :: 0 <= i < |items| ==> Parsed(items[i])
    case Obj(ms) =>
      (forall j, k :: 0 <= j < k < |ms| ==> ms[j].name != ms[k].name)
      && forall i :: 0 <= i < |ms| ==> Parsed(ms[i].value)
    case _ => true
  }

  // ---------------------------------------------------------------- previews

  const PreviewMax: nat := 60

  /** How a character of a string is shown in a preview: a line break as '⏎'. */
  function Shown(c: char): char
  {
    if c == '\n' then '⏎' else c
  }

  function ShowBreaks(s: string): (r: string)
    ensures |r| == |s| && forall i :: 0 <= i < |s| ==> r[i] == Shown(s[i])
  {
    seq(|s|, i requires 0 <= i < |s| => Shown(s[i]))
  }

  /** `previewValue(v)` with its default budget of 60 characters. */
  function PreviewValue(v: Json): (r: string)
    ensures |r| >= 1
  {
    match v
    case Str(s) =>
      var cut := if |s| > PreviewMax then s[..PreviewMax - 1] + "…" else s;
      "\"" + ShowBreaks(cut) + "\""
    case Num(n) => IntToString(n)
    case Bool(b) => if b then "true" else "false"
    case Null => "null"
    case Arr(items) => "[" + Decimal(|items|) + "]"
    case Obj(ms) => "{" + Decimal(|ms|) + "}"
  }

  /** A string previews as at most 60 of its characters in quotes: a longer one as its
      first 59 and '…', each line break shown as '⏎'. */
  lemma PreviewString(s: string)
    ensures var r := PreviewValue(Str(s));
      |r| == Min(|s|, PreviewMax) + 2 && r[0] == '"' && r[|r| - 1] == '"'
      && (|s| <= PreviewMax ==> forall i :: 0 <= i < |s| ==> r[i + 1] == Shown(s[i]))
      && (|s| > PreviewMax ==>
            r[PreviewMax] == '…' && forall i :: 0 <= i < PreviewMax - 1 ==> r[i + 1] == Shown(s[i]))
  {
    var r := PreviewValue(Str(s));
    var cut := if |s| > PreviewMax then s[..PreviewMax - 1] + "…" else s;
    assert r == "\"" + ShowBreaks(cut) + "\"";
    assert forall i :: 0 <= i < |cut| ==> r[i + 1] == Shown(cut[i]);
  }

  /** Every preview fits on one row: none contains a line break. */
  lemma PreviewSingleLine(v: Json)
    ensures '\n' !in PreviewValue(v)
  {
    match v
    case Str(s) =>
      var r := PreviewValue(v);
      PreviewString(s);
      forall i | 0 <= i < |r|
        ensures r[i] != '\n'
      {
        if 0 < i < |r| - 1 && |s| <= PreviewMax {
          assert r[i] == Shown(s[i - 1]);
        } else if 0 < i < |r| - 1 && i != PreviewMax {
          assert r[i] == Shown(s[i - 1]);
        }
      }
    case Num(n) =>
      NoBreakInDigits(Decimal(if n < 0 then -n else n));
    case Arr(items) =>
      NoBreakInDigits(Decimal(|items|));
    case Obj(ms) =>
      NoBreakInDigits(Decimal(|ms|));
    case _ =>
  }

  lemma NoBreakInDigits(d: string)
    requires AllDigits(d, 10)
    ensures '\n' !in d
  {
    forall i | 0 <= i < |d|
      ensures d[i] != '\n'
    {
      assert DigitValue(d[i]) >= 0;
    }
  }

  /** The key label: "(root)" for the root, `[i]` for an array index, the bare name. */
  function KeyLabel(key: Option<Step>): string
  {
    match key
    case None => "(root)"
    case Some(Index(i)) => "[" + Decimal(i) + "]"
    case Some(Name(s)) => s
  }

  /** `labelFor`: the key label and the value preview. */
  function LabelFor(n: Node): (string, string)
  {
    (KeyLabel(n.key), PreviewValue(n.value))
  }

  /** Array elements get different labels: `[i]` spells the index out. */
  lemma IndexLabelsDistinct(i: nat, j: nat)
    requires KeyLabel(Some(Index(i))) == KeyLabel(Some(Index(j)))
    ensures i == j
  {
    var a, b := KeyLabel(Some(Index(i))), KeyLabel(Some(Index(j)));
    assert Decimal(i) == a[1..|a| - 1];
    assert Decimal(j) == b[1..|b| - 1];
    DecimalInjective(i, j);
  }

  // ---------------------------------------------------------------- nodes

  /** `makeNode`: the node's key (none for the root), its value, depth and path. */
  datatype Node = Node(key: Option<Step>, value: Json, depth: nat, path: Path)

  /** The root node of a document. */
  function RootNode(v: Json): Node
  {
    Node(None, v, 0, [])
  }

  /** The keys of a value's children: member names in order, indices in order. */
  function ChildSteps(v: Json): (r: seq<Step>)
    ensures v.Arr? ==> |r| == |v.items| && forall i :: 0 <= i < |r| ==> r[i] == Index(i)
    ensures v.Obj? ==> |r| == |v.members| && forall i :: 0 <= i < |r| ==> r[i] == Name(v.members[i].name)
    ensures !v.Arr? && !v.Obj? ==> r == []
  {
    match v
    case Arr(items) => seq(|items|, i requires 0 <= i < |items| => Index(i))
    case Obj(ms) => seq(|ms|, i requires 0 <= i < |ms| => Name(ms[i].name))
    case _ => []
  }

  /** `hasChildren`: an object with a key or an array with an element. */
  function HasChildren(v: Json): (r: bool)
    ensures r <==> |ChildSteps(v)| > 0
  {
    (v.Obj? && |v.members| > 0) || (v.Arr? && |v.items| > 0)
  }

  /** `buildChildren`: one node per key, in key order for an object and index order for an
      array, one level deeper, its path the parent's path and its key; none for a scalar. */
  function Children(n: Node): (r: seq<Node>)
    ensures |r| == |ChildSteps(n.value)|
    ensures forall i :: 0 <= i < |r| ==>
      r[i].key == Some(ChildSteps(n.value)[i]) && r[i].depth == n.depth + 1
      && r[i].path == n.path + [ChildSteps(n.value)[i]]
    ensures n.value.Arr? ==> forall i :: 0 <= i < |r| ==> r[i].value == n.value.items[i]
    ensures n.value.Obj? ==> forall i :: 0 <= i < |r| ==> r[i].value == n.value.members[i].value
    ensures Parsed(n.value) ==> forall i :: 0 <= i < |r| ==> Parsed(r[i].value)
  {
    match n.value
    case Arr(items) =>
      seq(|items|, i requires 0 <= i < |items| => Node(Some(Index(i)), items[i], n.depth + 1, n.path + [Index(i)]))
    case Obj(ms) =>
      seq(|ms|, i requires 0 <= i < |ms| =>
        Node(Some(Name(ms[i].name)), ms[i].value, n.depth + 1, n.path + [Name(ms[i].name)]))
    case _ => []
  }

  /** Siblings have different keys, so different paths. */
  lemma StepsDistinct(v: Json, j: nat, k: nat)
    requires Parsed(v) && j < k < |ChildSteps(v)|
    ensures ChildSteps(v)[j] != ChildSteps(v)[k]
  {
  }

  // ---------------------------------------------------------------- the visible list

  /** `collectVisible`: the node, then, when it has children and is expanded, the visible
      list of each child in turn. */
  function Visible(n: Node, expanded: set<Path>): (r: seq<Node>)
    decreases n.value, 1
  {
    [n] + (if HasChildren(n.value) && n.path in expanded then VisibleFrom(n, 0, expanded) else [])
  }

  /** The visible lists of the children of `n` from the `i`-th on, one after the other. */
  function VisibleFrom(n: Node, i: nat, expanded: set<Path>): seq<Node>
    decreases n.value, 0, |Children(n)| - i
  {
    var cs := Children(n);
    if i >= |cs| then [] else Visible(cs[i], expanded) + VisibleFrom(n, i + 1, expanded)
  }

  /** `m` lies in the subtree of `n`: `n`'s path starts `m`'s, and depths follow paths. */
  predicate Below(n: Node, m: Node)
  {
    |n.path| <= |m.path| && m.path[..|n.path|] == n.path
    && m.depth - n.depth == |m.path| - |n.path|
  }

  predicate DistinctPaths(s: seq<Node>)
  {
    forall j, k :: 0 <= j < k < |s| ==> s[j].path != s[k].path
  }

  /** The pre-order walk emits a node first and then only nodes of its subtree, each
      further down; in a parsed document no two of them share a path. */
  lemma {:induction false} VisibleShape(n: Node, expanded: set<Path>)
    ensures var r := Visible(n, expanded);
      r[0] == n && (forall m :: m in r ==> Below(n, m))
      && (forall m :: m in r[1..] ==> |m.path| > |n.path|)
      && (Parsed(n.value) ==> DistinctPaths(r))
    decreases n.value, 1
  {
    var r := Visible(n, expanded);
    if HasChildren(n.value) && n.path in expanded {
      var rest := VisibleFrom(n, 0, expanded);
      VisibleFromShape(n, 0, expanded);
      assert r == [n] + rest && r[1..] == rest;
      if Parsed(n.value) {
        forall m | m in rest
          ensures m.path != n.path
        {
        }
        DistinctAfterHead(n, rest);
      }
    } else {
      assert r == [n];
    }
  }

  /** The children's visible lists hang below `n`, each entry under the key of the child
      it belongs to, one of the keys from the `i`-th on. */
  lemma {:induction false} VisibleFromShape(n: Node, i: nat, expanded: set<Path>)
    requires i <= |Children(n)|
    ensures var r := VisibleFrom(n, i, expanded);
      (forall m :: m in r ==>
        Below(n, m) && |m.path| > |n.path| && m.path[|n.path|] in ChildSteps(n.value)[i..])
      && (Parsed(n.value) ==> DistinctPaths(r))
    decreases n.value, 0, |Children(n)| - i
  {
    var cs := Children(n);
    if i < |cs| {
      var c := cs[i];
      var head := Visible(c, expanded);
      var tail := VisibleFrom(n, i + 1, expanded);
      VisibleShape(c, expanded);
      VisibleFromShape(n, i + 1, expanded);
      var steps := ChildSteps(n.value);
      forall m | m in head
        ensures Below(n, m) && |m.path| > |n.path| && m.path[|n.path|] == steps[i]
      {
        BelowChild(n, c, steps[i], m);
      }
      forall m | m in tail
        ensures m.path[|n.path|] in steps[i..]
      {
        LaterStep(steps, i, m.path[|n.path|]);
      }
      assert steps[i..][0] == steps[i];
      if Parsed(n.value) {
        forall a, b | a in head && b in tail
          ensures a.path != b.path
        {
          OtherStep(n.value, i, b.path[|n.path|]);
        }
        DistinctConcat(head, tail);
      }
    }
  }

  /** What lies below a child lies below its parent, under the child's key. */
  lemma BelowChild(n: Node, c: Node, s: Step, m: Node)
    requires c.path == n.path + [s] && c.depth == n.depth + 1 && Below(c, m)
    ensures Below(n, m) && |m.path| > |n.path| && m.path[|n.path|] == s
  {
    assert m.path[..|c.path|] == n.path + [s];
    assert m.path[..|n.path|] == m.path[..|c.path|][..|n.path|];
    assert m.path[|n.path|] == m.path[..|c.path|][|n.path|];
  }

  lemma LaterStep(steps: seq<Step>, i: nat, x: Step)
    requires i < |steps| && x in steps[i + 1..]
    ensures x in steps[i..]
  {
    var k :| 0 <= k < |steps[i + 1..]| && steps[i + 1..][k] == x;
    assert steps[i..][k + 1] == x;
  }

  lemma OtherStep(v: Json, i: nat, x: Step)
    requires Parsed(v) && i < |ChildSteps(v)| && x in ChildSteps(v)[i + 1..]
    ensures x != ChildSteps(v)[i]
  {
    var steps := ChildSteps(v);
    var k :| 0 <= k < |steps[i + 1..]| && steps[i + 1..][k] == x;
    assert x == steps[i + 1 + k];
    StepsDistinct(v, i, i + 1 + k);
  }

  lemma DistinctAfterHead(n: Node, rest: seq<Node>)
    requires DistinctPaths(rest) && forall m :: m in rest ==> m.path != n.path
    ensures DistinctPaths([n] + rest)
  {
    var r := [n] + rest;
    forall j, k | 0 <= j < k < |r|
      ensures r[j].path != r[k].path
    {
      if j == 0 {
        assert r[k] == rest[k - 1];
      } else {
        assert r[j] == rest[j - 1] && r[k] == rest[k - 1];
      }
    }
  }

  lemma DistinctConcat(a: seq<Node>, b: seq<Node>)
    requires DistinctPaths(a) && DistinctPaths(b)
    requires forall x, y :: x in a && y in b ==> x.path != y.path
    ensures DistinctPaths(a + b)
  {
    var r := a + b;
    forall j, k | 0 <= j < k < |r|
      ensures r[j].path != r[k].path
    {
      if k < |a| {
        assert r[j] == a[j] && r[k] == a[k];
      } else if j < |a| {
        assert r[j] == a[j] && r[k] == b[k - |a|];
        assert a[j] in a && b[k - |a|] in b;
      } else {
        assert r[j] == b[j - |a|] && r[k] == b[k - |a|];
      }
    }
  }

  /** A node's children are emitted, right after it, exactly when it has children and is
      expanded. */
  lemma ChildrenShown(n: Node, expanded: set<Path>)
    ensures |Visible(n, expanded)| > 1 <==> HasChildren(n.value) && n.path in expanded
    ensures HasChildren(n.value) && n.path in expanded ==> Visible(n, expanded)[1] == Children(n)[0]
  {
    if HasChildren(n.value) && n.path in expanded {
      var cs := Children(n);
      assert VisibleFrom(n, 0, expanded) == Visible(cs[0], expanded) + VisibleFrom(n, 1, expanded);
      assert Visible(cs[0], expanded)[0] == cs[0];
    }
  }

  /** Children none of which is expanded are emitted as they are, in order. */
  lemma {:induction false} CollapsedChildren(n: Node, i: nat, expanded: set<Path>)
    requires i <= |Children(n)|
    requires forall c :: c in Children(n) ==> c.path !in expanded
    ensures VisibleFrom(n, i, expanded) == Children(n)[i..]
    decreases |Children(n)| - i
  {
    var cs := Children(n);
    if i < |cs| {
      CollapsedChildren(n, i + 1, expanded);
      assert cs[i] in cs;
      assert Visible(cs[i], expanded) == [cs[i]];
      assert cs[i..] == [cs[i]] + cs[i + 1..];
    }
  }

  /** With only the root expanded, the browser shows the root and its children in order. */
  lemma InitialVisible(v: Json)
    ensures Visible(RootNode(v), {[]}) == [RootNode(v)] + Children(RootNode(v))
  {
    var n := RootNode(v);
    forall c | c in Children(n)
      ensures c.path !in {[]}
    {
    }
    CollapsedChildren(n, 0, {[]});
    if !HasChildren(v) {
      assert Children(n) == [];
    }
  }

  /** Opening a document builds the root's children and nothing else. */
  lemma InitialMarks(v: Json)
    ensures Marks(Visible(RootNode(v), {[]}), {[]}) == if HasChildren(v) then {[]} else {}
  {
    var n := RootNode(v);
    InitialVisible(v);
    MarksConcat([n], Children(n), {[]});
    MarksSingle(n, {[]});
    assert Marks(Children(n), {[]}) == {};
  }

  /** Sets that agree on every path above `p` (every proper prefix). */
  predicate AgreeAbove(e1: set<Path>, e2: set<Path>, p: Path)
  {
    forall k :: 0 <= k < |p| ==> (p[..k] in e1 <==> p[..k] in e2)
  }

  /** Whether a node is visible depends only on the nodes above it being expanded. */
  lemma {:induction false} StaysVisible(n: Node, e1: set<Path>, e2: set<Path>, m: Node)
    requires m in Visible(n, e1) && AgreeAbove(e1, e2, m.path)
    ensures m in Visible(n, e2)
    decreases n.value, 1
  {
    if m != n {
      var r := Visible(n, e1);
      VisibleShape(n, e1);
      assert HasChildren(n.value) && n.path in e1;
      assert r == [n] + VisibleFrom(n, 0, e1);
      assert m in r[1..];
      assert m.path[..|n.path|] == n.path;
      assert n.path in e2;
      StaysVisibleFrom(n, 0, e1, e2, m);
    }
  }

  lemma {:induction false} StaysVisibleFrom(n: Node, i: nat, e1: set<Path>, e2: set<Path>, m: Node)
    requires m in VisibleFrom(n, i, e1) && AgreeAbove(e1, e2, m.path)
    ensures m in VisibleFrom(n, i, e2)
    decreases n.value, 0, |Children(n)| - i
  {
    var cs := Children(n);
    if m in Visible(cs[i], e1) {
      StaysVisible(cs[i], e1, e2, m);
    } else {
      StaysVisibleFrom(n, i + 1, e1, e2, m);
    }
  }

  /** The parent of every visible node below `n` is visible too. */
  lemma {:induction false} ParentVisible(n: Node, e: set<Path>, m: Node)
    requires m in Visible(n, e) && |m.path| > |n.path|
    ensures exists q :: q in Visible(n, e) && q.path == m.path[..|m.path| - 1]
    decreases n.value, 1
  {
    var r := Visible(n, e);
    assert r[0] == n;
    assert HasChildren(n.value) && n.path in e;
    assert r == [n] + VisibleFrom(n, 0, e);
    ParentVisibleFrom(n, 0, e, m);
    if m.path[..|m.path| - 1] == n.path {
      assert n in r;
    } else {
      var q :| q in VisibleFrom(n, 0, e) && q.path == m.path[..|m.path| - 1];
      assert q in r;
    }
  }

  lemma {:induction false} ParentVisibleFrom(n: Node, i: nat, e: set<Path>, m: Node)
    requires m in VisibleFrom(n, i, e) && |m.path| > |n.path|
    ensures m.path[..|m.path| - 1] == n.path
      || exists q :: q in VisibleFrom(n, i, e) && q.path == m.path[..|m.path| - 1]
    decreases n.value, 0, |Children(n)| - i
  {
    var cs := Children(n);
    var head := Visible(cs[i], e);
    var tail := VisibleFrom(n, i + 1, e);
    if m in head {
      VisibleShape(cs[i], e);
      if m == cs[i] {
        assert m.path[..|m.path| - 1] == n.path;
      } else {
        assert head == [cs[i]] + head[1..];
        assert m in head[1..];
        ParentVisible(cs[i], e, m);
        var q :| q in head && q.path == m.path[..|m.path| - 1];
        assert q in head + tail;
      }
    } else {
      ParentVisibleFrom(n, i + 1, e, m);
      if m.path[..|m.path| - 1] != n.path {
        var q :| q in tail && q.path == m.path[..|m.path| - 1];
        assert q in head + tail;
      }
    }
  }

  /** Expanded nodes with children among `s`: the nodes whose children were built on the way. */
  function Marks(s: seq<Node>, expanded: set<Path>): set<Path>
  {
    set m | m in s && HasChildren(m.value) && m.path in expanded :: m.path
  }

  lemma MarksSingle(n: Node, expanded: set<Path>)
    ensures Marks([n], expanded) == if HasChildren(n.value) && n.path in expanded then {n.path} else {}
  {
  }

  lemma MarksConcat(a: seq<Node>, b: seq<Node>, expanded: set<Path>)
    ensures Marks(a + b, expanded) == Marks(a, expanded) + Marks(b, expanded)
  {
  }

  /** Where the loop of `collectVisible` over the children of `n` stands before child `i`:
      what it appended and what it built, together with what the remaining children will
      add, make up the whole. */
  predicate Collected(n: Node, i: nat, e: set<Path>, out: seq<Node>, res: seq<Node>, b0: set<Path>, b: set<Path>)
  {
    res + VisibleFrom(n, i, e) == out + VisibleFrom(n, 0, e)
    && b + Marks(VisibleFrom(n, i, e), e) == b0 + Marks(VisibleFrom(n, 0, e), e)
  }

  lemma CollectedStep(n: Node, i: nat, e: set<Path>, out: seq<Node>, res: seq<Node>, b0: set<Path>, b: set<Path>)
    requires i < |Children(n)| && Collected(n, i, e, out, res, b0, b)
    ensures var part := Visible(Children(n)[i], e);
      Collected(n, i + 1, e, out, res + part, b0, b + Marks(part, e))
  {
    var part := Visible(Children(n)[i], e);
    assert VisibleFrom(n, i, e) == part + VisibleFrom(n, i + 1, e);
    MarksConcat(part, VisibleFrom(n, i + 1, e), e);
  }

  lemma CollectedEnd(n: Node, e: set<Path>, out: seq<Node>, res: seq<Node>, b0: set<Path>, b: set<Path>)
    requires Collected(n, |Children(n)|, e, out, res, b0, b)
    ensures res == out + VisibleFrom(n, 0, e) && b == b0 + Marks(VisibleFrom(n, 0, e), e)
  {
    assert VisibleFrom(n, |Children(n)|, e) == [];
    assert Marks([], e) == {};
  }

  lemma AppendAssoc(a: seq<Node>, b: seq<Node>, c: seq<Node>)
    ensures a + b + c == a + (b + c)
  {
  }

  /** `collectVisible` on one node: the node, then its children's walks when it has
      children and is expanded, building its own children. */
  lemma NodeCollected(n: Node, e: set<Path>, out: seq<Node>, res: seq<Node>, b0: set<Path>, b: set<Path>)
    requires if HasChildren(n.value) && n.path in e
      then res == out + [n] + VisibleFrom(n, 0, e) && b == b0 + {n.path} + Marks(VisibleFrom(n, 0, e), e)
      else res == out + [n] && b == b0
    ensures res == out + Visible(n, e) && b == b0 + Marks(Visible(n, e), e)
  {
    var v := Visible(n, e);
    MarksSingle(n, e);
    if HasChildren(n.value) && n.path in e {
      var rest := VisibleFrom(n, 0, e);
      assert v == [n] + rest;
      AppendAssoc(out, [n], rest);
      MarksConcat([n], rest, e);
      assert Marks(v, e) == {n.path} + Marks(rest, e);
    } else {
      assert v == [n];
    }
  }

  // ---------------------------------------------------------------- rows

  /** The caret: '▾' expanded, '▸' collapsed, a blank for a node without children. */
  function Caret(n: Node, expanded: set<Path>): char
  {
    if HasChildren(n.value) then (if n.path in expanded then '▾' else '▸') else ' '
  }

  /** What `drawLine` writes before the value: two spaces per level, the caret, a space,
      the key label and ": ". */
  function RowPrefix(n: Node, expanded: set<Path>): (r: string)
    ensures |r| == 2 * n.depth + 4 + |KeyLabel(n.key)|
  {
    Repeat(' ', 2 * n.depth) + [Caret(n, expanded)] + " " + KeyLabel(n.key) + ": "
  }

  /** The text of `drawLine`: the prefix and the preview, the preview cut when the two
      exceed `width`. */
  function RowText(n: Node, expanded: set<Path>, width: int): string
  {
    var line := RowPrefix(n, expanded);
    var val := PreviewValue(n.value);
    if |line| + |val| > width then line + val[..Max(0, width - |line| - 1)] + "…" else line + val
  }

  /** A row that fits is prefix and preview; one that does not is cut to exactly `width`
      characters ending in '…' when the prefix leaves room, and keeps the whole prefix and a
      lone '…' otherwise. */
  lemma RowFits(n: Node, expanded: set<Path>, width: int)
    ensures var line, val, r := RowPrefix(n, expanded), PreviewValue(n.value), RowText(n, expanded, width);
      r[..|line|] == line
      && (|line| + |val| <= width ==> r == line + val)
      && (|line| + |val| > width && |line| < width ==>
            |r| == width && r[width - 1] == '…' && r[..width - 1] == (line + val)[..width - 1])
      && (|line| >= width ==> r == line + "…")
  {
    var line, val, r := RowPrefix(n, expanded), PreviewValue(n.value), RowText(n, expanded, width);
    if |line| + |val| > width && |line| < width {
      var k := width - |line| - 1;
      assert r == line + val[..k] + "…";
      assert (line + val)[..width - 1] == line + val[..k];
    }
  }

  // ---------------------------------------------------------------- paths

  /** `pathEquals`: element by element, strictly. */
  method PathEquals(a: Path, b: Path) returns (r: bool)
    ensures r <==> a == b
  {
    if |a| != |b| {
      return false;
    }
    for i := 0 to |a|
      invariant a[..i] == b[..i]
    {
      if a[i] != b[i] {
        return false;
      }
    }
    assert a == a[..|a|] && b == b[..|b|];
    return true;
  }

  /** `i` is the first index of `visible` with path `p`, or 0 when there is none. */
  predicate FirstWithPath(visible: seq<Node>, p: Path, i: int)
  {
    (0 <= i < |visible| && visible[i].path == p && forall j :: 0 <= j < i ==> visible[j].path != p)
    || (i == 0 && forall j :: 0 <= j < |visible| ==> visible[j].path != p)
  }

  /** `findIndexByPath`. */
  method FindIndexByPath(visible: seq<Node>, p: Path) returns (r: int)
    ensures FirstWithPath(visible, p, r)
  {
    for i := 0 to |visible|
      invariant forall j :: 0 <= j < i ==> visible[j].path != p
    {
      var eq := PathEquals(visible[i].path, p);
      if eq {
        return i;
      }
    }
    return 0;
  }

  /** When paths are distinct, the lookup lands on the one node that has the path. */
  lemma FoundIsUnique(visible: seq<Node>, p: Path, i: int, k: int)
    requires DistinctPaths(visible) && 0 <= k < |visible| && visible[k].path == p
    requires FirstWithPath(visible, p, i)
    ensures i == k
  {
    forall j | 0 <= j < |visible| && j != k
      ensures visible[j].path != p
    {
      if j < k {
        assert visible[j].path != visible[k].path;
      } else {
        assert visible[k].path != visible[j].path;
      }
    }
  }

  /** Toggling a node's expansion. */
  function Flip(expanded: set<Path>, p: Path): set<Path>
  {
    if p in expanded then expanded - {p} else expanded + {p}
  }

  /** Flipping `p` changes no path above it. */
  lemma FlipAgreesAbove(expanded: set<Path>, p: Path)
    ensures AgreeAbove(expanded, Flip(expanded, p), p)
  {
    forall k | 0 <= k < |p|
      ensures p[..k] != p
    {
      assert |p[..k]| != |p|;
    }
  }

  /** Toggling the node at index `k` twice gives back the same visible list, and the lookup
      after the second toggle lands on index `k` again. */
  lemma ToggleTwice(v: Json, expanded: set<Path>, k: nat, i: int)
    requires Parsed(v) && k < |Visible(RootNode(v), expanded)|
    requires var p := Visible(RootNode(v), expanded)[k].path;
      FirstWithPath(Visible(RootNode(v), Flip(Flip(expanded, p), p)), p, i)
    ensures var p := Visible(RootNode(v), expanded)[k].path;
      Visible(RootNode(v), Flip(Flip(expanded, p), p)) == Visible(RootNode(v), expanded)
      && i == k
  {
    var p := Visible(RootNode(v), expanded)[k].path;
    assert Flip(Flip(expanded, p), p) == expanded;
    VisibleShape(RootNode(v), expanded);
    FoundIsUnique(Visible(RootNode(v), expanded), p, i, k);
  }

  // ---------------------------------------------------------------- keys

  predicate IsTreeQuit(key: string) { key == "q" || key == "Q" }
  predicate IsTreeUp(key: string) { key == "UP" || key == "k" || key == "K" }
  predicate IsTreeDown(key: string) { key == "DOWN" || key == "j" || key == "J" }
  predicate IsTreeLeft(key: string) { key == "LEFT" || key == "h" || key == "H" }
  predicate IsTreeToggle(key: string)
  {
    key == "RIGHT" || key == "l" || key == "L" || key == "ENTER" || key == " "
  }
  predicate IsTreeHome(key: string) { key == "HOME" || key == "g" }
  predicate IsTreeEnd(key: string) { key == "END" || key == "G" }
  predicate IsTreePageUp(key: string) { key == "PAGE_UP" || key == "u" || key == "CTRL_U" }
  predicate IsTreePageDown(key: string) { key == "PAGE_DOWN" || key == "d" || key == "CTRL_D" }

  /** Where a movement key sends the cursor before `clampState`. */
  function TreeMoveTarget(key: string, cursor: int, len: nat, height: nat): Option<int>
  {
    if IsTreeUp(key) then Some(cursor - 1)
    else if IsTreeDown(key) then Some(cursor + 1)
    else if IsTreeHome(key) then Some(0)
    else if IsTreeEnd(key) then Some(len - 1)
    else if IsTreePageUp(key) then Some(cursor - height)
    else if IsTreePageDown(key) then Some(cursor + height)
    else None
  }

  /** What the key switch does with a key. */
  datatype KeyKind = Quit | Collapse | Toggle | Move(target: int) | Ignore

  function KeyKindOf(key: string, cursor: int, len: nat, height: nat): KeyKind
  {
    if IsTreeQuit(key) then Quit
    else if IsTreeLeft(key) then Collapse
    else if IsTreeToggle(key) then Toggle
    else match TreeMoveTarget(key, cursor, len, height)
      case Some(t) => Move(t)
      case None => Ignore
  }

  /** The key sets of the switch do not overlap. */
  lemma KeySetsDisjoint(key: string, cursor: int, len: nat, height: nat)
    ensures IsTreeQuit(key) ==> KeyKindOf(key, cursor, len, height) == Quit
    ensures IsTreeLeft(key) ==> KeyKindOf(key, cursor, len, height) == Collapse
    ensures IsTreeToggle(key) ==> KeyKindOf(key, cursor, len, height) == Toggle
    ensures KeyKindOf(key, cursor, len, height).Move? ==> TreeMoveTarget(key, cursor, len, height).Some?
  {
  }

  // ---------------------------------------------------------------- the browser

  class Browser {
    const root: Node
    const height: nat
    const width: int
    var expanded: set<Path>
    var built: set<Path>
    var visible: seq<Node>
    var cursorIdx: int
    var scroll: int

    /** The document and the viewport do not change; the visible list is the pre-order walk
        under the current expansion, every expanded visible node has its children built,
        and the cursor/scroll pair keeps the rule of `clampState`. */
    ghost predicate Valid()
      reads this
    {
      root == RootNode(root.value) && Parsed(root.value) && height >= 1
      && visible == Visible(root, expanded)
      && Marks(visible, expanded) <= built
      && InView(cursorIdx, scroll, |visible|, height)
    }

    /** A browser over a parsed document on a terminal of the given size: only the root is
        expanded and its children are built. */
    constructor (doc: Json, term: Size)
      requires Parsed(doc)
      ensures Valid()
      ensures root == RootNode(doc) && height == Max(5, term.height - 2) && width == term.width - 1
      ensures expanded == {[]} && visible == [root] + Children(root)
      ensures built == (if HasChildren(doc) then {[]} else {})
      ensures cursorIdx == 0 && scroll == 0
    {
      root := RootNode(doc);
      height := Max(5, term.height - 2);
      width := term.width - 1;
      expanded := {[]};
      built := {};
      new;
      visible := CollectVisible(root, []);
      InitialVisible(doc);
      InitialMarks(doc);
      cursorIdx := 0;
      scroll := 0;
    }

    /** `collectVisible(node, out)`: appends the visible list of `n` to `out`, building the
        children of every expanded node on the way. */
    method CollectVisible(n: Node, out: seq<Node>) returns (res: seq<Node>)
      modifies this
      ensures res == out + Visible(n, expanded)
      ensures built == old(built) + Marks(Visible(n, expanded), expanded)
      ensures expanded == old(expanded) && visible == old(visible)
      ensures cursorIdx == old(cursorIdx) && scroll == old(scroll)
      decreases n.value, 1
    {
      res := out + [n];
      if !HasChildren(n.value) || n.path !in expanded {
        NodeCollected(n, expanded, out, res, built, built);
        return;
      }
      ghost var b0 := built;
      if n.path !in built {
        built := built + {n.path};
      }
      res := CollectChildren(n, res);
      NodeCollected(n, expanded, out, res, b0, built);
    }

    /** The loop of `collectVisible` over the children of `n`. */
    method CollectChildren(n: Node, out: seq<Node>) returns (res: seq<Node>)
      modifies this
      ensures res == out + VisibleFrom(n, 0, expanded)
      ensures built == old(built) + Marks(VisibleFrom(n, 0, expanded), expanded)
      ensures expanded == old(expanded) && visible == old(visible)
      ensures cursorIdx == old(cursorIdx) && scroll == old(scroll)
      decreases n.value, 0
    {
      var cs := Children(n);
      res := out;
      for i := 0 to |cs|
        invariant Collected(n, i, expanded, out, res, old(built), built)
        invariant expanded == old(expanded) && visible == old(visible)
        invariant cursorIdx == old(cursorIdx) && scroll == old(scroll)
      {
        ghost var r0, b1, part := res, built, Visible(cs[i], expanded);
        CollectedStep(n, i, expanded, out, res, old(built), built);
        res := CollectVisible(cs[i], res);
        assert res == r0 + part && built == b1 + Marks(part, expanded);
      }
      CollectedEnd(n, expanded, out, res, old(built), built);
    }

    /** `clampState`: the rule shared with the list menu. */
    method ClampState()
      requires height >= 1
      modifies this
      ensures cursorIdx == ClampIndex(old(cursorIdx), |visible|)
      ensures scroll == ClampScroll(cursorIdx, old(scroll), |visible|, height)
      ensures InView(cursorIdx, scroll, |visible|, height)
      ensures expanded == old(expanded) && built == old(built) && visible == old(visible)
    {
      ghost var c0, s0 := cursorIdx, scroll;
      var len := |visible|;
      if cursorIdx < 0 {
        cursorIdx := 0;
      }
      if cursorIdx >= len {
        cursorIdx := Max(0, len - 1);
      }
      if cursorIdx < scroll {
        scroll := cursorIdx;
      }
      if cursorIdx >= scroll + height {
        scroll := cursorIdx - height + 1;
      }
      if scroll < 0 {
        scroll := 0;
      }
      var maxScroll := Max(0, len - height);
      if scroll > maxScroll {
        scroll := maxScroll;
      }
      ClampInView(c0, s0, len, height);
    }

    /** `rebuildVisibleAndKeepCursor(p)`: the walk is redone under the current expansion
        and the cursor put on the first node with path `p` (the top when there is none). */
    method Rebuild(p: Path)
      requires root == RootNode(root.value) && Parsed(root.value) && height >= 1
      modifies this
      ensures visible == Visible(root, expanded) && expanded == old(expanded)
      ensures built == old(built) + Marks(visible, expanded)
      ensures FirstWithPath(visible, p, cursorIdx)
      ensures scroll == ClampScroll(cursorIdx, old(scroll), |visible|, height)
      ensures Valid()
    {
      visible := CollectVisible(root, []);
      var i := FindIndexByPath(visible, p);
      cursorIdx := i;
      ClampState();
      VisibleShape(root, expanded);
    }

    /** After the toggle key on node `n`, from the state before. */
    ghost predicate AfterToggle(n: Node, e0: set<Path>, b0: set<Path>, v0: seq<Node>, c0: int, s0: int)
      reads this
    {
      if HasChildren(n.value) then
        0 <= cursorIdx < |visible|
        && expanded == Flip(e0, n.path) && built == b0 + {n.path} + Marks(visible, expanded)
        && visible[cursorIdx] == n && scroll == ClampScroll(cursorIdx, s0, |visible|, height)
      else
        expanded == e0 && built == b0 && visible == v0 && cursorIdx == c0 && scroll == s0
    }

    /** RIGHT/l/L/ENTER/space: a node with children has them built and its expansion
        flipped, and the cursor stays on it; on a leaf nothing happens. */
    method ToggleKey()
      requires Valid()
      modifies this
      ensures Valid()
      ensures AfterToggle(old(visible[cursorIdx]), old(expanded), old(built), old(visible), old(cursorIdx), old(scroll))
    {
      var n := visible[cursorIdx];
      if HasChildren(n.value) {
        assert n in Visible(root, expanded);
        if n.path !in built {
          built := built + {n.path};
        }
        ghost var e0 := expanded;
        expanded := Flip(expanded, n.path);
        FlipAgreesAbove(e0, n.path);
        StaysVisible(root, e0, expanded, n);
        Rebuild(n.path);
        KeepsNode(n);
      }
    }

    /** The lookup by path lands on `n` whenever `n` is visible. */
    lemma KeepsNode(n: Node)
      requires Valid() && n in visible && FirstWithPath(visible, n.path, cursorIdx)
      ensures visible[cursorIdx] == n
    {
      VisibleShape(root, expanded);
      var k :| 0 <= k < |visible| && visible[k] == n;
      FoundIsUnique(visible, n.path, cursorIdx, k);
    }

    /** After LEFT on node `n`, from the state before. */
    ghost predicate AfterLeft(n: Node, e0: set<Path>, b0: set<Path>, v0: seq<Node>, c0: int, s0: int)
      reads this
    {
      if HasChildren(n.value) && n.path in e0 then
        0 <= cursorIdx < |visible|
        && expanded == e0 - {n.path} && built == b0 + Marks(visible, expanded) && visible[cursorIdx] == n
        && scroll == ClampScroll(cursorIdx, s0, |visible|, height)
      else if n.path != [] then
        expanded == e0 && built == b0 && visible == v0 && 0 <= cursorIdx < |visible|
        && visible[cursorIdx].path == n.path[..|n.path| - 1]
        && scroll == ClampScroll(cursorIdx, s0, |visible|, height)
      else
        expanded == e0 && built == b0 && visible == v0 && cursorIdx == c0 && scroll == s0
    }

    /** LEFT/h/H: an expanded node with children collapses and keeps the cursor; any other
        node below the root sends the cursor to its parent; at the root nothing happens. */
    method LeftKey()
      requires Valid()
      modifies this
      ensures Valid()
      ensures AfterLeft(old(visible[cursorIdx]), old(expanded), old(built), old(visible), old(cursorIdx), old(scroll))
    {
      var n := visible[cursorIdx];
      assert n in Visible(root, expanded);
      if HasChildren(n.value) && n.path in expanded {
        ghost var e0 := expanded;
        expanded := expanded - {n.path};
        assert expanded == Flip(e0, n.path);
        FlipAgreesAbove(e0, n.path);
        StaysVisible(root, e0, expanded, n);
        Rebuild(n.path);
        KeepsNode(n);
      } else if n.path != [] {
        ParentVisible(root, expanded, n);
        var q :| q in visible && q.path == n.path[..|n.path| - 1];
        Rebuild(n.path[..|n.path| - 1]);
        var k :| 0 <= k < |visible| && visible[k] == q;
      }
    }

    /** Up, down, home, end and the page keys: the target, then `clampState`. */
    method MoveKey(target: int)
      requires Valid()
      modifies this
      ensures Valid()
      ensures cursorIdx == ClampIndex(target, |visible|)
      ensures scroll == ClampScroll(cursorIdx, old(scroll), |visible|, height)
      ensures expanded == old(expanded) && built == old(built) && visible == old(visible)
    {
      cursorIdx := target;
      ClampState();
    }

    /** The key handler: q/Q quit, the other keys as above, anything else is ignored. */
    method OnKey(key: string) returns (quit: bool)
      requires Valid()
      modifies this
      ensures Valid()
      ensures var kind := KeyKindOf(key, old(cursorIdx), old(|visible|), height);
        (quit <==> kind.Quit?)
        && (kind.Collapse? ==>
              AfterLeft(old(visible[cursorIdx]), old(expanded), old(built), old(visible), old(cursorIdx), old(scroll)))
        && (kind.Toggle? ==>
              AfterToggle(old(visible[cursorIdx]), old(expanded), old(built), old(visible), old(cursorIdx), old(scroll)))
        && (kind.Move? ==>
              visible == old(visible) && expanded == old(expanded) && built == old(built)
              && cursorIdx == ClampIndex(kind.target, |visible|)
              && scroll == ClampScroll(cursorIdx, old(scroll), |visible|, height))
        && (kind.Quit? || kind.Ignore? ==>
              visible == old(visible) && expanded == old(expanded) && built == old(built)
              && cursorIdx == old(cursorIdx) && scroll == old(scroll))
    {
      quit := false;
      match KeyKindOf(key, cursorIdx, |visible|, height) {
        case Quit => quit := true;
        case Collapse => LeftKey();
        case Toggle => ToggleKey();
        case Move(t) => MoveKey(t);
        case Ignore =>
      }
    }
  }
}
