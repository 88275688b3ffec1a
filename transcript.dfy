/**
  Reduction of an exported conversation mapping (node id -> node with a parent
  pointer, children and a message) to the ordered list of messages on the main
  path, and the plain-text transcript built from it.
 */
module Transcript {
  import opened Wrappers
  import opened Strings
  import opened Numerals
  import opened JsonValues
  import opened IoHelpers

  /** One reduced message: who wrote it and its extracted text. */
  datatype Message = Message(author: string, text: string)

  // ---------------------------------------------------------------- text extraction

  /** `partToString`: the text of one content part. */
  function PartToString(p: Json): string
    decreases p, 1
  {
    match p
    case Null => ""
    case Str(s) => s
    case Num(n) => IntToString(n)
    case Bool(b) => if b then "true" else "false"
    case Arr(_) => ""
    case Obj(ms) =>
      var t := MemberIndex(ms, "text");
      var c := MemberIndex(ms, "content");
      var q := MemberIndex(ms, "parts");
      if t >= 0 && ms[t].value.Str? then ms[t].value.s
      else if c >= 0 && ms[c].value.Str? then ms[c].value.s
      else if c >= 0 && ms[c].value.Arr? then Join(NonEmptyParts(ms[c].value, 0), "\n")
      else if q >= 0 && ms[q].value.Arr? then Join(NonEmptyParts(ms[q].value, 0), "\n")
      else ""
  }

  /** `arr.slice(i).map(partToString).filter(Boolean)`. */
  function NonEmptyParts(arr: Json, i: nat): (r: seq<string>)
    requires arr.Arr? && i <= |arr.items|
    ensures |r| <= |arr.items| - i
    ensures forall k :: 0 <= k < |r| ==> |r[k]| > 0
    decreases arr, 0, |arr.items| - i
  {
    if i == |arr.items| then []
    else
      var s := PartToString(arr.items[i]);
      (if |s| > 0 then [s] else []) + NonEmptyParts(arr, i + 1)
  }

  /** The non-empty strings of `ps`, in order. */
  function NonEmpty(ps: seq<string>): (r: seq<string>)
  {
    if |ps| == 0 then [] else (if |ps[0]| > 0 then [ps[0]] else []) + NonEmpty(ps[1..])
  }

  /** A list of plain string parts. */
  function StrItems(ps: seq<string>): (r: seq<Json>)
    ensures |r| == |ps| && forall k :: 0 <= k < |ps| ==> r[k] == Str(ps[k])
  {
    if |ps| == 0 then [] else [Str(ps[0])] + StrItems(ps[1..])
  }

  /** On a list of plain string parts, the extraction keeps exactly the non-empty ones. */
  lemma {:induction false} NonEmptyPartsOfStrings(ps: seq<string>, i: nat)
    requires i <= |ps|
    ensures NonEmptyParts(Arr(StrItems(ps)), i) == NonEmpty(ps[i..])
    decreases |ps| - i
  {
    var arr := Arr(StrItems(ps));
    if i < |ps| {
      NonEmptyPartsOfStrings(ps, i + 1);
      assert ps[i..][1..] == ps[i + 1..];
      assert arr.items[i] == Str(ps[i]);
    }
  }

  /** The pieces of text `extractTextFromContent` joins: the non-empty parts, or
      `content.text`, or the content itself when it is a string. */
  function ContentPieces(c: Json): seq<string>
  {
    var parts := Prop(c, "parts");
    var text := Prop(c, "text");
    if parts.Some? && parts.value.Arr? then NonEmptyParts(parts.value, 0)
    else if text.Some? && text.value.Str? then [text.value.s]
    else if c.Str? then [c.s]
    else []
  }

  /** `extractTextFromContent`: the parts' text joined by newlines, or `content.text`,
      or the content itself when it is a string; always trimmed. */
  function ExtractText(content: Option<Json>): (r: string)
    ensures !Present(content) ==> |r| == 0
    ensures |r| == 0 || (!IsJsSpace(r[0]) && !IsJsSpace(r[|r| - 1]))
  {
    if !Present(content) then "" else Trim(Join(ContentPieces(content.value), "\n"))
  }

  /** Content made of string parts yields those that are non-empty, one per line, trimmed. */
  lemma ExtractTextOfStringParts(ps: seq<string>, c: Json)
    requires c == Obj([Member("parts", Arr(StrItems(ps)))])
    ensures ExtractText(Some(c)) == Trim(Join(NonEmpty(ps), "\n"))
  {
    PiecesOfStringParts(ps, c);
    assert Present(Some(c));
  }

  lemma PiecesOfStringParts(ps: seq<string>, c: Json)
    requires c == Obj([Member("parts", Arr(StrItems(ps)))])
    ensures ContentPieces(c) == NonEmpty(ps)
  {
    assert Prop(c, "parts") == Some(Arr(StrItems(ps)));
    NonEmptyPartsOfStrings(ps, 0);
    assert ps[0..] == ps;
  }

  /** Without a `parts` array the content's string `text` is the text, trimmed. */
  lemma ExtractTextOfTextField(t: string)
    ensures ExtractText(Some(Obj([Member("text", Str(t))]))) == Trim(t)
  {
    var c := Obj([Member("text", Str(t))]);
    assert Prop(c, "parts").None?;
    assert Prop(c, "text") == Some(Str(t));
    assert ContentPieces(c) == [t];
    assert Present(Some(c));
  }

  /** A `parts` array takes precedence over a `text` field. */
  lemma PartsBeforeTextField(ps: seq<string>, t: string)
    ensures ExtractText(Some(Obj([Member("parts", Arr(StrItems(ps))), Member("text", Str(t))])))
            == Trim(Join(NonEmpty(ps), "\n"))
  {
    var c := Obj([Member("parts", Arr(StrItems(ps))), Member("text", Str(t))]);
    assert Prop(c, "parts") == Some(Arr(StrItems(ps)));
    NonEmptyPartsOfStrings(ps, 0);
    assert ps[0..] == ps;
    assert ContentPieces(c) == NonEmpty(ps);
    assert Present(Some(c));
  }

  /** Content that is itself a string is its own text, trimmed; the empty string is
      falsy and gives ''. */
  lemma ExtractTextOfString(s: string)
    ensures ExtractText(Some(Str(s))) == Trim(s)
  {
    if |s| == 0 {
      assert Trim(s) == "";
    }
  }

  /** A part holding its own `parts` array is flattened recursively: its non-empty
      string parts, one per line. */
  lemma NestedPartsFlatten(ps: seq<string>)
    ensures PartToString(Obj([Member("parts", Arr(StrItems(ps)))])) == Join(NonEmpty(ps), "\n")
  {
    NonEmptyPartsOfStrings(ps, 0);
    assert ps[0..] == ps;
  }

  /** A string `text` field is the part's text, whatever else the part holds. */
  lemma PartTextWins(t: string, rest: seq<Member>)
    ensures PartToString(Obj([Member("text", Str(t))] + rest)) == t
  {
    var ms := [Member("text", Str(t))] + rest;
    assert MemberIndex(ms, "text") == 0;
  }

  /** Without a string `text`, a string `content` field comes before a `parts` array, even
      when `parts` is listed first. */
  lemma PartContentBeforeParts(c: string, ps: seq<string>)
    ensures PartToString(Obj([Member("parts", Arr(StrItems(ps))), Member("content", Str(c))])) == c
  {
    var ms := [Member("parts", Arr(StrItems(ps))), Member("content", Str(c))];
    assert MemberIndex(ms, "text") == -1;
    assert MemberIndex(ms, "content") == 1;
  }

  /** `extractAuthor`: the author's role, else its name, else "unknown"; never empty. */
  function ExtractAuthor(message: Option<Json>): (r: string)
    ensures |r| > 0
    ensures
      var a := if Present(message) && Present(Get(message, "author")) then Get(message, "author") else None;
      var role := Get(a, "role");
      var name := Get(a, "name");
      (IsStr(role) && |role.value.s| > 0 ==> r == role.value.s)
      && (!(IsStr(role) && |role.value.s| > 0) && IsStr(name) && |name.value.s| > 0 ==> r == name.value.s)
      && (r == "unknown" || Some(Str(r)) == role || Some(Str(r)) == name)
  {
    var a := if Present(message) && Present(Get(message, "author")) then Get(message, "author") else None;
    if !Present(a) then "unknown"
    else
      var role := Get(a, "role");
      var name := Get(a, "name");
      if IsStr(role) && |role.value.s| > 0 then role.value.s
      else if IsStr(name) && |name.value.s| > 0 then name.value.s
      else "unknown"
  }

  // ---------------------------------------------------------------- the mapping

  /** A node of the mapping. `children` is `[]` when the field is not an array;
      `parent` is None for `null`/missing. */
  datatype MapNode = MapNode(message: Option<Json>, parent: Option<string>, children: seq<string>)

  /** The mapping object as its entries in `Object.entries` order; keys are distinct. */
  predicate DistinctKeys(es: seq<(string, MapNode)>)
  {
    forall i, j :: 0 <= i < j < |es| ==> es[i].0 != es[j].0
  }

  type Mapping = es: seq<(string, MapNode)> | DistinctKeys(es)

  /** `mapping[id]` as a finite map. */
  function Nodes(es: seq<(string, MapNode)>): (m: map<string, MapNode>)
    ensures forall id :: id in m <==> exists i :: 0 <= i < |es| && es[i].0 == id
  {
    if |es| == 0 then map[] else Nodes(es[1..])[es[0].0 := es[0].1]
  }

  lemma {:induction false} NodesAt(es: seq<(string, MapNode)>, i: nat)
    requires DistinctKeys(es) && i < |es|
    ensures es[i].0 in Nodes(es) && Nodes(es)[es[i].0] == es[i].1
    decreases i
  {
    if i > 0 {
      NodesAt(es[1..], i - 1);
    }
  }

  /** `id` is a truthy id naming a node not yet visited: the loop condition of the walk. */
  predicate Continues(nodes: map<string, MapNode>, id: Option<string>, seen: set<string>)
  {
    id.Some? && |id.value| > 0 && id.value in nodes && id.value !in seen
  }

  /** The ids visited by following parent pointers from `id`, stopping at a falsy or
      unknown id or at one already seen. */
  function Walk(nodes: map<string, MapNode>, id: Option<string>, seen: set<string>): seq<string>
    decreases nodes.Keys - seen
  {
    if Continues(nodes, id, seen) then
      [id.value] + Walk(nodes, nodes[id.value].parent, seen + {id.value})
    else []
  }

  /** The ids of a sequence as a set. */
  function Elems(w: seq<string>): (r: set<string>)
    ensures forall y :: y in r <==> y in w
  {
    if |w| == 0 then {} else {w[0]} + Elems(w[1..])
  }

  function Reverse<T>(s: seq<T>): (r: seq<T>)
    ensures |r| == |s| && forall i :: 0 <= i < |s| ==> r[i] == s[|s| - 1 - i]
  {
    if |s| == 0 then [] else Reverse(s[1..]) + [s[0]]
  }

  /** The walk is non-empty exactly when the loop condition holds, and then starts at `id`. */
  lemma WalkStart(nodes: map<string, MapNode>, id: Option<string>, seen: set<string>)
    ensures var w := Walk(nodes, id, seen);
      (|w| > 0 <==> Continues(nodes, id, seen)) && (|w| > 0 ==> w[0] == id.value)
  {
  }

  /** The walk visits only known ids that were not seen before it started. */
  lemma {:induction false} WalkKnown(nodes: map<string, MapNode>, id: Option<string>, seen: set<string>)
    ensures forall k :: 0 <= k < |Walk(nodes, id, seen)| ==>
      Walk(nodes, id, seen)[k] in nodes && Walk(nodes, id, seen)[k] !in seen
    decreases nodes.Keys - seen
  {
    if Continues(nodes, id, seen) {
      var x := id.value;
      WalkKnown(nodes, nodes[x].parent, seen + {x});
      assert Walk(nodes, id, seen) == [x] + Walk(nodes, nodes[x].parent, seen + {x});
    }
  }

  /** The walk never visits an id twice, even when the parent pointers form a cycle. */
  lemma {:induction false} WalkDistinct(nodes: map<string, MapNode>, id: Option<string>, seen: set<string>)
    ensures forall k, l :: 0 <= k < l < |Walk(nodes, id, seen)| ==>
      Walk(nodes, id, seen)[k] != Walk(nodes, id, seen)[l]
    decreases nodes.Keys - seen
  {
    if Continues(nodes, id, seen) {
      var x := id.value;
      WalkDistinct(nodes, nodes[x].parent, seen + {x});
      WalkKnown(nodes, nodes[x].parent, seen + {x});
      assert Walk(nodes, id, seen) == [x] + Walk(nodes, nodes[x].parent, seen + {x});
    }
  }

  /** Each visited id is followed by its parent. */
  lemma {:induction false} WalkChain(nodes: map<string, MapNode>, id: Option<string>, seen: set<string>)
    ensures var w := Walk(nodes, id, seen);
      (forall k :: 0 <= k < |w| ==> w[k] in nodes)
      && (forall k {:trigger nodes[w[k]]} :: 0 <= k < |w| - 1 ==> nodes[w[k]].parent == Some(w[k + 1]))
    decreases nodes.Keys - seen
  {
    if Continues(nodes, id, seen) {
      var x := id.value;
      WalkChain(nodes, nodes[x].parent, seen + {x});
      WalkStart(nodes, nodes[x].parent, seen + {x});
      assert Walk(nodes, id, seen) == [x] + Walk(nodes, nodes[x].parent, seen + {x});
    }
  }

  /** The walk stops only where the loop condition fails: at the last id, its parent is falsy,
      unknown or already visited. */
  lemma {:induction false} WalkStops(nodes: map<string, MapNode>, id: Option<string>, seen: set<string>)
    ensures var w := Walk(nodes, id, seen);
      forall k :: 0 <= k < |w| ==> w[k] in nodes
    ensures var w := Walk(nodes, id, seen);
      |w| > 0 ==> !Continues(nodes, nodes[w[|w| - 1]].parent, seen + Elems(w))
    decreases nodes.Keys - seen
  {
    if Continues(nodes, id, seen) {
      var x := id.value;
      var rest := Walk(nodes, nodes[x].parent, seen + {x});
      WalkStops(nodes, nodes[x].parent, seen + {x});
      var w := [x] + rest;
      assert Walk(nodes, id, seen) == w;
      assert seen + Elems(w) == (seen + {x}) + Elems(rest) by {
        assert Elems(w) == {x} + Elems(rest);
      }
    }
  }

  /** `buildMainPathIds` as a value: root first, `current` last. */
  function MainPath(nodes: map<string, MapNode>, current: Option<string>): seq<string>
  {
    Reverse(Walk(nodes, current, {}))
  }

  /** The main path: known, duplicate-free ids, each the parent of the next, ending at
      `current` when it is a known id and empty otherwise. */
  lemma MainPathFacts(nodes: map<string, MapNode>, current: Option<string>)
    ensures var p := MainPath(nodes, current);
      (|p| > 0 <==> current.Some? && |current.value| > 0 && current.value in nodes)
      && (|p| > 0 ==> p[|p| - 1] == current.value)
      && (forall k :: 0 <= k < |p| ==> p[k] in nodes)
      && (forall k, l :: 0 <= k < l < |p| ==> p[k] != p[l])
      && (forall k {:trigger nodes[p[k + 1]]} :: 0 <= k < |p| - 1 ==> nodes[p[k + 1]].parent == Some(p[k]))
  {
    WalkStart(nodes, current, {});
    WalkKnown(nodes, current, {});
    WalkDistinct(nodes, current, {});
    WalkChain(nodes, current, {});
    ReversedChain(nodes, Walk(nodes, current, {}));
  }

  lemma ReversedChain(nodes: map<string, MapNode>, w: seq<string>)
    requires forall k :: 0 <= k < |w| ==> w[k] in nodes
    requires forall k, l :: 0 <= k < l < |w| ==> w[k] != w[l]
    requires forall k {:trigger nodes[w[k]]} :: 0 <= k < |w| - 1 ==> nodes[w[k]].parent == Some(w[k + 1])
    ensures var p := Reverse(w);
      (forall k :: 0 <= k < |p| ==> p[k] in nodes)
      && (forall k, l :: 0 <= k < l < |p| ==> p[k] != p[l])
      && (forall k {:trigger nodes[p[k + 1]]} :: 0 <= k < |p| - 1 ==> nodes[p[k + 1]].parent == Some(p[k]))
  {
    var p := Reverse(w);
    forall k | 0 <= k < |p| - 1 ensures nodes[p[k + 1]].parent == Some(p[k]) {
      var j := |w| - 2 - k;
      assert p[k + 1] == w[j] && p[k] == w[j + 1];
      assert nodes[w[j]].parent == Some(w[j + 1]);
    }
  }

  /** One step of the walk. */
  lemma WalkStep(nodes: map<string, MapNode>, id: Option<string>, seen: set<string>)
    requires Continues(nodes, id, seen)
    ensures Walk(nodes, id, seen) == [id.value] + Walk(nodes, nodes[id.value].parent, seen + {id.value})
  {
  }

  /** `buildMainPathIds`: follow parent pointers from `current`, remembering visited ids. */
  method BuildMainPathIds(nodes: map<string, MapNode>, current: Option<string>) returns (ids: seq<string>)
    ensures ids == MainPath(nodes, current)
  {
    var acc: seq<string> := [];
    var id := current;
    var seen: set<string> := {};
    while Continues(nodes, id, seen)
      invariant acc + Walk(nodes, id, seen) == Walk(nodes, current, {})
      decreases nodes.Keys - seen
    {
      var x := id.value;
      WalkStep(nodes, id, seen);
      seen := seen + {x};
      acc := acc + [x];
      id := nodes[x].parent;
    }
    ids := Reverse(acc);
  }

  // ---------------------------------------------------------------- leaf detection

  /** A childless node that has a message. */
  predicate IsLeafCandidate(n: MapNode)
  {
    |n.children| == 0 && Present(n.message)
  }

  /** The message's `create_time` when it is a number. */
  function CreateTime(n: MapNode): Option<int>
  {
    if Present(n.message) then
      match Get(n.message, "create_time")
      case Some(Num(t)) => Some(t)
      case _ => None
    else None
  }

  predicate Timed(e: (string, MapNode))
  {
    IsLeafCandidate(e.1) && CreateTime(e.1).Some?
  }

  /** The best candidate so far (an index, -1 for none) and its time (None for -Infinity). */
  datatype LeafPick = LeafPick(best: int, bestTime: Option<int>)

  function PickStep(st: LeafPick, es: seq<(string, MapNode)>, i: nat): LeafPick
    requires i < |es|
  {
    var node := es[i].1;
    var t := CreateTime(node);
    if !IsLeafCandidate(node) then st
    else if t.Some? && (st.bestTime.None? || t.value > st.bestTime.value) then LeafPick(i, t)
    else if t.None? && st.best == -1 then LeafPick(i, st.bestTime)
    else st
  }

  /** The pick after scanning the first `n` entries. */
  function PickAfter(es: seq<(string, MapNode)>, n: nat): LeafPick
    requires n <= |es|
  {
    if n == 0 then LeafPick(-1, None) else PickStep(PickAfter(es, n - 1), es, n - 1)
  }

  /** `autoDetectLeafId` as a value. */
  function LeafOf(es: seq<(string, MapNode)>): Option<string>
  {
    var st := PickAfter(es, |es|);
    if 0 <= st.best < |es| then Some(es[st.best].0) else None
  }

  /** None of the first `n` entries is a childless node with a message. */
  predicate NoCandidate(es: seq<(string, MapNode)>, n: nat)
    requires n <= |es|
  {
    forall k :: 0 <= k < n ==> !IsLeafCandidate(es[k].1)
  }

  /** The pick is an index scanned so far, and none exactly when no scanned node is a candidate;
      a time is only kept together with a pick. */
  lemma {:induction false} PickBounds(es: seq<(string, MapNode)>, n: nat)
    requires n <= |es|
    ensures var st := PickAfter(es, n);
      -1 <= st.best < n
      && (st.best == -1 <==> NoCandidate(es, n))
      && (st.best >= 0 ==> IsLeafCandidate(es[st.best].1))
      && (st.bestTime.Some? ==> st.best >= 0)
    decreases n
  {
    if n > 0 {
      PickBounds(es, n - 1);
      assert PickAfter(es, n) == PickStep(PickAfter(es, n - 1), es, n - 1);
    }
  }

  /** Some of the first `n` entries is a candidate with a numeric time. */
  predicate AnyTimed(es: seq<(string, MapNode)>, n: nat)
    requires n <= |es|
  {
    exists k :: 0 <= k < n && Timed(es[k])
  }

  /** Among the first `n` entries, `b` is a timed candidate with time `t`, no timed candidate
      has a later time, and none before `b` has the same time. */
  predicate GreatestTimed(es: seq<(string, MapNode)>, n: nat, b: int, t: int)
    requires n <= |es|
  {
    0 <= b < n && Timed(es[b]) && CreateTime(es[b].1) == Some(t)
    && (forall k :: 0 <= k < n && Timed(es[k]) ==> CreateTime(es[k].1).value <= t)
    && (forall k :: 0 <= k < b && Timed(es[k]) ==> CreateTime(es[k].1).value < t)
  }

  /** A time is kept exactly when some scanned candidate has one; it is then the greatest such time,
      held by the picked node and by no candidate before it. */
  lemma {:induction false} PickTimed(es: seq<(string, MapNode)>, n: nat)
    requires n <= |es|
    ensures var st := PickAfter(es, n);
      (st.bestTime.Some? <==> AnyTimed(es, n))
      && (st.bestTime.Some? ==> GreatestTimed(es, n, st.best, st.bestTime.value))
    decreases n
  {
    if n > 0 {
      PickTimed(es, n - 1);
      PickBounds(es, n - 1);
      var prev := PickAfter(es, n - 1);
      var st := PickAfter(es, n);
      assert st == PickStep(prev, es, n - 1);
      if Timed(es[n - 1]) {
        assert AnyTimed(es, n);
        assert st.bestTime.Some?;
      } else {
        assert AnyTimed(es, n) == AnyTimed(es, n - 1);
      }
    }
  }

  /** `b` is the first childless node with a message. */
  predicate FirstCandidate(es: seq<(string, MapNode)>, b: int)
  {
    0 <= b < |es| && IsLeafCandidate(es[b].1) && forall k :: 0 <= k < b ==> !IsLeafCandidate(es[k].1)
  }

  /** Without any time, the pick is the first candidate. */
  lemma {:induction false} PickUntimed(es: seq<(string, MapNode)>, n: nat)
    requires n <= |es|
    ensures var st := PickAfter(es, n);
      st.bestTime.None? && st.best >= 0 ==> FirstCandidate(es, st.best)
    decreases n
  {
    if n > 0 {
      PickUntimed(es, n - 1);
      PickBounds(es, n - 1);
      var prev := PickAfter(es, n - 1);
      assert PickAfter(es, n) == PickStep(prev, es, n - 1);
    }
  }

  /** What the scan picks: among childless nodes with a message, the first one with the
      greatest numeric `create_time`; when none has one, the first such node; else nothing. */
  lemma PickAfterChoice(es: seq<(string, MapNode)>, n: nat)
    requires n <= |es|
    ensures var st := PickAfter(es, n);
      -1 <= st.best < n
      && (st.best == -1 <==> forall k :: 0 <= k < n ==> !IsLeafCandidate(es[k].1))
      && (st.bestTime.Some? <==> exists k :: 0 <= k < n && Timed(es[k]))
      && (st.bestTime.Some? ==>
            st.best >= 0 && Timed(es[st.best]) && CreateTime(es[st.best].1) == st.bestTime
            && (forall k :: 0 <= k < n && Timed(es[k]) ==> CreateTime(es[k].1).value <= st.bestTime.value)
            && (forall k :: 0 <= k < st.best && Timed(es[k]) ==> CreateTime(es[k].1).value < st.bestTime.value))
      && (st.bestTime.None? && st.best >= 0 ==> FirstCandidate(es, st.best))
  {
    PickBounds(es, n);
    PickTimed(es, n);
    PickUntimed(es, n);
  }

  /** `autoDetectLeafId`: one pass over the entries keeping the best id and time. */
  method AutoDetectLeafId(es: seq<(string, MapNode)>) returns (bestId: Option<string>)
    ensures bestId == LeafOf(es)
  {
    bestId := None;
    var bestTime: Option<int> := None;
    ghost var best := -1;
    var i := 0;
    while i < |es|
      invariant 0 <= i <= |es|
      invariant PickAfter(es, i) == LeafPick(best, bestTime)
      invariant -1 <= best < i
      invariant bestId == if best >= 0 then Some(es[best].0) else None
    {
      var (id, node) := es[i];
      var t := CreateTime(node);
      if |node.children| == 0 && Present(node.message) {
        if t.Some? && (bestTime.None? || t.value > bestTime.value) {
          bestTime := t;
          bestId := Some(id);
          best := i;
        } else if t.None? && bestId.None? {
          bestId := Some(id);
          best := i;
        }
      }
      i := i + 1;
    }
  }

  // ---------------------------------------------------------------- reduction

  const DefaultRoles: seq<string> := ["user", "assistant"]

  /** What one id on the path contributes: nothing for a missing node, a node without a
      message, an author outside a non-empty `roles`, or empty text. */
  function EntryFor(nodes: map<string, MapNode>, id: string, roles: seq<string>): (r: seq<Message>)
    ensures |r| <= 1
  {
    if id !in nodes || !Present(nodes[id].message) then []
    else
      var msg := nodes[id].message;
      var author := ExtractAuthor(msg);
      if |roles| > 0 && author !in roles then []
      else
        var text := ExtractText(Get(msg, "content"));
        if |text| == 0 then [] else [Message(author, text)]
  }

  /** An entry has non-empty text and, when `roles` is non-empty, an allowed author; it is the
      node's message, with its author and text extracted. */
  lemma EntryForFacts(nodes: map<string, MapNode>, id: string, roles: seq<string>)
    ensures forall m :: m in EntryFor(nodes, id, roles) ==>
      |m.text| > 0 && (|roles| > 0 ==> m.author in roles)
      && id in nodes && Present(nodes[id].message)
      && m == Message(ExtractAuthor(nodes[id].message), ExtractText(Get(nodes[id].message, "content")))
  {
  }

  /** `xs.flatMap(f)`: the results of `f` on each element, in order. */
  function FlatMap<T, U>(f: T -> seq<U>, xs: seq<T>): seq<U>
  {
    if |xs| == 0 then [] else f(xs[0]) + FlatMap(f, xs[1..])
  }

  lemma {:induction false} FlatMapAppend<T, U>(f: T -> seq<U>, a: seq<T>, b: seq<T>)
    ensures FlatMap(f, a + b) == FlatMap(f, a) + FlatMap(f, b)
    decreases |a|
  {
    if |a| > 0 {
      FlatMapAppend(f, a[1..], b);
      assert (a + b)[1..] == a[1..] + b;
    } else {
      assert a + b == b;
    }
  }

  /** The entry of each id, as a function. */
  function EntryOf(nodes: map<string, MapNode>, roles: seq<string>): string -> seq<Message>
  {
    id => EntryFor(nodes, id, roles)
  }

  /** The messages of the ids, in the ids' order. */
  function Collect(nodes: map<string, MapNode>, ids: seq<string>, roles: seq<string>): seq<Message>
  {
    FlatMap(EntryOf(nodes, roles), ids)
  }

  /** Collecting distributes over concatenation: output order is path order. */
  lemma CollectAppend(nodes: map<string, MapNode>, a: seq<string>, b: seq<string>, roles: seq<string>)
    ensures Collect(nodes, a + b, roles) == Collect(nodes, a, roles) + Collect(nodes, b, roles)
  {
    FlatMapAppend(EntryOf(nodes, roles), a, b);
  }

  /** The first id's entry comes first. */
  lemma CollectCons(nodes: map<string, MapNode>, ids: seq<string>, roles: seq<string>)
    requires |ids| > 0
    ensures Collect(nodes, ids, roles) == EntryFor(nodes, ids[0], roles) + Collect(nodes, ids[1..], roles)
  {
  }

  /** One more id adds its entry at the end. */
  lemma CollectSnoc(nodes: map<string, MapNode>, ids: seq<string>, id: string, roles: seq<string>)
    ensures Collect(nodes, ids + [id], roles) == Collect(nodes, ids, roles) + EntryFor(nodes, id, roles)
  {
    CollectAppend(nodes, ids, [id], roles);
    CollectCons(nodes, [id], roles);
    assert [id][1..] == [];
  }

  /** Every collected message has non-empty text and, when `roles` is non-empty, an allowed author. */
  lemma {:induction false} CollectFacts(nodes: map<string, MapNode>, ids: seq<string>, roles: seq<string>)
    ensures var r := Collect(nodes, ids, roles);
      |r| <= |ids|
      && forall k :: 0 <= k < |r| ==> |r[k].text| > 0 && (|roles| > 0 ==> r[k].author in roles)
    decreases |ids|
  {
    if |ids| > 0 {
      CollectFacts(nodes, ids[1..], roles);
      EntryForFacts(nodes, ids[0], roles);
      CollectCons(nodes, ids, roles);
    }
  }

  /** `reduceMappingToMessages` as a value. `mapping` is None when it is not an object. */
  function Reduce(mapping: Option<Mapping>, current: Option<string>, roles: seq<string>): seq<Message>
  {
    if mapping.None? then []
    else
      var endId := if current.Some? && |current.value| > 0 then current else LeafOf(mapping.value);
      if endId.None? || |endId.value| == 0 then []
      else Collect(Nodes(mapping.value), MainPath(Nodes(mapping.value), endId), roles)
  }

  /** `reduceMappingToMessages`. */
  method ReduceMappingToMessages(mapping: Option<Mapping>, current: Option<string>, roles: seq<string>)
    returns (result: seq<Message>)
    ensures result == Reduce(mapping, current, roles)
  {
    if mapping.None? {
      return [];
    }
    var es := mapping.value;
    var endId := current;
    if !(current.Some? && |current.value| > 0) {
      endId := AutoDetectLeafId(es);
    }
    if endId.None? || |endId.value| == 0 {
      return [];
    }
    var nodes := Nodes(es);
    var pathIds := BuildMainPathIds(nodes, endId);
    result := CollectMessages(nodes, pathIds, roles);
  }

  /** The loop of `reduceMappingToMessages` over the path ids. */
  method CollectMessages(nodes: map<string, MapNode>, pathIds: seq<string>, roles: seq<string>)
    returns (result: seq<Message>)
    ensures result == Collect(nodes, pathIds, roles)
  {
    result := [];
    var i := 0;
    while i < |pathIds|
      invariant 0 <= i <= |pathIds|
      invariant result == Collect(nodes, pathIds[..i], roles)
    {
      var id := pathIds[i];
      assert pathIds[..i + 1] == pathIds[..i] + [id];
      CollectSnoc(nodes, pathIds[..i], id, roles);
      ghost var entry := EntryFor(nodes, id, roles);
      if id in nodes && Present(nodes[id].message) {
        var author := ExtractAuthor(nodes[id].message);
        if !(|roles| > 0 && author !in roles) {
          var text := ExtractText(Get(nodes[id].message, "content"));
          if |text| > 0 {
            assert entry == [Message(author, text)];
            result := result + [Message(author, text)];
          } else {
            assert entry == [];
          }
        } else {
          assert entry == [];
        }
      } else {
        assert entry == [];
      }
      i := i + 1;
    }
    assert pathIds[..i] == pathIds;
  }

  /** Every reduced message has non-empty text and, with a non-empty role filter, an allowed author. */
  lemma ReduceFacts(mapping: Option<Mapping>, current: Option<string>, roles: seq<string>)
    ensures var r := Reduce(mapping, current, roles);
      forall k :: 0 <= k < |r| ==> |r[k].text| > 0 && (|roles| > 0 ==> r[k].author in roles)
  {
    if mapping.Some? {
      var endId := if current.Some? && |current.value| > 0 then current else LeafOf(mapping.value);
      if endId.Some? && |endId.value| > 0 {
        CollectFacts(Nodes(mapping.value), MainPath(Nodes(mapping.value), endId), roles);
      }
    }
  }

  /** A given id is used as it is: an id that names no node yields no messages, even when
      the mapping has leaves. */
  lemma ReduceKeepsGivenId(mapping: Mapping, id: string, roles: seq<string>)
    requires |id| > 0 && id !in Nodes(mapping)
    ensures |Reduce(Some(mapping), Some(id), roles)| == 0
  {
    MainPathFacts(Nodes(mapping), Some(id));
  }

  /** A root without a message and one user reply beneath it. */
  const ExampleReply: Json :=
    Obj([Member("author", Obj([Member("role", Str("user"))])),
         Member("content", Obj([Member("parts", Arr([Str("hi")]))]))])

  const ExampleMapping: Mapping :=
    [("a", MapNode(Some(Null), None, ["b"])), ("b", MapNode(Some(ExampleReply), Some("a"), []))]

  lemma ExampleLeaf()
    ensures LeafOf(ExampleMapping) == Some("b")
  {
    assert PickAfter(ExampleMapping, 1) == LeafPick(-1, None);
    assert PickAfter(ExampleMapping, 2) == LeafPick(1, None);
  }

  lemma ExamplePath()
    ensures MainPath(Nodes(ExampleMapping), Some("b")) == ["a", "b"]
  {
    var nodes := Nodes(ExampleMapping);
    NodesAt(ExampleMapping, 0);
    NodesAt(ExampleMapping, 1);
    assert nodes["a"].parent == None && nodes["b"].parent == Some("a");
    assert Walk(nodes, None, {"b", "a"}) == [];
    assert {"b"} + {"a"} == {"b", "a"};
    assert Walk(nodes, Some("a"), {"b"}) == ["a"];
    assert {} + {"b"} == {"b"};
    assert Walk(nodes, Some("b"), {}) == ["b", "a"];
  }

  /** Content with a single non-empty string part yields that part, trimmed. */
  lemma ExtractTextOfSinglePart(s: string)
    requires |s| > 0
    ensures ExtractText(Some(Obj([Member("parts", Arr([Str(s)]))]))) == Trim(s)
  {
    var ps := [s];
    calc {
      ExtractText(Some(Obj([Member("parts", Arr([Str(s)]))])));
      { assert StrItems(ps) == [Str(s)] by { assert ps[1..] == []; } }
      ExtractText(Some(Obj([Member("parts", Arr(StrItems(ps)))])));
      { ExtractTextOfStringParts(ps, Obj([Member("parts", Arr(StrItems(ps)))])); }
      Trim(Join(NonEmpty(ps), "\n"));
      { assert NonEmpty(ps) == ps by { assert ps[1..] == []; } }
      Trim(s);
    }
  }

  lemma ExampleReplyContent()
    ensures Get(Some(ExampleReply), "content") == Some(Obj([Member("parts", Arr([Str("hi")]))]))
  {
    assert MemberIndex(ExampleReply.members, "content") == 1 by {
      assert ExampleReply.members[1..][0].name == "content";
    }
  }

  lemma ExampleReplyText()
    ensures ExtractText(Get(Some(ExampleReply), "content")) == "hi"
  {
    calc {
      ExtractText(Get(Some(ExampleReply), "content"));
      { ExampleReplyContent(); }
      ExtractText(Some(Obj([Member("parts", Arr([Str("hi")]))])));
      { ExtractTextOfSinglePart("hi"); }
      Trim("hi");
      { TrimKeepsTrimmed("hi"); }
      "hi";
    }
  }

  lemma ExampleReplyAuthor()
    ensures ExtractAuthor(Some(ExampleReply)) == "user"
  {
    var a := Get(Some(ExampleReply), "author");
    assert a == Some(Obj([Member("role", Str("user"))]));
    assert Get(a, "role") == Some(Str("user"));
  }

  lemma ExampleNodes()
    ensures var nodes := Nodes(ExampleMapping);
      "a" in nodes && nodes["a"].message == Some(Null)
      && "b" in nodes && nodes["b"].message == Some(ExampleReply)
  {
    NodesAt(ExampleMapping, 0);
    NodesAt(ExampleMapping, 1);
  }

  lemma ExampleEntries()
    ensures |EntryFor(Nodes(ExampleMapping), "a", DefaultRoles)| == 0
    ensures EntryFor(Nodes(ExampleMapping), "b", DefaultRoles) == [Message("user", "hi")]
  {
    ExampleNodes();
    ExampleReplyText();
    ExampleReplyAuthor();
    assert "user" in DefaultRoles by {
      assert DefaultRoles[0] == "user";
    }
  }

  /** The example mapping, with no leaf given, reduces to the one user reply. */
  lemma ReduceExample()
    ensures Reduce(Some(ExampleMapping), None, DefaultRoles) == [Message("user", "hi")]
  {
    var nodes := Nodes(ExampleMapping);
    calc {
      Reduce(Some(ExampleMapping), None, DefaultRoles);
      { ExampleLeaf(); }
      Collect(nodes, MainPath(nodes, Some("b")), DefaultRoles);
      { ExamplePath(); }
      Collect(nodes, ["a", "b"], DefaultRoles);
      { CollectExample(nodes); }
      [Message("user", "hi")];
    }
  }

  lemma CollectExample(nodes: map<string, MapNode>)
    requires nodes == Nodes(ExampleMapping)
    ensures Collect(nodes, ["a", "b"], DefaultRoles) == [Message("user", "hi")]
  {
    ExampleEntries();
    CollectCons(nodes, ["b"], DefaultRoles);
    assert ["b"][1..] == [];
    CollectCons(nodes, ["a", "b"], DefaultRoles);
    assert ["a", "b"][1..] == ["b"];
  }

  // ---------------------------------------------------------------- plain transcript

  function Who(m: Message): string
  {
    if |m.author| == 0 then "unknown" else m.author
  }

  /** Three lines per message: `[author]`, the text, and an empty line. */
  function TranscriptLines(ms: seq<Message>): (r: seq<string>)
    ensures |r| == 3 * |ms|
  {
    if |ms| == 0 then [] else ["[" + Who(ms[0]) + "]", ms[0].text, ""] + TranscriptLines(ms[1..])
  }

  /** `buildPlainTextTranscript`. */
  function PlainTranscript(ms: seq<Message>): string
  {
    Join(TranscriptLines(ms), "\n")
  }

  /** Reads transcript lines back, three at a time. */
  function ParseLines(lines: seq<string>): seq<Message>
    decreases |lines|
  {
    if |lines| < 3 then []
    else
      var h := lines[0];
      var who := if |h| >= 2 then h[1..|h| - 1] else h;
      [Message(who, lines[1])] + ParseLines(lines[3..])
  }

  /** Reads a plain transcript back. */
  function ParseTranscript(s: string): seq<Message>
  {
    ParseLines(SplitOn(s, '\n'))
  }

  /** A transcript whose authors are non-empty and whose authors and texts are single lines
      reads back as the messages it was built from. */
  lemma TranscriptRoundTrip(ms: seq<Message>)
    requires forall k :: 0 <= k < |ms| ==> |ms[k].author| > 0 && '\n' !in ms[k].author && '\n' !in ms[k].text
    ensures ParseTranscript(PlainTranscript(ms)) == ms
  {
    if |ms| == 0 {
      assert PlainTranscript(ms) == "";
      assert SplitOn("", '\n') == [""];
    } else {
      LinesHaveNoNewline(ms);
      SplitJoin(TranscriptLines(ms), '\n');
      ParseLinesOfTranscript(ms);
    }
  }

  lemma {:induction false} LinesHaveNoNewline(ms: seq<Message>)
    requires forall k :: 0 <= k < |ms| ==> |ms[k].author| > 0 && '\n' !in ms[k].author && '\n' !in ms[k].text
    ensures forall k :: 0 <= k < |TranscriptLines(ms)| ==> '\n' !in TranscriptLines(ms)[k]
    decreases |ms|
  {
    if |ms| > 0 {
      LinesHaveNoNewline(ms[1..]);
      var lines := TranscriptLines(ms);
      forall k | 0 <= k < |lines| ensures '\n' !in lines[k] {
        if k >= 3 {
          assert lines[k] == TranscriptLines(ms[1..])[k - 3];
        }
      }
    }
  }

  lemma {:induction false} ParseLinesOfTranscript(ms: seq<Message>)
    requires forall k :: 0 <= k < |ms| ==> |ms[k].author| > 0
    ensures ParseLines(TranscriptLines(ms)) == ms
    decreases |ms|
  {
    if |ms| > 0 {
      ParseLinesOfTranscript(ms[1..]);
      var lines := TranscriptLines(ms);
      var h := "[" + ms[0].author + "]";
      assert lines[0] == h;
      assert h[1..|h| - 1] == ms[0].author;
      assert lines[3..] == TranscriptLines(ms[1..]);
      assert ms == [ms[0]] + ms[1..];
    }
  }

  /** `exportConversationPlain`: write the transcript under the first free name derived
      from the sanitised title, with the `.txt` extension. */
  method ExportConversationPlain(folder: ExportFolder, title: string, ms: seq<Message>) returns (name: string)
    modifies folder
    ensures exists k: nat ::
      IsFirstFree(old(folder.files).Keys, SafeFilename(title, DefaultMax), ".txt", k)
      && name == Candidate(SafeFilename(title, DefaultMax), ".txt", k)
    ensures folder.files == old(folder.files)[name := PlainTranscript(ms)]
  {
    var base := SafeFilename(title, DefaultMax);
    var content := PlainTranscript(ms);
    name := folder.WriteFileUnique(base, ".txt", content);
  }
}
