/**
  Shared helpers of the command-line tools: turning a conversation title into a safe
  file name, choosing the first free name `base (n)ext` in an export folder, and
  deciding where the archive path comes from (argument or JSON on standard input).
 */
module IoHelpers {
  import opened Wrappers
  import opened Strings
  import opened Numerals
  import opened JsonValues

  const DefaultName: string := "conversation"
  const DefaultMax: nat := 120

  /** The characters a file name may not contain: `\ / : * ? " < > |`. */
  predicate IsForbidden(c: char)
  {
    c == '\\' || c == '/' || c == ':' || c == '*' || c == '?' || c == '"' || c == '<' || c == '>' || c == '|'
  }

  /** U+0000 .. U+001F. */
  predicate IsControl(c: char)
  {
    c <= '\U{001F}'
  }

  /** `replace(/[\s]+/g, ' ')`: every maximal run of white space becomes one space. */
  function CollapseSpaces(s: string): (r: string)
    ensures |r| <= |s|
    ensures |s| == 0 <==> |r| == 0
    ensures |s| > 0 && !IsJsSpace(s[0]) ==> r[0] == s[0]
    ensures |s| > 0 && IsJsSpace(s[0]) ==> r[0] == ' '
    ensures forall i :: 0 <= i < |r| ==> r[i] == ' ' || !IsJsSpace(r[i])
    ensures forall i :: 0 <= i < |r| - 1 ==> r[i] != ' ' || r[i + 1] != ' '
    decreases |s|
  {
    if |s| == 0 then []
    else if IsJsSpace(s[0]) then
      [' '] + CollapseSpaces(TrimStart(s))
    else [s[0]] + CollapseSpaces(s[1..])
  }

  /** A string whose only white space is single ' ' characters is left as it is. */
  lemma {:induction false} CollapseSpacesKeepsSingleSpaces(s: string)
    requires forall i :: 0 <= i < |s| ==> s[i] == ' ' || !IsJsSpace(s[i])
    requires forall i :: 0 <= i < |s| - 1 ==> s[i] != ' ' || s[i + 1] != ' '
    ensures CollapseSpaces(s) == s
    decreases |s|
  {
    if |s| > 0 {
      var t := s[1..];
      assert forall i :: 0 <= i < |t| ==> t[i] == s[i + 1];
      CollapseSpacesKeepsSingleSpaces(t);
      if IsJsSpace(s[0]) {
        assert TrimStart(s) == t by {
          assert s[0] == ' ';
          if |t| > 0 {
            assert !IsJsSpace(t[0]) by { assert t[0] == s[1] && s[1] != ' '; }
          }
        }
      }
      assert s == [s[0]] + t;
    }
  }

  /** `s.slice(0, n)`. */
  function Take(s: string, n: nat): (r: string)
    ensures |r| == if |s| <= n then |s| else n
    ensures r == s[..|r|]
  {
    if |s| <= n then s else s[..n]
  }

  /** Replace every character satisfying the forbidden class by '_'. */
  function ReplaceForbidden(s: string): (r: string)
    ensures |r| == |s|
    ensures forall i :: 0 <= i < |s| ==> r[i] == (if IsForbidden(s[i]) then '_' else s[i])
  {
    seq(|s|, i requires 0 <= i < |s| => if IsForbidden(s[i]) then '_' else s[i])
  }

  function ReplaceControl(s: string): (r: string)
    ensures |r| == |s|
    ensures forall i :: 0 <= i < |s| ==> r[i] == (if IsControl(s[i]) then '_' else s[i])
  {
    seq(|s|, i requires 0 <= i < |s| => if IsControl(s[i]) then '_' else s[i])
  }

  /** `^\.+$`: one or more dots and nothing else. */
  predicate AllDots(s: string)
  {
    |s| > 0 && forall i :: 0 <= i < |s| ==> s[i] == '.'
  }

  /** The title after trimming and collapsing white space, before it is cut to length. */
  function Normalized(title: string): string
  {
    CollapseSpaces(Trim(if |title| == 0 then DefaultName else title))
  }

  lemma DefaultNameIsSafe()
    ensures |DefaultName| > 0 && !AllDots(DefaultName)
    ensures forall i :: 0 <= i < |DefaultName| ==> !IsForbidden(DefaultName[i]) && !IsControl(DefaultName[i])
  {
    assert DefaultName[0] == 'c';
    assert forall i :: 0 <= i < |DefaultName| ==> 'a' <= DefaultName[i] <= 'z';
  }

  lemma TrimKeepsTrimmed(s: string)
    requires |s| > 0 && !IsJsSpace(s[0]) && !IsJsSpace(s[|s| - 1])
    ensures Trim(s) == s
  {
    assert TrimStart(s) == s;
  }

  /** The two one-for-one replacement passes: forbidden characters, then control characters. */
  function Sanitize(base: string): (r: string)
    ensures |r| == |base|
    ensures forall i :: 0 <= i < |r| ==>
      r[i] == (if IsForbidden(base[i]) || IsControl(base[i]) then '_' else base[i])
  {
    ReplaceControl(ReplaceForbidden(base))
  }

  /** Nothing forbidden and no control character survives the replacement passes. */
  lemma SanitizeIsSafe(base: string)
    ensures forall i :: 0 <= i < |Sanitize(base)| ==> !IsForbidden(Sanitize(base)[i]) && !IsControl(Sanitize(base)[i])
  {
  }

  lemma SanitizeKeepsSafe(s: string)
    requires forall i :: 0 <= i < |s| ==> !IsForbidden(s[i]) && !IsControl(s[i])
    ensures Sanitize(s) == s
  {
  }

  /** `safeFilename(title, max)`; a missing title is the empty string. */
  function SafeFilename(title: string, max: nat): (r: string)
    ensures |r| > 0
    ensures forall i :: 0 <= i < |r| ==> !IsForbidden(r[i]) && !IsControl(r[i])
    ensures |r| <= max || r == DefaultName
    ensures var safe := Sanitize(Take(Normalized(title), max));
      (|safe| == 0 || AllDots(safe) ==> r == DefaultName)
      && (|safe| > 0 && !AllDots(safe) ==> r == safe)
  {
    var safe := Sanitize(Take(Normalized(title), max));
    DefaultNameIsSafe();
    SanitizeIsSafe(Take(Normalized(title), max));
    if |safe| == 0 || AllDots(safe) then DefaultName else safe
  }

  /** A title that is already a clean file name comes back unchanged. */
  lemma SafeFilenameKeepsCleanTitles(title: string, max: nat)
    requires |title| > 0 && |title| <= max && !AllDots(title)
    requires !IsJsSpace(title[0]) && !IsJsSpace(title[|title| - 1])
    requires forall i :: 0 <= i < |title| ==>
      !IsForbidden(title[i]) && !IsControl(title[i]) && (title[i] == ' ' || !IsJsSpace(title[i]))
    requires forall i :: 0 <= i < |title| - 1 ==> title[i] != ' ' || title[i + 1] != ' '
    ensures SafeFilename(title, max) == title
  {
    TrimKeepsTrimmed(title);
    CollapseSpacesKeepsSingleSpaces(title);
    assert Normalized(title) == title;
    SanitizeKeepsSafe(title);
    var safe := Sanitize(Take(Normalized(title), max));
    assert safe == title;
    assert !(|safe| == 0 || AllDots(safe));
  }

  /** The `n`-th name tried: `base ext`, then `base (1)ext`, `base (2)ext`, ... */
  function Candidate(base: string, ext: string, n: nat): string
  {
    if n == 0 then base + ext else base + " (" + Decimal(n) + ")" + ext
  }

  /** Every attempt tries a different name. */
  lemma CandidateInjective(base: string, ext: string, m: nat, n: nat)
    requires Candidate(base, ext, m) == Candidate(base, ext, n)
    ensures m == n
  {
    if m > 0 && n > 0 {
      var s := Candidate(base, ext, m);
      var lo := |base| + 2;
      assert s[lo..|s| - |ext| - 1] == Decimal(m);
      assert Candidate(base, ext, n)[lo..|s| - |ext| - 1] == Decimal(n);
      DecimalInjective(m, n);
    }
  }

  /** `k` is the first attempt whose name is not taken. */
  predicate IsFirstFree(taken: set<string>, base: string, ext: string, k: nat)
  {
    Candidate(base, ext, k) !in taken
    && forall j :: 0 <= j < k ==> Candidate(base, ext, j) in taken
  }

  /** The values of `f` on `0 .. n-1`. */
  ghost function Image<T>(f: nat -> T, n: nat): set<T>
  {
    if n == 0 then {} else Image(f, n - 1) + {f(n - 1)}
  }

  lemma {:induction false} ImageMember<T>(f: nat -> T, n: nat, x: T)
    requires x in Image(f, n)
    ensures exists j :: 0 <= j < n && f(j) == x
  {
    if x != f(n - 1) {
      ImageMember(f, n - 1, x);
    }
  }

  /** An injective `f` takes `n` different values on `0 .. n-1`. */
  lemma {:induction false} ImageSize<T>(f: nat -> T, n: nat)
    requires forall i, j :: 0 <= i < j < n ==> f(i) != f(j)
    ensures |Image(f, n)| == n
  {
    if n > 0 {
      ImageSize(f, n - 1);
      if f(n - 1) in Image(f, n - 1) {
        ImageMember(f, n - 1, f(n - 1));
      }
    }
  }

  /** When the first `n` attempts are all taken, at least `n` names are taken. */
  lemma TakenBound(taken: set<string>, base: string, ext: string, n: nat)
    requires forall j :: 0 <= j < n ==> Candidate(base, ext, j) in taken
    ensures n <= |taken|
  {
    var f := (j: nat) => Candidate(base, ext, j);
    forall i, j | 0 <= i < j < n
      ensures f(i) != f(j)
    {
      if f(i) == f(j) {
        CandidateInjective(base, ext, i, j);
      }
    }
    ImageSize(f, n);
    forall x | x in Image(f, n)
      ensures x in taken
    {
      ImageMember(f, n, x);
    }
    SubsetSize(Image(f, n), taken);
  }

  lemma {:induction false} SubsetSize<T>(a: set<T>, b: set<T>)
    requires a <= b
    ensures |a| <= |b|
    decreases |a|
  {
    if a != {} {
      var x :| x in a;
      SubsetSize(a - {x}, b - {x});
    }
  }

  /** The export folder: file names and their contents. */
  class ExportFolder {
    var files: map<string, string>

    constructor (initial: map<string, string>)
      ensures files == initial
    {
      files := initial;
    }

    /** `writeFileUnique`: try names until one is free, then write the contents there. */
    method WriteFileUnique(base: string, ext: string, content: string) returns (name: string)
      modifies this
      ensures exists k: nat :: IsFirstFree(old(files).Keys, base, ext, k) && name == Candidate(base, ext, k)
      ensures files == old(files)[name := content]
    {
      var n: nat := 1;
      name := Candidate(base, ext, 0);
      while name in files
        invariant name == Candidate(base, ext, n - 1)
        invariant forall j :: 0 <= j < n - 1 ==> Candidate(base, ext, j) in files
        invariant files == old(files)
        decreases |files.Keys| - (n - 1)
      {
        TakenBound(files.Keys, base, ext, n);
        name := Candidate(base, ext, n);
        n := n + 1;
      }
      assert IsFirstFree(files.Keys, base, ext, n - 1);
      files := files[name := content];
    }
  }

  const ErrInputInvalid: string := "ERR_INPUT_INVALID"
  const ErrMissingPath: string := "missing path"

  /** `resolvePathFromArgOrStdin`: `arg` is the command-line argument ("" when absent),
      `stdin` what standard input holds, `parse` stands for `JSON.parse` (None when it throws). */
  function ResolvePath(arg: string, stdin: string, parse: string -> Option<Json>, key: string): (r: Result<string, string>)
    ensures |arg| > 0 ==> r == Success(arg)
    ensures r.Success? ==> |r.value| > 0
    ensures r.Failure? ==> r.error == ErrInputInvalid || r.error == ErrMissingPath
    ensures |arg| == 0 ==>
      var payload := parse(if |stdin| == 0 then "{}" else stdin);
      (r == Failure(ErrInputInvalid) <==> payload.None?)
      && (r.Success? ==> payload.Some? && Prop(payload.value, key) == Some(Str(r.value)))
      && (payload.Some? && IsStr(Prop(payload.value, key)) && |Prop(payload.value, key).value.s| > 0 ==> r.Success?)
  {
    if |arg| > 0 then Success(arg)
    else
      match parse(if |stdin| == 0 then "{}" else stdin)
      case None => Failure(ErrInputInvalid)
      case Some(payload) =>
        match Prop(payload, key)
        case Some(Str(s)) => if |s| > 0 then Success(s) else Failure(ErrMissingPath)
        case _ => Failure(ErrMissingPath)
  }

  /** With no argument and no usable key, the path is missing: an empty payload never yields one. */
  lemma ResolvePathEmptyInput(parse: string -> Option<Json>, key: string)
    requires parse("{}") == Some(Obj([]))
    ensures ResolvePath("", "", parse, key) == Failure(ErrMissingPath)
  {
  }
}
