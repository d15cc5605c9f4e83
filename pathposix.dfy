/**
 * The archive entry sanitiser of the zip branch (index.js:173-179) and the parts of Node's POSIX
 * `path` module it relies on: `normalize`, `join` and `resolve`.
 *
 * `normalize` is a segment stack: empty and `.` segments vanish, `..` pops the last segment
 * unless there is none (or it is itself `..`), in which case a relative path keeps the `..` and
 * an absolute path drops it. The sanitiser then strips leading `../`, `..\` and a final `..`,
 * joins the rest under the extraction root and drains the entry unless the destination starts
 * with the resolved root.
 */
module PathPosix {
  import opened Text

  const Sep: char := '/'
  const Backslash: char := '\\'
  const Parent: string := ".."

  predicate IsAbsolute(p: string) {
    |p| > 0 && p[0] == Sep
  }

  /** No segment is `..`. */
  predicate NoParent(segs: seq<string>) {
    forall i :: 0 <= i < |segs| ==> segs[i] != Parent
  }

  /** Every `..` segment comes before every other segment. */
  predicate ParentsFirst(segs: seq<string>) {
    forall i, j :: 0 <= i < j < |segs| && segs[j] == Parent ==> segs[i] == Parent
  }

  /** No segment contains the separator. */
  predicate SeparatorFree(segs: seq<string>) {
    forall i :: 0 <= i < |segs| ==> Sep !in segs[i]
  }

  /** One segment of `normalizeString`, onto the stack of kept segments. */
  function Step(st: seq<string>, seg: string, allowAboveRoot: bool): seq<string> {
    if seg == "" || seg == "." then st
    else if seg == Parent then
      if |st| > 0 && st[|st| - 1] != Parent then st[..|st| - 1]
      else if allowAboveRoot then st + [Parent]
      else st
    else st + [seg]
  }

  /** `normalizeString`: the segments, folded left to right onto `st`. */
  function Fold(st: seq<string>, segs: seq<string>, allowAboveRoot: bool): seq<string> {
    if |segs| == 0 then st
    else Step(Fold(st, segs[..|segs| - 1], allowAboveRoot), segs[|segs| - 1], allowAboveRoot)
  }

  /** The text of a trailing separator, or nothing. */
  function Trail(trailing: bool): string {
    if trailing then [Sep] else []
  }

  /** The text of a normalised path from its kept segments. */
  function Render(absolute: bool, st: seq<string>, trailing: bool): string {
    if |st| == 0 then (if absolute then "/" else if trailing then "./" else ".")
    else (if absolute then [Sep] else []) + Join(st, Sep) + Trail(trailing)
  }

  /** `path.posix.normalize`. */
  function Normalize(p: string): (r: string)
    ensures p == "" ==> r == "."
    ensures IsAbsolute(p) ==> IsAbsolute(r)
  {
    if p == "" then "."
    else Render(p[0] == Sep, Fold([], Split(p, Sep), p[0] != Sep), p[|p| - 1] == Sep)
  }

  /** `s` starts with `../` or `..\`. */
  predicate ParentStep(s: string) {
    |s| >= 3 && s[..2] == Parent && (s[2] == Sep || s[2] == Backslash)
  }

  /** `p` is a run of `../` and `..\` steps, possibly closed by a final `..`. */
  predicate ParentRun(p: string)
    decreases |p|
  {
    p == "" || p == Parent || (ParentStep(p) && ParentRun(p[3..]))
  }

  /** `p` is a run of `../` and `..\` steps only. */
  predicate ParentSteps(p: string)
    decreases |p|
  {
    p == "" || (ParentStep(p) && ParentSteps(p[3..]))
  }

  /**
   * `.replace(/^(\.\.(\/|\\|$))+/g, '')`: repeatedly drop `../`, `..\` or a final `..` in front.
   * What is dropped is a run of such steps, closed by a final `..` only when nothing is left, and
   * what is left starts with none of them.
   */
  function StripParentPrefix(s: string): (r: string)
    ensures |r| <= |s|
    ensures r == s || r == s[|s| - |r|..]
    ensures ParentRun(s[..|s| - |r|])
    ensures r != "" ==> ParentSteps(s[..|s| - |r|])
    ensures r != Parent
    ensures !ParentStep(r)
    decreases |s|
  {
    if ParentStep(s) then
      var r := StripParentPrefix(s[3..]);
      assert s[..|s| - |r|][3..] == s[3..][..|s| - 3 - |r|];
      r
    else if s == Parent then ""
    else s
  }

  /** `path.posix.join(a, b)`: empty arguments are skipped, the rest joined by `/` and normalised. */
  function JoinPath(a: string, b: string): (r: string)
    ensures a == "" && b == "" ==> r == "."
    ensures IsAbsolute(a) ==> IsAbsolute(r)
  {
    if a == "" && b == "" then "."
    else if b == "" then Normalize(a)
    else if a == "" then Normalize(b)
    else Normalize(a + [Sep] + b)
  }

  /** `path.posix.resolve(p)` against the working directory `cwd`, which is always absolute. */
  function Resolve(cwd: string, p: string): (r: string)
    requires IsAbsolute(cwd)
    ensures IsAbsolute(r)
  {
    var full := if p == "" then cwd else if IsAbsolute(p) then p else cwd + [Sep] + p;
    RootText(Fold([], Split(full, Sep), false))
  }

  /** The text of an absolute path without trailing separator from its kept segments. */
  function RootText(st: seq<string>): (r: string)
    ensures IsAbsolute(r)
  {
    if |st| == 0 then [Sep] else [Sep] + Join(st, Sep)
  }

  /** What the entry handler does with an entry. */
  datatype EntryKind = DirectoryEntry | FileEntry
  datatype EntryAction = Drain | MakeDirectory(path: string) | WriteFile(path: string)

  /** `destPath.startsWith(prefix)`. */
  predicate StartsWith(s: string, prefix: string) {
    |prefix| <= |s| && s[..|prefix|] == prefix
  }

  /** The entry handler (index.js:173-186): sanitise, join under `root`, keep only what stays under it. */
  function EntryDestination(cwd: string, root: string, name: string, kind: EntryKind): (a: EntryAction)
    requires IsAbsolute(cwd)
    ensures a.Drain? <==> !StartsWith(JoinPath(root, StripParentPrefix(Normalize(name))), Resolve(cwd, root))
    ensures a.MakeDirectory? ==> kind.DirectoryEntry? && a.path == JoinPath(root, StripParentPrefix(Normalize(name)))
    ensures a.WriteFile? ==> kind.FileEntry? && a.path == JoinPath(root, StripParentPrefix(Normalize(name)))
  {
    var sanitized := StripParentPrefix(Normalize(name));
    var dest := JoinPath(root, sanitized);
    if !StartsWith(dest, Resolve(cwd, root)) then Drain
    else if kind.DirectoryEntry? then MakeDirectory(dest)
    else WriteFile(dest)
  }

  /** `p` is `root` itself or lies below it. */
  predicate Within(p: string, root: string) {
    p == root || (StartsWith(p, root) && |p| > |root| && (root == "/" || p[|root|] == Sep))
  }

  // ---------------------------------------------------------------------------------------
  // The stack fold.

  lemma {:induction false} FoldAppend(st: seq<string>, xs: seq<string>, ys: seq<string>, a: bool)
    ensures Fold(st, xs + ys, a) == Fold(Fold(st, xs, a), ys, a)
    decreases |ys|
  {
    if |ys| == 0 {
      assert xs + ys == xs;
    } else {
      FoldAppend(st, xs, ys[..|ys| - 1], a);
      assert (xs + ys)[..|xs + ys| - 1] == xs + ys[..|ys| - 1];
    }
  }

  /** Without `..` segments the fold only pushes: the stack keeps everything it had. */
  lemma {:induction false} FoldGrows(st: seq<string>, ys: seq<string>, a: bool)
    requires NoParent(ys)
    ensures Fold(st, ys, a) == st + Fold([], ys, a)
    decreases |ys|
  {
    if |ys| > 0 {
      FoldGrows(st, ys[..|ys| - 1], a);
    }
  }

  lemma {:induction false} FoldSeparatorFree(st: seq<string>, segs: seq<string>, a: bool)
    requires SeparatorFree(st) && SeparatorFree(segs)
    ensures SeparatorFree(Fold(st, segs, a))
    decreases |segs|
  {
    if |segs| > 0 {
      FoldSeparatorFree(st, segs[..|segs| - 1], a);
    }
  }

  /** A relative path keeps its surviving `..` segments in front. */
  lemma {:induction false} FoldParentsFirst(st: seq<string>, segs: seq<string>)
    requires ParentsFirst(st)
    ensures ParentsFirst(Fold(st, segs, true))
    decreases |segs|
  {
    if |segs| > 0 {
      var prev := Fold(st, segs[..|segs| - 1], true);
      FoldParentsFirst(st, segs[..|segs| - 1]);
      var seg := segs[|segs| - 1];
      if seg == Parent && !(|prev| > 0 && prev[|prev| - 1] != Parent) {
        forall i | 0 <= i < |prev|
          ensures prev[i] == Parent
        {
          if i < |prev| - 1 {
            assert prev[|prev| - 1] == Parent;
          }
        }
      }
    }
  }

  /** An absolute path never keeps a `..` segment. */
  lemma {:induction false} FoldAbsoluteNoParent(st: seq<string>, segs: seq<string>)
    requires NoParent(st)
    ensures NoParent(Fold(st, segs, false))
    decreases |segs|
  {
    if |segs| > 0 {
      FoldAbsoluteNoParent(st, segs[..|segs| - 1]);
    }
  }

  // ---------------------------------------------------------------------------------------
  // What the sanitiser leaves.

  lemma SplitTrailing(st: seq<string>, trailing: bool)
    requires |st| >= 1 && SeparatorFree(st)
    ensures Split(Join(st, Sep) + Trail(trailing), Sep) == st + (if trailing then [""] else [])
  {
    var j := Join(st, Sep);
    SplitJoin(st, Sep);
    if trailing {
      SplitAround(j, [], Sep);
      assert j + [Sep] + [] == j + Trail(trailing);
      assert Split([], Sep) == [""];
    } else {
      assert j + Trail(trailing) == j;
    }
  }

  lemma StripLoneParent(trailing: bool)
    ensures StripParentPrefix(Parent + Trail(trailing)) == ""
  {
    var s := Parent + Trail(trailing);
    if trailing {
      assert s[..2] == Parent && s[2] == Sep && s[3..] == "";
    } else {
      assert s == Parent;
    }
  }

  lemma StripLeadingParent(rest: seq<string>, trailing: bool)
    requires |rest| >= 1
    ensures StripParentPrefix(Join([Parent] + rest, Sep) + Trail(trailing))
            == StripParentPrefix(Join(rest, Sep) + Trail(trailing))
  {
    JoinCons(Parent, rest);
    StripOneParent(Join(rest, Sep), Trail(trailing));
  }

  /** A join of two or more segments is the first, the separator, then the join of the rest. */
  lemma JoinCons(first: string, rest: seq<string>)
    requires |rest| >= 1
    ensures Join([first] + rest, Sep) == first + [Sep] + Join(rest, Sep)
  {
    assert ([first] + rest)[1..] == rest;
  }

  /** One leading `../` is dropped and the rest stripped in turn. */
  lemma StripOneParent(a: string, b: string)
    ensures StripParentPrefix(Parent + [Sep] + a + b) == StripParentPrefix(a + b)
  {
    var s := Parent + [Sep] + a + b;
    assert |s| >= 3 && s[..2] == Parent && s[2] == Sep && s[3..] == a + b;
  }

  lemma StripBackslashPrefix(first: string, rest: seq<string>, trailing: bool)
    requires |first| >= 3 && first[..2] == Parent && first[2] == Backslash
    ensures StripParentPrefix(Join([first] + rest, Sep) + Trail(trailing))
            == StripParentPrefix(Join([first[3..]] + rest, Sep) + Trail(trailing))
  {
    var st := [first] + rest;
    var st' := [first[3..]] + rest;
    assert st[1..] == rest && st'[1..] == rest;
    var tail := if |rest| == 0 then [] else [Sep] + Join(rest, Sep);
    assert Join(st, Sep) == first + tail;
    assert Join(st', Sep) == first[3..] + tail;
    var s := Join(st, Sep) + Trail(trailing);
    assert s == first + (tail + Trail(trailing));
    assert s[..2] == Parent && s[2] == Backslash;
    assert s[3..] == first[3..] + (tail + Trail(trailing));
    assert Join(st', Sep) + Trail(trailing) == first[3..] + (tail + Trail(trailing));
    assert |s| >= 3;
  }

  lemma StripNothing(st: seq<string>, trailing: bool)
    requires |st| >= 1 && SeparatorFree(st) && st[0] != Parent
    requires !(|st[0]| >= 3 && st[0][..2] == Parent && st[0][2] == Backslash)
    ensures StripParentPrefix(Join(st, Sep) + Trail(trailing)) == Join(st, Sep) + Trail(trailing)
  {
    var first := st[0];
    var tail := if |st| == 1 then [] else [Sep] + Join(st[1..], Sep);
    assert Join(st, Sep) == first + tail;
    var rest := tail + Trail(trailing);
    assert Join(st, Sep) + Trail(trailing) == first + rest;
    assert Sep !in first;
    NoStepBefore(first, rest);
    StripKept(first + rest);
  }

  /** A first segment that is not `..` and does not start with `..\`, followed by nothing or a separator. */
  lemma NoStepBefore(first: string, rest: string)
    requires Sep !in first && first != Parent
    requires !(|first| >= 3 && first[..2] == Parent && first[2] == Backslash)
    requires rest == [] || rest[0] == Sep
    ensures !ParentStep(first + rest) && first + rest != Parent
  {
    var s := first + rest;
    if |first| < 2 {
      assert |first| < |s| ==> s[|first|] == Sep;
      assert |s| >= 2 ==> s[..2] != Parent;
    } else {
      assert s[..2] == first[..2];
      if |first| == 2 {
        assert first[..2] == first;
      } else {
        assert s[2] == first[2];
        assert first[2] != Sep by {
          assert first[2] in first;
        }
      }
    }
  }

  /** A text that starts with no `../` or `..\` step and is not `..` is left as it is. */
  lemma StripKept(s: string)
    requires !ParentStep(s) && s != Parent
    ensures StripParentPrefix(s) == s
  {
  }

  /**
   * Stripping the leading parent segments of a relative normalised path leaves no `..` segment:
   * all of them were in front, and a `..\` prefix inside the first segment is stripped too.
   */
  lemma {:induction false} StripRelative(st: seq<string>, trailing: bool)
    requires |st| >= 1 && SeparatorFree(st) && ParentsFirst(st)
    ensures NoParent(Split(StripParentPrefix(Join(st, Sep) + Trail(trailing)), Sep))
    decreases |Join(st, Sep)|
  {
    var first := st[0];
    var rest := st[1..];
    assert st == [first] + rest;
    assert ParentsFirst(rest) by {
      forall i, j | 0 <= i < j < |rest| && rest[j] == Parent
        ensures rest[i] == Parent
      {
        assert st[j + 1] == Parent;
      }
    }
    if first == Parent {
      if |st| == 1 {
        StripLoneParent(trailing);
        assert Split("", Sep) == [""];
      } else {
        StripLeadingParent(rest, trailing);
        assert |Join(rest, Sep)| < |Join(st, Sep)|;
        StripRelative(rest, trailing);
      }
    } else if |first| >= 3 && first[..2] == Parent && first[2] == Backslash {
      var st' := [first[3..]] + rest;
      assert Sep !in first[3..] by {
        assert forall c :: c in first[3..] ==> c in first;
      }
      assert NoParent(rest) by {
        forall j | 0 <= j < |rest|
          ensures rest[j] != Parent
        {
          assert st[j + 1] == rest[j];
        }
      }
      assert SeparatorFree(st') && ParentsFirst(st');
      StripBackslashPrefix(first, rest, trailing);
      JoinShorter(first, rest);
      StripRelative(st', trailing);
    } else {
      StripNothing(st, trailing);
      SplitTrailing(st, trailing);
      forall j | 0 <= j < |st|
        ensures st[j] != Parent
      {
        assert j > 0 ==> (st[j] == Parent ==> first == Parent);
      }
    }
  }

  lemma JoinShorter(first: string, rest: seq<string>)
    requires |first| >= 3
    ensures |Join([first[3..]] + rest, Sep)| < |Join([first] + rest, Sep)|
  {
    var st := [first] + rest;
    var st' := [first[3..]] + rest;
    assert st[1..] == rest && st'[1..] == rest;
  }

  lemma SplitDotTrail()
    ensures Split("./", Sep) == [".", ""]
  {
    assert "./" == "." + [Sep] + "";
    SplitAround(".", "", Sep);
    SplitFree(".", Sep);
  }

  lemma EmptyStackSanitized(absolute: bool, trailing: bool)
    ensures NoParent(Split(StripParentPrefix(Render(absolute, [], trailing)), Sep))
  {
    var n := Render(absolute, [], trailing);
    if absolute {
      assert n == "/" && StripParentPrefix(n) == n;
      assert n == "" + [Sep] + "";
      SplitAround("", "", Sep);
    } else if trailing {
      assert n == "./" && StripParentPrefix(n) == n;
      SplitDotTrail();
    } else {
      assert n == "." && StripParentPrefix(n) == n;
      SplitFree(n, Sep);
    }
  }

  lemma AbsoluteSanitized(st: seq<string>, trailing: bool)
    requires |st| >= 1 && SeparatorFree(st) && NoParent(st)
    ensures NoParent(Split(StripParentPrefix(Render(true, st, trailing)), Sep))
  {
    var n := Render(true, st, trailing);
    var t := Trail(trailing);
    assert n == [Sep] + Join(st, Sep) + t;
    assert n[0] == Sep && Parent[0] != Sep;
    assert |n| >= 2 ==> n[..2][0] == Sep;
    assert StripParentPrefix(n) == n;
    assert n == "" + [Sep] + (Join(st, Sep) + t);
    SplitAround("", Join(st, Sep) + t, Sep);
    SplitTrailing(st, trailing);
  }

  lemma RelativeSanitized(st: seq<string>, trailing: bool)
    requires |st| >= 1 && SeparatorFree(st) && ParentsFirst(st)
    ensures NoParent(Split(StripParentPrefix(Render(false, st, trailing)), Sep))
  {
    assert Render(false, st, trailing) == Join(st, Sep) + Trail(trailing);
    StripRelative(st, trailing);
  }

  /** Whatever the entry name, its sanitised form has no `..` segment left. */
  lemma SanitizedHasNoParent(name: string)
    ensures NoParent(Split(StripParentPrefix(Normalize(name)), Sep))
  {
    if name == "" {
      EmptyStackSanitized(false, false);
    } else {
      var absolute := name[0] == Sep;
      var trailing := name[|name| - 1] == Sep;
      var segs := Split(name, Sep);
      var st := Fold([], segs, !absolute);
      assert Normalize(name) == Render(absolute, st, trailing);
      SplitPiecesFree(name, Sep);
      FoldSeparatorFree([], segs, !absolute);
      if |st| == 0 {
        EmptyStackSanitized(absolute, trailing);
      } else if absolute {
        FoldAbsoluteNoParent([], segs);
        AbsoluteSanitized(st, trailing);
      } else {
        FoldParentsFirst([], segs);
        RelativeSanitized(st, trailing);
      }
    }
  }

  // ---------------------------------------------------------------------------------------
  // The containment theorem.

  /** The kept segments of an absolute root are the segments of its resolved form. */
  lemma RootSegments(cwd: string, root: string)
    requires IsAbsolute(cwd) && IsAbsolute(root)
    ensures Resolve(cwd, root) == RootText(Fold([], Split(root, Sep), false))
  {
  }

  /** Rendering a stack that extends the root's stack gives a path within the resolved root. */
  lemma RenderWithin(sr: seq<string>, more: seq<string>, trailing: bool)
    ensures Within(Render(true, sr + more, trailing), RootText(sr))
  {
    var r := RootText(sr);
    var d := Render(true, sr + more, trailing);
    if |sr| == 0 {
      assert r == "/";
      assert d[0] == Sep;
      assert d == r || (|d| > 1 && d[..1] == r);
    } else if |more| == 0 {
      assert sr + more == sr;
      assert d == r + Trail(trailing);
      assert d[..|r|] == r;
    } else {
      JoinConcat(sr, more, Sep);
      assert d == r + ([Sep] + Join(more, Sep) + Trail(trailing));
      assert d[..|r|] == r;
      assert d[|r|] == Sep;
    }
  }

  /**
   * Zip-slip containment (index.js:174-176): for an absolute extraction root, the destination of
   * every entry, whatever its name, lies within the resolved root. So the drain branch is never
   * taken and a name such as `../x` is re-rooted to `root/x` rather than dropped.
   */
  lemma DestinationWithinRoot(cwd: string, root: string, name: string)
    requires IsAbsolute(cwd) && IsAbsolute(root)
    ensures Within(JoinPath(root, StripParentPrefix(Normalize(name))), Resolve(cwd, root))
  {
    var san := StripParentPrefix(Normalize(name));
    var sr := Fold([], Split(root, Sep), false);
    RootSegments(cwd, root);
    if san == "" {
      assert JoinPath(root, san) == Render(true, sr + [], root[|root| - 1] == Sep) by {
        assert sr + [] == sr;
      }
      RenderWithin(sr, [], root[|root| - 1] == Sep);
    } else {
      SanitizedHasNoParent(name);
      JoinedWithin(root, san);
    }
  }

  /** Joining a relative path without `..` segments under an absolute root stays within it. */
  lemma JoinedWithin(root: string, san: string)
    requires IsAbsolute(root) && san != ""
    requires NoParent(Split(san, Sep))
    ensures Within(JoinPath(root, san), RootText(Fold([], Split(root, Sep), false)))
  {
    var sr := Fold([], Split(root, Sep), false);
    var p := root + [Sep] + san;
    SplitAround(root, san, Sep);
    FoldAppend([], Split(root, Sep), Split(san, Sep), false);
    FoldGrows(sr, Split(san, Sep), false);
    var more := Fold([], Split(san, Sep), false);
    assert Fold([], Split(p, Sep), false) == sr + more;
    assert p[0] == Sep && p[|p| - 1] == san[|san| - 1];
    assert JoinPath(root, san) == Normalize(p);
    assert Normalize(p) == Render(true, sr + more, san[|san| - 1] == Sep);
    RenderWithin(sr, more, san[|san| - 1] == Sep);
  }

  /** Hence, under an absolute root, no entry is ever drained. */
  lemma NeverDrained(cwd: string, root: string, name: string, kind: EntryKind)
    requires IsAbsolute(cwd) && IsAbsolute(root)
    ensures !EntryDestination(cwd, root, name, kind).Drain?
  {
    DestinationWithinRoot(cwd, root, name);
  }

  lemma NormalizeParentA()
    ensures Normalize("../a") == "../a"
  {
    var p := "../a";
    var segs := [Parent, "a"];
    assert Split(p, Sep) == segs by {
      assert p == Parent + [Sep] + "a";
      SplitAround(Parent, "a", Sep);
      SplitFree(Parent, Sep);
      SplitFree("a", Sep);
    }
    assert Fold([], segs, true) == segs by {
      assert segs[..1] == [Parent] && [Parent][..0] == [];
      assert Step([], Parent, true) == [Parent];
      assert Fold([], [Parent], true) == [Parent];
      assert "a" != Parent && "a" != "" && "a" != ".";
    }
    assert Join(segs, Sep) == p by {
      assert segs[1..] == ["a"];
    }
  }

  lemma NormalizeBackslashA()
    ensures Normalize("..\\a") == "..\\a"
  {
    var p := "..\\a";
    SplitFree(p, Sep);
    assert [p][..0] == [];
    assert Fold([], [p], true) == [p];
  }

  lemma NormalizeRootA()
    ensures Normalize("/r/a") == "/r/a"
  {
    var p := "/r/a";
    assert p == "" + [Sep] + ("r" + [Sep] + "a");
    SplitAround("", "r" + [Sep] + "a", Sep);
    SplitAround("r", "a", Sep);
    SplitFree("r", Sep);
    SplitFree("a", Sep);
    var segs := ["", "r", "a"];
    assert Split(p, Sep) == segs;
    assert segs[..2] == ["", "r"] && ["", "r"][..1] == [""] && [""][..0] == [];
    assert Fold([], segs, false) == ["r", "a"];
    assert ["r", "a"][1..] == ["a"];
  }

  lemma ResolveRoot()
    ensures Resolve("/", "/r") == "/r"
  {
    var p := "/r";
    assert p == "" + [Sep] + "r";
    SplitAround("", "r", Sep);
    SplitFree("r", Sep);
    var segs := ["", "r"];
    assert Split(p, Sep) == segs;
    assert segs[..1] == [""] && [""][..0] == [];
    assert Fold([], segs, false) == ["r"];
  }

  /** `../a` and `..\a` are both extracted to `/r/a` under the root `/r`, not dropped. */
  lemma ParentEntriesReRooted()
    ensures EntryDestination("/", "/r", "../a", FileEntry) == WriteFile("/r/a")
    ensures EntryDestination("/", "/r", "..\\a", FileEntry) == WriteFile("/r/a")
  {
    NormalizeParentA();
    NormalizeBackslashA();
    StripParentA();
    JoinRootA();
    ResolveRoot();
    assert "/r/a"[..2] == "/r";
  }

  lemma StripParentA()
    ensures StripParentPrefix("../a") == "a"
    ensures StripParentPrefix("..\\a") == "a"
  {
    assert ParentStep("../a") && "../a"[3..] == "a";
    assert ParentStep("..\\a") && "..\\a"[3..] == "a";
    StripKept("a");
  }

  lemma JoinRootA()
    ensures JoinPath("/r", "a") == "/r/a"
  {
    NormalizeRootA();
    assert "/r" + [Sep] + "a" == "/r/a";
  }
}
