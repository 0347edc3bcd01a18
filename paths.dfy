/** Node's POSIX `path.resolve`, `path.normalize` and `path.join`, as lexical
    operations on `/`-separated segments: empty and `.` segments vanish and
    `..` removes the segment before it. An absolute path never climbs above
    `/`; a relative one keeps its leading `..` segments. */
module PosixPath {
  import opened Text

  predicate IsAbsolute(p: string) {
    |p| > 0 && p[0] == '/'
  }

  /** A segment that normalisation keeps as it is. */
  predicate IsPlain(seg: string) {
    seg != "" && seg != "." && seg != ".." && '/' !in seg
  }

  predicate AllPlain(segs: seq<string>) {
    forall i :: 0 <= i < |segs| ==> IsPlain(segs[i])
  }

  /** An absolute path with no empty, `.` or `..` segment and no trailing
      `/`: the form `path.resolve` returns. */
  predicate IsNormalAbsolute(p: string) {
    p == "/" || (IsAbsolute(p) && AllPlain(SplitOn(p[1..], '/')))
  }

  /** One segment of the normalisation loop. `aboveRoot` is true for a
      relative path, where a `..` with nothing (or only `..`) before it is
      kept. */
  function Step(acc: seq<string>, seg: string, aboveRoot: bool): seq<string>
  {
    if seg == "" || seg == "." then acc
    else if seg == ".." then
      if acc != [] && acc[|acc| - 1] != ".." then acc[..|acc| - 1]
      else if aboveRoot then acc + [".."]
      else acc
    else acc + [seg]
  }

  /** The normalisation loop over all segments, left to right. */
  function Fold(acc: seq<string>, segs: seq<string>, aboveRoot: bool): seq<string>
    decreases |segs|
  {
    if segs == [] then acc else Fold(Step(acc, segs[0], aboveRoot), segs[1..], aboveRoot)
  }

  /** The string `path.resolve(...args)` normalises: the arguments after
      the last absolute one (or all of them, after `cwd`) joined with `/`;
      empty arguments are skipped. */
  function Combined(cwd: string, args: seq<string>): string
    decreases |args|
  {
    if args == [] then cwd
    else
      var last := args[|args| - 1];
      if last == "" then Combined(cwd, args[..|args| - 1])
      else if last[0] == '/' then last
      else Combined(cwd, args[..|args| - 1]) + "/" + last
  }

  /** `path.resolve(...args)` with `cwd` standing for `process.cwd()`,
      which is always absolute. */
  function Resolve(cwd: string, args: seq<string>): (r: string)
    requires IsAbsolute(cwd)
    ensures IsNormalAbsolute(r)
  {
    var segs := Fold([], SplitOn(Combined(cwd, args), '/'), false);
    FoldStaysPlain([], SplitOn(Combined(cwd, args), '/'));
    PlainNamesNormal(segs);
    "/" + JoinWith(segs, "/")
  }

  /** `path.normalize(p)`: never empty, absolute when `p` is, and
      ending in `/` whenever `p` does. */
  function Normalize(p: string): (r: string)
    ensures r != ""
    ensures p != "" && p[0] == '/' ==> r[0] == '/'
    ensures p != "" && p[|p| - 1] == '/' ==> r[|r| - 1] == '/'
  {
    if p == "" then "."
    else
      var abs := p[0] == '/';
      var trailing := p[|p| - 1] == '/';
      var body := JoinWith(Fold([], SplitOn(p, '/'), !abs), "/");
      if body == "" then (if abs then "/" else if trailing then "./" else ".")
      else (if abs then "/" else "") + body + (if trailing then "/" else "")
  }

  /** `path.join(...parts)`: the non-empty parts joined with `/`, then
      normalised; `.` when every part is empty. */
  function Join(parts: seq<string>): string
  {
    var joined := JoinWith(NonEmpty(parts), "/");
    if joined == "" then "." else Normalize(joined)
  }

  // ----- properties -----

  /** Resolving an absolute path with no segments that can disappear keeps
      only plain segments. */
  lemma {:induction false} FoldStaysPlain(acc: seq<string>, segs: seq<string>)
    requires AllPlain(acc)
    requires forall i :: 0 <= i < |segs| ==> '/' !in segs[i]
    ensures AllPlain(Fold(acc, segs, false))
    decreases |segs|
  {
    if segs != [] {
      FoldStaysPlain(Step(acc, segs[0], false), segs[1..]);
    }
  }

  /** Plain names joined under `/` form a normalised absolute path. */
  lemma PlainNamesNormal(names: seq<string>)
    requires AllPlain(names)
    ensures IsNormalAbsolute("/" + JoinWith(names, "/"))
  {
    var p := "/" + JoinWith(names, "/");
    if names != [] {
      assert p[1..] == JoinWith(names, "/");
      JoinSplitOn(names, '/');
    }
  }

  /** Plain segments pass through normalisation unchanged. */
  lemma {:induction false} FoldPlain(acc: seq<string>, segs: seq<string>, aboveRoot: bool)
    requires AllPlain(segs)
    ensures Fold(acc, segs, aboveRoot) == acc + segs
    decreases |segs|
  {
    if segs != [] {
      FoldPlain(acc + [segs[0]], segs[1..], aboveRoot);
      assert acc + [segs[0]] + segs[1..] == acc + segs;
    }
  }

  /** Normalising a concatenation normalises the second part from where the
      first part left off. */
  lemma {:induction false} FoldAppend(acc: seq<string>, a: seq<string>, b: seq<string>, aboveRoot: bool)
    ensures Fold(acc, a + b, aboveRoot) == Fold(Fold(acc, a, aboveRoot), b, aboveRoot)
    decreases |a|
  {
    if a != [] {
      assert (a + b)[0] == a[0] && (a + b)[1..] == a[1..] + b;
      FoldAppend(Step(acc, a[0], aboveRoot), a[1..], b, aboveRoot);
    } else {
      assert a + b == b;
    }
  }

  /** The segments of a normalised absolute path: it splits into an empty
      first piece followed by its plain names. */
  function Names(p: string): (names: seq<string>)
    requires IsNormalAbsolute(p)
    ensures AllPlain(names)
    ensures p == "/" + JoinWith(names, "/")
    ensures p != "/" ==> names != []
  {
    if p == "/" then [] else
      SplitOnJoin(p[1..], '/');
      SplitOn(p[1..], '/')
  }

  /** A normalised absolute path splits into an empty first piece and its
      names. */
  lemma SplitNormal(p: string)
    requires IsNormalAbsolute(p)
    ensures Fold([], SplitOn(p, '/'), false) == Names(p)
  {
    var names := Names(p);
    if p == "/" {
      assert SplitOn(p, '/') == ["", ""] by {
        assert Find(p, '/') == 0;
        assert p[1..] == "";
      }
      assert Fold([], [""], false) == [];
      assert ["", ""][1..] == [""];
    } else {
      assert p == [] + ['/'] + p[1..];
      SplitOnConcat([], p[1..], '/');
      assert SplitOn([], '/') == [""];
      assert SplitOn(p, '/') == [""] + names;
      FoldAppend([], [""], names, false);
      FoldPlain([], names, false);
    }
  }

  /** `path.normalize` leaves a normalised absolute path as it is. */
  lemma NormalizeNormal(p: string)
    requires IsNormalAbsolute(p)
    ensures Normalize(p) == p
  {
    var names := Names(p);
    SplitNormal(p);
    if p != "/" {
      assert p[|p| - 1] != '/' by {
        var last := names[|names| - 1];
        assert IsPlain(last) && last[|last| - 1] in last;
        JoinEnds(names);
      }
      assert "/" + JoinWith(names, "/") + "" == p;
    }
  }

  /** `path.resolve` of a path it already returned gives back that path:
      with no further segments, a normalised root resolves to itself. */
  lemma ResolveIdempotent(cwd: string, root: string)
    requires IsAbsolute(cwd)
    requires IsNormalAbsolute(root)
    ensures Resolve(cwd, [root]) == root
    ensures Resolve(root, []) == root
  {
    assert Combined(cwd, [root]) == root;
    assert Combined(root, []) == root;
    SplitNormal(root);
  }

  /** When the string to resolve is already normalised, resolving it
      changes nothing. */
  lemma ResolveNormal(cwd: string, args: seq<string>)
    requires IsAbsolute(cwd)
    requires IsNormalAbsolute(Combined(cwd, args))
    ensures Resolve(cwd, args) == Combined(cwd, args)
  {
    SplitNormal(Combined(cwd, args));
  }

  /** Descending from a normalised root through plain names lands exactly
      on the root, a `/`, and those names joined with `/`. */
  lemma {:induction false} ResolvePlain(root: string, names: seq<string>)
    requires IsNormalAbsolute(root) && root != "/"
    requires names != [] && AllPlain(names)
    ensures Resolve(root, names) == root + "/" + JoinWith(names, "/")
  {
    var rn := Names(root);
    var p := root + "/" + JoinWith(names, "/");
    CombinedPlain(root, names);
    JoinAppend(rn, names, "/");
    assert p == "/" + JoinWith(rn + names, "/");
    assert AllPlain(rn + names);
    PlainNamesNormal(rn + names);
    ResolveNormal(root, names);
  }

  /** With plain arguments, `Combined` is the root followed by the
      arguments, all joined with `/`. */
  lemma {:induction false} CombinedPlain(root: string, names: seq<string>)
    requires names != [] && AllPlain(names)
    ensures Combined(root, names) == root + "/" + JoinWith(names, "/")
    decreases |names|
  {
    var init := names[..|names| - 1];
    var last := names[|names| - 1];
    assert last != "" && last[0] != '/' by { assert IsPlain(last); assert last[0] in last; }
    assert Combined(root, names) == Combined(root, init) + "/" + last;
    if init == [] {
      assert names == [last];
    } else {
      assert AllPlain(init) by {
        forall i | 0 <= i < |init| ensures IsPlain(init[i]) { assert init[i] == names[i]; }
      }
      CombinedPlain(root, init);
      assert init + [last] == names;
      JoinAppend(init, [last], "/");
    }
  }

  /** `path.join` of plain names is those names joined with `/`: nothing
      is added, dropped or reordered. */
  lemma {:induction false} JoinPlainNames(parts: seq<string>)
    requires parts != [] && AllPlain(parts)
    ensures Join(parts) == JoinWith(parts, "/")
  {
    JoinPlainNormal(parts);
    NonEmptyKeeps(parts);
  }

  /** Plain names joined with `/` are already normal. */
  lemma {:induction false} JoinPlainNormal(parts: seq<string>)
    requires parts != [] && AllPlain(parts)
    ensures JoinWith(parts, "/") != "" && Normalize(JoinWith(parts, "/")) == JoinWith(parts, "/")
  {
    var joined := JoinWith(parts, "/");
    assert joined != "" && joined[0] != '/' && joined[|joined| - 1] != '/' by {
      var first, last := parts[0], parts[|parts| - 1];
      assert IsPlain(first) && IsPlain(last);
      assert first[0] in first && last[|last| - 1] in last;
      JoinEnds(parts);
    }
    assert Fold([], SplitOn(joined, '/'), true) == parts by {
      JoinSplitOn(parts, '/');
      FoldPlain([], parts, true);
    }
    assert "" + joined + "" == joined;
  }

  /** The joined string starts where the first part starts and ends where
      the last part ends. */
  lemma {:induction false} JoinEnds(parts: seq<string>)
    requires parts != [] && AllPlain(parts)
    ensures |JoinWith(parts, "/")| > 0
    ensures JoinWith(parts, "/")[0] == parts[0][0]
    ensures JoinWith(parts, "/")[|JoinWith(parts, "/")| - 1] == parts[|parts| - 1][|parts[|parts| - 1]| - 1]
    decreases |parts|
  {
    if |parts| > 1 {
      JoinEnds(parts[1..]);
    }
  }

  /** Resolving request segments (pieces with no `/` in them) against a
      normalised root is running the normalisation loop over them, starting
      from the root's own names. */
  lemma {:induction false} ResolveSegments(root: string, args: seq<string>)
    requires IsNormalAbsolute(root)
    requires forall i :: 0 <= i < |args| ==> '/' !in args[i]
    ensures Resolve(root, args) == "/" + JoinWith(Fold(Names(root), args, false), "/")
  {
    FoldSegments(root, args);
  }

  lemma {:induction false} FoldSegments(root: string, args: seq<string>)
    requires IsNormalAbsolute(root)
    requires forall i :: 0 <= i < |args| ==> '/' !in args[i]
    ensures Fold([], SplitOn(Combined(root, args), '/'), false) == Fold(Names(root), args, false)
    decreases |args|
  {
    if args == [] {
      SplitNormal(root);
    } else {
      var init, last := args[..|args| - 1], args[|args| - 1];
      assert args == init + [last];
      FoldSegments(root, init);
      FoldAppend(Names(root), init, [last], false);
      if last != "" {
        assert last[0] in last;
        var c := Combined(root, init);
        assert Combined(root, args) == c + ['/'] + last;
        SplitOnConcat(c, last, '/');
        assert SplitOn(last, '/') == [last] by { assert Find(last, '/') == |last|; }
        FoldAppend([], SplitOn(c, '/'), [last], false);
      }
    }
  }
}
