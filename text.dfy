/** The handful of JavaScript string operations the core relies on:
    `split` with a one-character separator, `split(/\s+/)`, the
    `filter(Boolean)` that drops empty strings, `trim`, `join` and
    `indexOf` on arrays. */
module Text {
  import opened Wrappers

  /** The characters `\s` matches and `trim` strips: ECMAScript
      WhiteSpace and LineTerminator. */
  predicate IsSpace(c: char) {
    c == ' ' || c == '\t' || c == '\n' || c == '\r' || c == '\U{B}' || c == '\U{C}'
    || c == '\U{A0}' || c == '\U{1680}' || ('\U{2000}' <= c <= '\U{200A}')
    || c == '\U{2028}' || c == '\U{2029}' || c == '\U{202F}' || c == '\U{205F}'
    || c == '\U{3000}' || c == '\U{FEFF}'
  }

  /** The characters a regular-expression `.` does not match. */
  predicate IsLineTerminator(c: char) {
    c == '\n' || c == '\r' || c == '\U{2028}' || c == '\U{2029}'
  }

  predicate NoSpace(s: string) {
    forall i :: 0 <= i < |s| ==> !IsSpace(s[i])
  }

  /** `xs[i]`, which is `undefined` past the end. */
  function At<T>(xs: seq<T>, i: nat): (r: Option<T>)
    ensures r.Some? <==> i < |xs|
    ensures r.Some? ==> r.value == xs[i]
  {
    if i < |xs| then Some(xs[i]) else None
  }

  /** JavaScript truthiness of a string that may be `undefined`. */
  predicate Truthy(s: Option<string>) {
    s.Some? && s.value != ""
  }

  /** Index of the first `c` in `s`, or `|s|` when there is none. */
  function Find(s: string, c: char): (k: nat)
    ensures k <= |s|
    ensures k < |s| ==> s[k] == c
  {
    if s == [] || s[0] == c then 0 else 1 + Find(s[1..], c)
  }

  /** No `c` comes before `Find(s, c)`. */
  lemma {:induction false} FindFirst(s: string, c: char)
    ensures forall j :: 0 <= j < Find(s, c) ==> s[j] != c
    decreases |s|
  {
    if s != [] && s[0] != c {
      FindFirst(s[1..], c);
      forall j | 0 < j < Find(s, c) ensures s[j] != c { assert s[j] == s[1..][j - 1]; }
    }
  }

  /** `s.split(c)` for a one-character separator `c`. */
  function SplitOn(s: string, c: char): (r: seq<string>)
    ensures |r| >= 1
    ensures forall i :: 0 <= i < |r| ==> c !in r[i]
    decreases |s|
  {
    var k := Find(s, c);
    FindFirst(s, c);
    if k == |s| then [s] else [s[..k]] + SplitOn(s[k + 1..], c)
  }

  /** `xs.join(sep)`: the elements with `sep` between each two. */
  function JoinWith(xs: seq<string>, sep: string): (r: string)
    ensures xs == [] ==> r == ""
    ensures |xs| == 1 ==> r == xs[0]
  {
    if xs == [] then "" else if |xs| == 1 then xs[0] else xs[0] + sep + JoinWith(xs[1..], sep)
  }

  /** Number of leading characters of `s` that are not white space. */
  function WordLen(s: string): (k: nat)
    ensures k <= |s|
    ensures k < |s| ==> IsSpace(s[k])
    ensures forall j :: 0 <= j < k ==> !IsSpace(s[j])
  {
    if s == [] || IsSpace(s[0]) then 0 else 1 + WordLen(s[1..])
  }

  /** Number of leading white-space characters of `s`. */
  function SpaceLen(s: string): (k: nat)
    ensures k <= |s|
    ensures k < |s| ==> !IsSpace(s[k])
    ensures forall j :: 0 <= j < k ==> IsSpace(s[j])
  {
    if s == [] || !IsSpace(s[0]) then 0 else 1 + SpaceLen(s[1..])
  }

  /** `s.split(/\s+/)`: the pieces between maximal runs of white space,
      including an empty first or last piece when `s` starts or ends with
      white space. */
  function SplitWs(s: string): (r: seq<string>)
    ensures |r| >= 1
    ensures forall i :: 0 <= i < |r| ==> NoSpace(r[i])
    decreases |s|
  {
    var k := WordLen(s);
    if k == |s| then [s] else [s[..k]] + SplitWs(s[k + SpaceLen(s[k..])..])
  }

  /** `xs.filter(Boolean)` on strings: the non-empty ones, in order, each
      as often as it occurs. */
  function NonEmpty(xs: seq<string>): (r: seq<string>)
    ensures |r| <= |xs|
    ensures forall i :: 0 <= i < |r| ==> r[i] != "" && r[i] in xs
  {
    if xs == [] then []
    else if xs[0] == "" then NonEmpty(xs[1..])
    else [xs[0]] + NonEmpty(xs[1..])
  }

  /** `s.split(/\s+/).filter(Boolean)`: the white-space-separated words. */
  function Tokens(s: string): (r: seq<string>)
    ensures forall i :: 0 <= i < |r| ==> r[i] != "" && NoSpace(r[i])
  {
    NonEmpty(SplitWs(s))
  }

  /** A non-empty run of white space, as `\s+` matches. */
  predicate IsRun(t: string) {
    t != [] && forall i :: 0 <= i < |t| ==> IsSpace(t[i])
  }

  /** The text `words[0] + seps[0] + words[1] + ... + words[n]`. */
  function Interleave(words: seq<string>, seps: seq<string>): string
    requires |words| == |seps| + 1
    decreases |seps|
  {
    if seps == [] then words[0] else words[0] + seps[0] + Interleave(words[1..], seps[1..])
  }

  /** The white-space runs between the pieces of `s.split(/\s+/)`. */
  function Runs(s: string): (runs: seq<string>)
    ensures forall i :: 0 <= i < |runs| ==> IsRun(runs[i])
    decreases |s|
  {
    var k := WordLen(s);
    if k == |s| then []
    else
      var m := SpaceLen(s[k..]);
      var run := s[k..k + m];
      assert IsRun(run) by {
        assert s[k..][0] == s[k];
        forall j | 0 <= j < m ensures IsSpace(run[j]) { assert run[j] == s[k..][j]; }
      }
      [run] + Runs(s[k + m..])
  }

  /** `s` without its leading white space. */
  function TrimStart(s: string): (r: string)
    ensures |r| <= |s| && r == s[|s| - |r|..]
    ensures r == [] || !IsSpace(r[0])
    ensures forall j :: 0 <= j < |s| - |r| ==> IsSpace(s[j])
  {
    s[SpaceLen(s)..]
  }

  /** `s` without its trailing white space. */
  function TrimEnd(s: string): (r: string)
    ensures |r| <= |s| && r == s[..|r|]
    ensures r == [] || !IsSpace(r[|r| - 1])
    ensures forall j :: |r| <= j < |s| ==> IsSpace(s[j])
  {
    if s == [] || !IsSpace(s[|s| - 1]) then s else TrimEnd(s[..|s| - 1])
  }

  /** `s.trim()`: the slice of `s` that is left once the white space at
      both ends is cut, starting after the `SpaceLen(s)` leading white
      space characters. */
  function Trim(s: string): (r: string)
    ensures SpaceLen(s) + |r| <= |s| && r == s[SpaceLen(s)..SpaceLen(s) + |r|]
    ensures forall j :: SpaceLen(s) + |r| <= j < |s| ==> IsSpace(s[j])
    ensures r == [] || (!IsSpace(r[0]) && !IsSpace(r[|r| - 1]))
  {
    TrimEnd(TrimStart(s))
  }

  /** `xs.indexOf(x)`, with `|xs|` standing for -1. */
  function IndexOf<T(==)>(xs: seq<T>, x: T): (k: nat)
    ensures k <= |xs|
    ensures k < |xs| <==> x in xs
    ensures k < |xs| ==> xs[k] == x
    ensures forall j :: 0 <= j < k ==> xs[j] != x
  {
    if xs == [] then 0 else if xs[0] == x then 0 else 1 + IndexOf(xs[1..], x)
  }

  // ----- properties -----

  /** Joining the pieces of `s.split(c)` with `c` gives back `s`. */
  lemma {:induction false} SplitOnJoin(s: string, c: char)
    ensures JoinWith(SplitOn(s, c), [c]) == s
    decreases |s|
  {
    var k := Find(s, c);
    if k < |s| {
      var head, tail := s[..k], s[k + 1..];
      assert s == head + [c] + tail;
      var rest := SplitOn(tail, c);
      assert JoinWith(rest, [c]) == tail by { SplitOnJoin(tail, c); }
      assert SplitOn(s, c) == [head] + rest;
      assert JoinWith([head] + rest, [c]) == head + [c] + JoinWith(rest, [c]) by {
        assert ([head] + rest)[1..] == rest;
      }
    }
  }

  /** Splitting on `c` undoes joining with `c`, when no part contains `c`. */
  lemma {:induction false} JoinSplitOn(parts: seq<string>, c: char)
    requires parts != []
    requires forall i :: 0 <= i < |parts| ==> c !in parts[i]
    ensures SplitOn(JoinWith(parts, [c]), c) == parts
    decreases |parts|
  {
    if |parts| == 1 {
      SplitNone(parts[0], c);
    } else {
      var rest := JoinWith(parts[1..], [c]);
      assert JoinWith(parts, [c]) == parts[0] + [c] + rest;
      SplitHead(parts[0], rest, c);
      JoinSplitOn(parts[1..], c);
    }
  }

  /** A run of non-empty strings is left as it is by `filter(Boolean)`. */
  lemma {:induction false} NonEmptyKeeps(words: seq<string>)
    requires forall i :: 0 <= i < |words| ==> words[i] != ""
    ensures NonEmpty(words) == words
    decreases |words|
  {
    if words != [] {
      NonEmptyKeeps(words[1..]);
      assert words == [words[0]] + words[1..];
    }
  }

  /** `WordLen` is the only index with its three properties. */
  lemma WordLenUnique(s: string, m: nat)
    requires m <= |s|
    requires m < |s| ==> IsSpace(s[m])
    requires forall j :: 0 <= j < m ==> !IsSpace(s[j])
    ensures WordLen(s) == m
  {
  }

  /** `Find` is the only index with its three properties. */
  lemma FindUnique(s: string, c: char, m: nat)
    requires m <= |s|
    requires m < |s| ==> s[m] == c
    requires forall j :: 0 <= j < m ==> s[j] != c
    ensures Find(s, c) == m
  {
    FindFirst(s, c);
  }

  /** A first piece with no separator is split off whole. */
  lemma SplitHead(x: string, y: string, c: char)
    requires c !in x
    ensures SplitOn(x + [c] + y, c) == [x] + SplitOn(y, c)
  {
    var s := x + [c] + y;
    assert Find(s, c) == |x| by {
      forall j | 0 <= j <= |x| ensures s[j] == (x + [c])[j] { }
      FindUnique(s, c, |x|);
    }
    assert s[..|x|] == x && s[|x| + 1..] == y;
  }

  /** A text with no separator is one piece. */
  lemma SplitNone(x: string, c: char)
    requires c !in x
    ensures SplitOn(x, c) == [x]
  {
    assert Find(x, c) == |x|;
  }

  /** The inductive step of `SplitOnConcat`: the first piece of `x` is
      split off on both sides. */
  lemma SplitOnConcatStep(head: string, tail: string, y: string, c: char)
    requires c !in head
    requires SplitOn(tail + [c] + y, c) == SplitOn(tail, c) + SplitOn(y, c)
    ensures SplitOn(head + [c] + tail + [c] + y, c) == SplitOn(head + [c] + tail, c) + SplitOn(y, c)
  {
    var rest := tail + [c] + y;
    assert head + [c] + tail + [c] + y == head + [c] + rest;
    assert SplitOn(head + [c] + tail, c) == [head] + SplitOn(tail, c) by {
      SplitHead(head, tail, c);
    }
    assert SplitOn(head + [c] + rest, c) == [head] + SplitOn(rest, c) by {
      SplitHead(head, rest, c);
    }
    assert [head] + (SplitOn(tail, c) + SplitOn(y, c)) == [head] + SplitOn(tail, c) + SplitOn(y, c);
  }

  /** Splitting a concatenation at a separator splits each side. */
  lemma {:induction false} SplitOnConcat(x: string, y: string, c: char)
    ensures SplitOn(x + [c] + y, c) == SplitOn(x, c) + SplitOn(y, c)
    decreases |x|
  {
    if c !in x {
      SplitHead(x, y, c);
      SplitNone(x, c);
    } else {
      FindFirst(x, c);
      var k := Find(x, c);
      var head := x[..k];
      var tail := x[k + 1..];
      assert c !in head by {
        forall j | 0 <= j < k ensures head[j] != c { assert head[j] == x[j]; }
      }
      assert x == head + [c] + tail;
      SplitOnConcat(tail, y, c);
      SplitOnConcatStep(head, tail, y, c);
    }
  }

  /** Joining two non-empty lists is joining their joins. */
  lemma {:induction false} JoinAppend(xs: seq<string>, ys: seq<string>, sep: string)
    requires xs != [] && ys != []
    ensures JoinWith(xs + ys, sep) == JoinWith(xs, sep) + sep + JoinWith(ys, sep)
    decreases |xs|
  {
    if |xs| == 1 {
      assert (xs + ys)[1..] == ys;
    } else {
      assert (xs + ys)[1..] == xs[1..] + ys;
      JoinAppend(xs[1..], ys, sep);
    }
  }

  /** A join starts with the first element and ends with the last. */
  lemma {:induction false} JoinWithEnds(xs: seq<string>, sep: string)
    requires xs != []
    ensures |xs[0]| <= |JoinWith(xs, sep)| && JoinWith(xs, sep)[..|xs[0]|] == xs[0]
    ensures |xs[|xs| - 1]| <= |JoinWith(xs, sep)|
    ensures JoinWith(xs, sep)[|JoinWith(xs, sep)| - |xs[|xs| - 1]|..] == xs[|xs| - 1]
    decreases |xs|
  {
    if |xs| > 1 {
      var first, last := xs[0], xs[|xs| - 1];
      var rest := JoinWith(xs[1..], sep);
      var r := first + sep + rest;
      assert JoinWith(xs, sep) == r;
      assert r[..|first|] == first;
      JoinWithEnds(xs[1..], sep);
      assert xs[1..][|xs[1..]| - 1] == last;
      assert r[|r| - |last|..] == rest[|rest| - |last|..];
    }
  }

  /** `filter(Boolean)` keeps every non-empty string as often as it
      occurs and adds nothing. */
  lemma {:induction false} NonEmptyCounts(xs: seq<string>)
    ensures multiset(NonEmpty(xs)) == multiset(xs)["" := 0]
    decreases |xs|
  {
    if xs != [] {
      NonEmptyCounts(xs[1..]);
      assert xs == [xs[0]] + xs[1..];
    }
  }

  /** `filter(Boolean)` of a concatenation is the concatenation of the
      filtered parts: the kept strings stay in order. */
  lemma {:induction false} NonEmptyAppend(xs: seq<string>, ys: seq<string>)
    ensures NonEmpty(xs + ys) == NonEmpty(xs) + NonEmpty(ys)
    decreases |xs|
  {
    if xs == [] {
      assert xs + ys == ys;
    } else {
      assert (xs + ys)[0] == xs[0] && (xs + ys)[1..] == xs[1..] + ys;
      NonEmptyAppend(xs[1..], ys);
    }
  }

  /** `SpaceLen` is the only index with its three properties. */
  lemma SpaceLenUnique(s: string, m: nat)
    requires m <= |s|
    requires m < |s| ==> !IsSpace(s[m])
    requires forall j :: 0 <= j < m ==> IsSpace(s[j])
    ensures SpaceLen(s) == m
  {
  }

  /** `trim()` removes exactly the white space put around a text that
      neither starts nor ends with white space. */
  lemma TrimPadded(lead: string, x: string, trail: string)
    requires forall j :: 0 <= j < |lead| ==> IsSpace(lead[j])
    requires forall j :: 0 <= j < |trail| ==> IsSpace(trail[j])
    requires x == [] || (!IsSpace(x[0]) && !IsSpace(x[|x| - 1]))
    ensures Trim(lead + x + trail) == x
  {
    var s := lead + x + trail;
    var r := Trim(s);
    if x == [] {
      assert forall j :: 0 <= j < |s| ==> IsSpace(s[j]) by {
        forall j | 0 <= j < |s| ensures IsSpace(s[j]) {
          if j < |lead| { assert s[j] == lead[j]; } else { assert s[j] == trail[j - |lead|]; }
        }
      }
    } else {
      assert SpaceLen(s) == |lead| by {
        forall j | 0 <= j < |lead| ensures IsSpace(s[j]) { assert s[j] == lead[j]; }
        assert s[|lead|] == x[0];
        SpaceLenUnique(s, |lead|);
      }
      assert |r| >= |x| by {
        assert s[|lead| + |x| - 1] == x[|x| - 1];
      }
      assert |r| <= |x| by {
        assert r[|r| - 1] == s[|lead| + |r| - 1];
      }
      assert r == s[|lead|..|lead| + |x|];
      assert s[|lead|..|lead| + |x|] == x;
    }
  }

  /** A word, a white-space run and a text that starts with no white
      space: the word is split off and the rest is split on its own. */
  lemma SplitWsRun(w: string, sep: string, rest: string)
    requires NoSpace(w) && IsRun(sep)
    requires rest == [] || !IsSpace(rest[0])
    ensures SplitWs(w + sep + rest) == [w] + SplitWs(rest)
  {
    var t := sep + rest;
    assert w + sep + rest == w + t;
    WordThenSpace(w, t);
    RunThenRest(sep, rest);
  }

  /** A word followed by white space: the word is the leading non-space
      part. */
  lemma WordThenSpace(w: string, t: string)
    requires NoSpace(w) && t != [] && IsSpace(t[0])
    ensures WordLen(w + t) == |w| && (w + t)[..|w|] == w && (w + t)[|w|..] == t
  {
    var s := w + t;
    assert s[..|w|] == w && s[|w|..] == t;
    forall j | 0 <= j < |w| ensures !IsSpace(s[j]) { assert s[j] == w[j]; }
    assert s[|w|] == t[0];
    WordLenUnique(s, |w|);
  }

  /** A run followed by a text that starts with no white space: the run
      is the leading white space. */
  lemma RunThenRest(sep: string, rest: string)
    requires IsRun(sep)
    requires rest == [] || !IsSpace(rest[0])
    ensures SpaceLen(sep + rest) == |sep| && (sep + rest)[|sep|..] == rest
  {
    var t := sep + rest;
    assert t[|sep|..] == rest;
    forall j | 0 <= j < |sep| ensures IsSpace(t[j]) { assert t[j] == sep[j]; }
    if rest != [] { assert t[|sep|] == rest[0]; }
    SpaceLenUnique(t, |sep|);
  }

  /** A text built from words starts with the first word's first
      character. */
  lemma InterleaveStart(words: seq<string>, seps: seq<string>)
    requires |words| == |seps| + 1 && words[0] != ""
    ensures Interleave(words, seps) != [] && Interleave(words, seps)[0] == words[0][0]
  {
    if seps != [] {
      var rest := Interleave(words[1..], seps[1..]);
      assert Interleave(words, seps) == words[0] + (seps[0] + rest);
    }
  }

  /** Non-empty words that hold no white space, separated by arbitrary
      white-space runs, are read back by `split(/\s+/)`; the first and the
      last word may be empty, standing for white space at either end. */
  lemma {:induction false} SplitWsSeparated(words: seq<string>, seps: seq<string>)
    requires |words| == |seps| + 1
    requires forall i :: 0 <= i < |words| ==> NoSpace(words[i])
    requires forall i :: 0 < i < |words| - 1 ==> words[i] != ""
    requires forall i :: 0 <= i < |seps| ==> IsRun(seps[i])
    ensures SplitWs(Interleave(words, seps)) == words
    decreases |seps|
  {
    var w := words[0];
    if seps == [] {
      WordLenUnique(w, |w|);
      assert words == [w];
    } else {
      var rest := Interleave(words[1..], seps[1..]);
      assert Interleave(words, seps) == w + seps[0] + rest;
      if |words| > 2 {
        InterleaveStart(words[1..], seps[1..]);
      } else {
        assert rest == words[1];
      }
      SplitWsRun(w, seps[0], rest);
      SplitWsSeparated(words[1..], seps[1..]);
      assert words == [w] + words[1..];
    }
  }

  /** One step of `split(/\s+/)`: the first word, the run after it, and
      the rest, which is split on its own. */
  lemma SplitWsStep(s: string) returns (word: string, run: string, tail: string)
    requires WordLen(s) < |s|
    ensures s == word + run + tail && |tail| < |s|
    ensures SplitWs(s) == [word] + SplitWs(tail) && Runs(s) == [run] + Runs(tail)
  {
    var k := WordLen(s);
    var m := SpaceLen(s[k..]);
    word, run, tail := s[..k], s[k..k + m], s[k + m..];
    assert s == word + run + tail;
  }

  /** Every text is its `split(/\s+/)` pieces with the white-space runs
      put back between them: no character is lost or added. */
  lemma {:induction false} SplitWsRebuild(s: string)
    ensures |SplitWs(s)| == |Runs(s)| + 1 && Interleave(SplitWs(s), Runs(s)) == s
    decreases |s|
  {
    if WordLen(s) < |s| {
      var word, run, tail := SplitWsStep(s);
      SplitWsRebuild(tail);
      InterleaveCons(word, run, SplitWs(tail), Runs(tail));
    }
  }

  /** Putting a last word and run after a text built from words. */
  lemma {:induction false} InterleaveSnoc(words: seq<string>, seps: seq<string>, sep: string, w: string)
    requires |words| == |seps| + 1
    ensures Interleave(words + [w], seps + [sep]) == Interleave(words, seps) + sep + w
    decreases |seps|
  {
    var ws, ss := words + [w], seps + [sep];
    if seps == [] {
      assert ws[1..] == [w] && ss[1..] == [];
    } else {
      assert ws[1..] == words[1..] + [w] && ss[1..] == seps[1..] + [sep];
      InterleaveSnoc(words[1..], seps[1..], sep, w);
    }
  }

  /** Putting a first word and run before a text built from words. */
  lemma InterleaveCons(w: string, sep: string, words: seq<string>, seps: seq<string>)
    requires |words| == |seps| + 1
    ensures Interleave([w] + words, [sep] + seps) == w + sep + Interleave(words, seps)
  {
    assert ([w] + words)[1..] == words && ([sep] + seps)[1..] == seps;
  }

  /** The text with its leading and trailing white space, written as a
      text built from words with empty first and last words where that
      white space is present. */
  lemma InterleavePadded(lead: string, words: seq<string>, seps: seq<string>, trail: string)
      returns (all: seq<string>, allSeps: seq<string>)
    requires |words| == |seps| + 1
    ensures |all| == |allSeps| + 1
    ensures all == (if lead == [] then [] else [""]) + words + (if trail == [] then [] else [""])
    ensures allSeps == (if lead == [] then [] else [lead]) + seps + (if trail == [] then [] else [trail])
    ensures Interleave(all, allSeps) == lead + Interleave(words, seps) + trail
  {
    var x := Interleave(words, seps);
    var ws, ss := words, seps;
    if lead != [] {
      ws, ss := [""] + words, [lead] + seps;
      InterleaveCons("", lead, words, seps);
      assert "" + lead + x == lead + x;
    }
    assert Interleave(ws, ss) == lead + x;
    all, allSeps := ws, ss;
    if trail != [] {
      all, allSeps := ws + [""], ss + [trail];
      InterleaveSnoc(ws, ss, trail, "");
      assert lead + x + trail + "" == lead + x + trail;
    }
  }

  /** `split(/\s+/).filter(Boolean)` reads back non-empty words that hold
      no white space, whatever white-space runs separate them and whatever
      white space comes before and after them. */
  lemma TokensSeparated(lead: string, words: seq<string>, seps: seq<string>, trail: string)
    requires |words| == |seps| + 1
    requires forall i :: 0 <= i < |words| ==> words[i] != "" && NoSpace(words[i])
    requires forall i :: 0 <= i < |seps| ==> IsRun(seps[i])
    requires forall j :: 0 <= j < |lead| ==> IsSpace(lead[j])
    requires forall j :: 0 <= j < |trail| ==> IsSpace(trail[j])
    ensures Tokens(lead + Interleave(words, seps) + trail) == words
  {
    var all, allSeps := InterleavePadded(lead, words, seps, trail);
    assert SplitWs(lead + Interleave(words, seps) + trail) == all by {
      assert forall i :: 0 <= i < |allSeps| ==> IsRun(allSeps[i]);
      assert forall i :: 0 <= i < |all| ==> NoSpace(all[i]);
      assert forall i :: 0 < i < |all| - 1 ==> all[i] != "";
      SplitWsSeparated(all, allSeps);
    }
    NonEmptyPadded(lead == [], words, trail == []);
  }

  /** `filter(Boolean)` drops an empty string before and after a run of
      non-empty strings. */
  lemma NonEmptyPadded(noFront: bool, words: seq<string>, noBack: bool)
    requires forall i :: 0 <= i < |words| ==> words[i] != ""
    ensures NonEmpty((if noFront then [] else [""]) + words + (if noBack then [] else [""])) == words
  {
    var front: seq<string> := if noFront then [] else [""];
    var back: seq<string> := if noBack then [] else [""];
    var fw := front + words;
    assert NonEmpty(fw) == words by {
      NonEmptyAppend(front, words);
      NonEmptyKeeps(words);
      assert NonEmpty(front) == [];
      assert [] + words == words;
    }
    assert NonEmpty(fw + back) == words by {
      NonEmptyAppend(fw, back);
      assert NonEmpty(back) == [];
      assert words + [] == words;
    }
  }
}
