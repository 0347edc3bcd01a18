/** `parseConfigFile` of lollipop.js: the configuration text is cut into
    `( ... )` groups, each group into white-space-separated tokens, and the
    first token picks the kind of service. Servers and monitors bind a
    port; a port seen before makes the whole parse throw. */
module Config {
  import opened Wrappers
  import opened Text
  import opened PosixPath
  import opened JsNumber

  // ----- the groups: content.match(/\(.*?\)/g) -----

  /** Index of the first line terminator at or after `i`, or `|s|`: the
      end of the line `i` is on. */
  function LineEnd(s: string, i: nat): (e: nat)
    requires i <= |s|
    ensures i <= e <= |s|
    ensures e < |s| ==> IsLineTerminator(s[e])
    ensures forall j :: i <= j < e ==> !IsLineTerminator(s[j])
    decreases |s| - i
  {
    if i == |s| || IsLineTerminator(s[i]) then i else LineEnd(s, i + 1)
  }

  /** Index of the nearest `)` at or after `i`, provided no line
      terminator comes first: there is none exactly when the rest of the
      line holds no `)`. */
  function CloseFrom(s: string, i: nat): (r: Option<nat>)
    requires i <= |s|
    ensures r.Some? ==> i <= r.value < LineEnd(s, i) && s[r.value] == ')'
    ensures r.Some? ==> forall j :: i <= j < r.value ==> s[j] != ')' && !IsLineTerminator(s[j])
    ensures r.None? <==> forall j :: i <= j < LineEnd(s, i) ==> s[j] != ')'
    decreases |s| - i
  {
    if i == |s| || IsLineTerminator(s[i]) then None
    else if s[i] == ')' then Some(i)
    else CloseFrom(s, i + 1)
  }

  /** Every match of `/\(.*?\)/g` in `s`, left to right: from a `(` to the
      nearest `)` on the same line. A `(` with no such `)` starts no
      match. */
  function Groups(s: string): (gs: seq<string>)
    decreases |s|
  {
    if s == [] then []
    else if s[0] == '(' then
      match CloseFrom(s, 1)
      case Some(j) => [s[..j + 1]] + Groups(s[j + 1..])
      case None => Groups(s[1..])
    else Groups(s[1..])
  }

  /** A group runs from a `(` to the first `)`, on one line. */
  ghost predicate IsGroup(g: string) {
    && |g| >= 2 && g[0] == '(' && g[|g| - 1] == ')'
    && forall j :: 1 <= j < |g| - 1 ==> g[j] != ')' && !IsLineTerminator(g[j])
  }

  /** `config.slice(1, -1).split(/\s+/).filter(Boolean)`. */
  function GroupTokens(g: string): (parts: seq<string>)
    ensures forall i :: 0 <= i < |parts| ==> parts[i] != "" && NoSpace(parts[i])
  {
    if |g| < 2 then Tokens([]) else Tokens(g[1..|g| - 1])
  }

  // ----- descriptors -----

  /** A server's `password` field: `null` with no `-p` token, `undefined`
      when `-p` is the last token, otherwise the token after the first
      `-p`. */
  datatype Password = Null | Undefined | Given(text: string)

  datatype Descriptor =
    | Monitor(port: Option<int>, monitorPassword: Option<string>)
    | Sucker(link: Option<string>, directory: Option<string>)
    | Js(scriptPath: Option<string>)
    | Server(path: string, port: Option<int>, password: Password)

  /** The error the parse throws. `NotIterable`: `match` found no group and
      returned null; `DuplicatePort`: the message names the port and, for a
      monitor entry, mentions monitors; `UnresolvablePath`: an empty group
      made `path.resolve(undefined)` throw. */
  datatype ConfigError = NotIterable | DuplicatePort(port: Option<int>, monitorEntry: bool) | UnresolvablePath

  /** `parts.includes('-p') ? parts[parts.indexOf('-p') + 1] : null`. */
  function FlagPassword(parts: seq<string>): (pw: Password)
    ensures pw == Null <==> "-p" !in parts
    ensures pw == Undefined <==> "-p" in parts && IndexOf(parts, "-p") == |parts| - 1
    ensures pw.Given? ==> exists i :: 0 <= i < |parts| - 1 && parts[i] == "-p" && "-p" !in parts[..i]
                                      && pw.text == parts[i + 1]
  {
    if "-p" !in parts then Null
    else if IndexOf(parts, "-p") + 1 < |parts| then Given(parts[IndexOf(parts, "-p") + 1])
    else Undefined
  }

  /** Whether the first token selects a kind that binds no port. */
  predicate IsPortless(parts: seq<string>) {
    parts != [] && (parts[0] == "sucker" || parts[0] == "js")
  }

  predicate IsMonitor(parts: seq<string>) {
    parts != [] && parts[0] == "monitor"
  }

  /** The port a group binds, `parseInt(parts[1])`, for monitors and
      servers. */
  function GroupPort(parts: seq<string>): Option<int>
  {
    ParseInt(At(parts, 1))
  }

  /** The descriptor a group yields once its port has passed the
      uniqueness check; `None` when `path.resolve(parts[0])` throws because
      there is no first token. */
  function Describe(parts: seq<string>, cwd: string): (d: Option<Descriptor>)
    requires IsAbsolute(cwd)
    ensures d.None? <==> parts == []
    ensures d.Some? ==> (d.value.Monitor? <==> IsMonitor(parts))
    ensures d.Some? ==> (d.value.Sucker? || d.value.Js? <==> IsPortless(parts))
    ensures d.Some? && d.value.Server? ==> d.value.path == Resolve(cwd, [parts[0]])
    ensures d.Some? && (d.value.Monitor? || d.value.Server?) ==> d.value.port == GroupPort(parts)
    ensures d.Some? && d.value.Monitor? ==> d.value.monitorPassword == At(parts, 2)
    ensures d.Some? && d.value.Sucker? ==> parts[0] == "sucker" && d.value.link == At(parts, 1) && d.value.directory == At(parts, 2)
    ensures d.Some? && d.value.Js? ==> parts[0] == "js" && d.value.scriptPath == At(parts, 1)
    ensures d.Some? && d.value.Server? ==> d.value.password == FlagPassword(parts)
  {
    if parts == [] then None
    else if parts[0] == "monitor" then Some(Monitor(GroupPort(parts), At(parts, 2)))
    else if parts[0] == "sucker" then Some(Sucker(At(parts, 1), At(parts, 2)))
    else if parts[0] == "js" then Some(Js(At(parts, 1)))
    else Some(Server(Resolve(cwd, [parts[0]]), GroupPort(parts), FlagPassword(parts)))
  }

  /** What the loop body does with one group's tokens, given the ports
      recorded so far: the repeated-port check comes first, so an empty
      group with a repeated (NaN) port reports the port. */
  function GroupStep(parts: seq<string>, cwd: string, used: seq<Option<int>>): (r: Result<Descriptor, ConfigError>)
    requires IsAbsolute(cwd)
    ensures r.Err? && r.error.DuplicatePort? <==> !IsPortless(parts) && GroupPort(parts) in used
    ensures r.Err? && r.error.DuplicatePort? ==> r.error.port == GroupPort(parts) && r.error.monitorEntry == IsMonitor(parts)
    ensures r == Err(UnresolvablePath) <==> parts == [] && GroupPort(parts) !in used
    ensures r.Ok? <==> parts != [] && (IsPortless(parts) || GroupPort(parts) !in used)
    ensures r.Ok? ==> Some(r.value) == Describe(parts, cwd)
  {
    if !IsPortless(parts) && GroupPort(parts) in used then Err(DuplicatePort(GroupPort(parts), IsMonitor(parts)))
    else match Describe(parts, cwd)
      case None => Err(UnresolvablePath)
      case Some(d) => Ok(d)
  }

  /** The port a group binds, as a list of zero or one port. */
  function PortOf(parts: seq<string>): seq<Option<int>>
  {
    if IsPortless(parts) then [] else [GroupPort(parts)]
  }

  /** The tokens of every group, in order. */
  function SplitGroups(groups: seq<string>): (ps: seq<seq<string>>)
    ensures |ps| == |groups|
  {
    if groups == [] then [] else [GroupTokens(groups[0])] + SplitGroups(groups[1..])
  }

  /** The loop of `parseConfigFile` over the token lists `ps` of the groups
      still to go, with `used` the ports recorded so far. */
  function ParseGroups(ps: seq<seq<string>>, cwd: string, used: seq<Option<int>>): (r: Result<seq<Descriptor>, ConfigError>)
    requires IsAbsolute(cwd)
    ensures r.Ok? ==> |r.value| == |ps|
    ensures r != Err(NotIterable)
    decreases |ps|
  {
    if ps == [] then Ok([])
    else
      match GroupStep(ps[0], cwd, used)
      case Err(e) => Err(e)
      case Ok(d) =>
        match ParseGroups(ps[1..], cwd, used + PortOf(ps[0]))
        case Ok(ds) => Ok([d] + ds)
        case Err(e) => Err(e)
  }

  /** `parseConfigFile` on the text of the file; `cwd` is the directory
      relative server paths are resolved against. */
  function ParseConfig(content: string, cwd: string): (r: Result<seq<Descriptor>, ConfigError>)
    requires IsAbsolute(cwd)
    ensures r == Err(NotIterable) <==> Groups(content) == []
    ensures r.Ok? ==> |r.value| == |Groups(content)|
  {
    var groups := Groups(content);
    if groups == [] then Err(NotIterable) else ParseGroups(SplitGroups(groups), cwd, [])
  }

  /** `ok` with `ds` put in front of its list; an error stays an error. */
  function Prepend(ds: seq<Descriptor>, r: Result<seq<Descriptor>, ConfigError>): Result<seq<Descriptor>, ConfigError>
  {
    match r
    case Ok(rest) => Ok(ds + rest)
    case Err(e) => Err(e)
  }

  /** One accepted group moves its descriptor from the part still to
      parse onto the list already parsed. */
  lemma Advance(parsed: seq<Descriptor>, ps: seq<seq<string>>, cwd: string, used: seq<Option<int>>, d: Descriptor)
    requires IsAbsolute(cwd) && ps != []
    requires GroupStep(ps[0], cwd, used) == Ok(d)
    ensures Prepend(parsed, ParseGroups(ps, cwd, used))
         == Prepend(parsed + [d], ParseGroups(ps[1..], cwd, used + PortOf(ps[0])))
  {
    var rest := ParseGroups(ps[1..], cwd, used + PortOf(ps[0]));
    assert ParseGroups(ps, cwd, used) == Prepend([d], rest);
    if rest.Ok? {
      assert parsed + ([d] + rest.value) == (parsed + [d]) + rest.value;
    }
  }

  /** A refused group ends the parse with its error. */
  lemma Stop(parsed: seq<Descriptor>, ps: seq<seq<string>>, cwd: string, used: seq<Option<int>>, e: ConfigError)
    requires IsAbsolute(cwd) && ps != []
    requires GroupStep(ps[0], cwd, used) == Err(e)
    ensures Prepend(parsed, ParseGroups(ps, cwd, used)) == Err(e)
  {
  }

  /** The body of the loop for one group: the descriptor it pushes and the
      ports recorded afterwards, or the error it throws. */
  method ParseGroup(parts: seq<string>, cwd: string, usedPorts: seq<Option<int>>)
    returns (r: Result<Descriptor, ConfigError>, used: seq<Option<int>>)
    requires IsAbsolute(cwd)
    ensures r == GroupStep(parts, cwd, usedPorts)
    ensures r.Ok? ==> used == usedPorts + PortOf(parts)
  {
    used := usedPorts;
    if |parts| > 0 && parts[0] == "monitor" {
      var port := ParseInt(At(parts, 1));
      if port in usedPorts {
        return Err(DuplicatePort(port, true)), used;
      }
      used := usedPorts + [port];
      r := Ok(Monitor(port, At(parts, 2)));
    } else if |parts| > 0 && parts[0] == "sucker" {
      r := Ok(Sucker(At(parts, 1), At(parts, 2)));
    } else if |parts| > 0 && parts[0] == "js" {
      r := Ok(Js(At(parts, 1)));
    } else {
      var port := ParseInt(At(parts, 1));
      if port in usedPorts {
        return Err(DuplicatePort(port, false)), used;
      }
      used := usedPorts + [port];
      if parts == [] {
        return Err(UnresolvablePath), used;
      }
      r := Ok(Server(Resolve(cwd, [parts[0]]), port, FlagPassword(parts)));
    }
  }

  /** The loop as written: `usedPorts` and `parsedConfigs` grow group by
      group and the first error ends the parse. */
  method ParseConfigFile(content: string, cwd: string) returns (r: Result<seq<Descriptor>, ConfigError>)
    requires IsAbsolute(cwd)
    ensures r == ParseConfig(content, cwd)
  {
    var serverConfigs := Groups(content);
    if serverConfigs == [] {
      return Err(NotIterable);
    }
    var usedPorts: seq<Option<int>> := [];
    var parsedConfigs: seq<Descriptor> := [];
    ghost var goal := ParseConfig(content, cwd);
    assert serverConfigs[0..] == serverConfigs;
    match ParseGroups(SplitGroups(serverConfigs), cwd, []) {
      case Ok(rest) => assert [] + rest == rest;
      case Err(_) =>
    }
    for i := 0 to |serverConfigs|
      invariant goal == Prepend(parsedConfigs, ParseGroups(SplitGroups(serverConfigs[i..]), cwd, usedPorts))
    {
      ghost var todo := SplitGroups(serverConfigs[i..]);
      assert serverConfigs[i..][0] == serverConfigs[i] && serverConfigs[i..][1..] == serverConfigs[i + 1..];
      assert todo[0] == GroupTokens(serverConfigs[i]) && todo[1..] == SplitGroups(serverConfigs[i + 1..]);
      var parts := GroupTokens(serverConfigs[i]);
      var step, used := ParseGroup(parts, cwd, usedPorts);
      match step {
        case Err(e) =>
          Stop(parsedConfigs, todo, cwd, usedPorts, e);
          return Err(e);
        case Ok(d) =>
          Advance(parsedConfigs, todo, cwd, usedPorts, d);
          usedPorts := used;
          parsedConfigs := parsedConfigs + [d];
      }
    }
    assert serverConfigs[|serverConfigs|..] == [];
    assert parsedConfigs + [] == parsedConfigs;
    r := Ok(parsedConfigs);
  }

  // ----- properties -----

  /** The ports a run of groups binds, in order. */
  function PortsOf(ps: seq<seq<string>>): seq<Option<int>>
    decreases |ps|
  {
    if ps == [] then [] else PortOf(ps[0]) + PortsOf(ps[1..])
  }

  /** The ports the parsed servers and monitors listen on, in order. */
  function DescriptorPorts(ds: seq<Descriptor>): seq<Option<int>>
  {
    if ds == [] then []
    else (if ds[0].Monitor? || ds[0].Server? then [ds[0].port] else []) + DescriptorPorts(ds[1..])
  }

  predicate Distinct<T(==)>(xs: seq<T>) {
    forall i, j :: 0 <= i < j < |xs| ==> xs[i] != xs[j]
  }

  /** `x` occurs at least twice in `xs`. */
  ghost predicate Repeats<T>(xs: seq<T>, x: T) {
    exists i, j :: 0 <= i < j < |xs| && xs[i] == x && xs[j] == x
  }

  /** No group is empty once stripped of its brackets and white space. */
  predicate AllNamed(ps: seq<seq<string>>) {
    forall k :: 0 <= k < |ps| ==> ps[k] != []
  }

  lemma DistinctSnoc<T>(xs: seq<T>, x: T)
    ensures Distinct(xs + [x]) <==> Distinct(xs) && x !in xs
  {
    var ys := xs + [x];
    if Distinct(ys) {
      forall i, j | 0 <= i < j < |xs| ensures xs[i] != xs[j] { assert ys[i] == xs[i] && ys[j] == xs[j]; }
      forall i | 0 <= i < |xs| ensures xs[i] != x { assert ys[i] == xs[i] && ys[|xs|] == x; }
    }
  }

  lemma DistinctPrefix<T>(xs: seq<T>, ys: seq<T>)
    ensures Distinct(xs + ys) ==> Distinct(xs)
  {
    if Distinct(xs + ys) {
      forall i, j | 0 <= i < j < |xs| ensures xs[i] != xs[j] {
        assert (xs + ys)[i] == xs[i] && (xs + ys)[j] == xs[j];
      }
    }
  }

  /** The parse succeeds from a state with ports `used` exactly when no
      group is empty and every port is new. */
  lemma {:induction false} ParseGroupsOk(ps: seq<seq<string>>, cwd: string, used: seq<Option<int>>)
    requires IsAbsolute(cwd) && Distinct(used)
    ensures ParseGroups(ps, cwd, used).Ok? <==> AllNamed(ps) && Distinct(used + PortsOf(ps))
    decreases |ps|
  {
    if ps == [] {
      assert used + [] == used;
    } else {
      var used' := used + PortOf(ps[0]);
      assert used + PortsOf(ps) == used' + PortsOf(ps[1..]);
      assert AllNamed(ps) <==> ps[0] != [] && AllNamed(ps[1..]) by {
        if AllNamed(ps) {
          forall k | 0 <= k < |ps[1..]| ensures ps[1..][k] != [] { assert ps[1..][k] == ps[k + 1]; }
        }
      }
      if !IsPortless(ps[0]) {
        DistinctSnoc(used, GroupPort(ps[0]));
      } else {
        assert used' == used;
      }
      DistinctPrefix(used', PortsOf(ps[1..]));
      if GroupStep(ps[0], cwd, used).Ok? {
        ParseGroupsOk(ps[1..], cwd, used');
      }
    }
  }

  /** A successful parse yields one descriptor per group, in order, and
      the ports of its servers and monitors are the ports of the groups. */
  lemma {:induction false} ParseGroupsDescribe(ps: seq<seq<string>>, cwd: string, used: seq<Option<int>>)
    requires IsAbsolute(cwd)
    ensures ParseGroups(ps, cwd, used).Ok? ==>
      && |ParseGroups(ps, cwd, used).value| == |ps|
      && (forall k :: 0 <= k < |ps| ==> Describe(ps[k], cwd) == Some(ParseGroups(ps, cwd, used).value[k]))
      && DescriptorPorts(ParseGroups(ps, cwd, used).value) == PortsOf(ps)
    decreases |ps|
  {
    if ps != [] && ParseGroups(ps, cwd, used).Ok? {
      var used' := used + PortOf(ps[0]);
      ParseGroupsDescribe(ps[1..], cwd, used');
      var ds := ParseGroups(ps, cwd, used).value;
      var tail := ParseGroups(ps[1..], cwd, used').value;
      assert ds == [ds[0]] + tail;
      assert ds[1..] == tail;
      forall k | 0 <= k < |ps|
        ensures Describe(ps[k], cwd) == Some(ds[k])
      {
        if k > 0 { assert ps[k] == ps[1..][k - 1] && ds[k] == tail[k - 1]; }
      }
    }
  }

  /** A repeated port is reported with a port that occurs twice among the
      ports seen. */
  lemma {:induction false} DuplicateIsRepeated(ps: seq<seq<string>>, cwd: string, used: seq<Option<int>>,
                                               port: Option<int>, monitor: bool)
    requires IsAbsolute(cwd)
    requires ParseGroups(ps, cwd, used) == Err(DuplicatePort(port, monitor))
    ensures Repeats(used + PortsOf(ps), port)
    decreases |ps|
  {
    var used' := used + PortOf(ps[0]);
    var all := used + PortsOf(ps);
    assert all == used' + PortsOf(ps[1..]);
    if GroupStep(ps[0], cwd, used).Err? {
      var i :| 0 <= i < |used| && used[i] == port;
      assert all[i] == port && all[|used|] == port;
    } else {
      DuplicateIsRepeated(ps[1..], cwd, used', port, monitor);
    }
  }

  /** Every group runs from a `(` to the first `)` after it, on one line. */
  lemma {:induction false} GroupsAreGroups(s: string)
    ensures forall g :: g in Groups(s) ==> IsGroup(g)
    decreases |s|
  {
    if s != [] {
      if s[0] == '(' && CloseFrom(s, 1).Some? {
        GroupsAreGroups(s[CloseFrom(s, 1).value + 1..]);
      } else {
        GroupsAreGroups(s[1..]);
      }
    }
  }

  /** `parseConfigFile` succeeds exactly when the text holds at least one
      group, no group is empty and no two servers or monitors share a port
      (two servers with no port collide too: `includes` finds NaN). On
      success it yields one descriptor per group, in order, the servers
      and monitors on pairwise different ports. */
  lemma ParseConfigSpec(content: string, cwd: string)
    requires IsAbsolute(cwd)
    ensures ParseConfig(content, cwd).Ok? <==>
      var ps := SplitGroups(Groups(content));
      ps != [] && AllNamed(ps) && Distinct(PortsOf(ps))
    ensures ParseConfig(content, cwd).Ok? ==>
      var ps := SplitGroups(Groups(content));
      var ds := ParseConfig(content, cwd).value;
      && |ds| == |ps|
      && (forall k :: 0 <= k < |ds| ==> Describe(ps[k], cwd) == Some(ds[k]))
      && Distinct(DescriptorPorts(ds))
  {
    var ps := SplitGroups(Groups(content));
    if ps != [] {
      ParseGroupsOk(ps, cwd, []);
      ParseGroupsDescribe(ps, cwd, []);
      assert [] + PortsOf(ps) == PortsOf(ps);
    }
  }

  /** A `DuplicatePort` error names a port that two servers or monitors
      of the file both ask for. */
  lemma DuplicateSpec(content: string, cwd: string, port: Option<int>, monitor: bool)
    requires IsAbsolute(cwd)
    requires ParseConfig(content, cwd) == Err(DuplicatePort(port, monitor))
    ensures Repeats(PortsOf(SplitGroups(Groups(content))), port)
  {
    var ps := SplitGroups(Groups(content));
    DuplicateIsRepeated(ps, cwd, [], port, monitor);
    assert [] + PortsOf(ps) == PortsOf(ps);
  }

  /** The tokens of the `k`-th group are those of the `k`-th match. */
  lemma {:induction false} SplitGroupsAt(groups: seq<string>, k: nat)
    requires k < |groups|
    ensures SplitGroups(groups)[k] == GroupTokens(groups[k])
    decreases k
  {
    if k > 0 {
      SplitGroupsAt(groups[1..], k - 1);
      assert SplitGroups(groups) == [GroupTokens(groups[0])] + SplitGroups(groups[1..]);
      assert groups[1..][k - 1] == groups[k];
    }
  }

  /** `CloseFrom` finds the first `)` on the line, whichever it is. */
  lemma {:induction false} CloseFromUnique(s: string, i: nat, m: nat)
    requires i <= m < |s| && s[m] == ')'
    requires forall j :: i <= j < m ==> s[j] != ')' && !IsLineTerminator(s[j])
    ensures CloseFrom(s, i) == Some(m)
    decreases m - i
  {
    if i < m {
      CloseFromUnique(s, i + 1, m);
    }
  }

  /** A group followed by any text is matched first; matching then goes
      on after its `)`. */
  lemma GroupsHead(g: string, rest: string)
    requires IsGroup(g)
    ensures Groups(g + rest) == [g] + Groups(rest)
  {
    var s := g + rest;
    assert s[..|g|] == g && s[|g|..] == rest;
    assert CloseFrom(s, 1) == Some(|g| - 1) by {
      forall j | 1 <= j < |g| - 1 ensures s[j] != ')' && !IsLineTerminator(s[j]) { assert s[j] == g[j]; }
      assert s[|g| - 1] == g[|g| - 1];
      CloseFromUnique(s, 1, |g| - 1);
    }
  }

  /** Text with no `(` holds no match and is passed over. */
  lemma {:induction false} GroupsSkip(filler: string, rest: string)
    requires '(' !in filler
    ensures Groups(filler + rest) == Groups(rest)
    decreases |filler|
  {
    if filler != [] {
      var s := filler + rest;
      assert s[0] == filler[0] && s[1..] == filler[1..] + rest;
      assert filler[0] in filler && forall c :: c in filler[1..] ==> c in filler;
      GroupsSkip(filler[1..], rest);
    } else {
      assert filler + rest == rest;
    }
  }

  /** Groups separated by text that holds no `(` are exactly the matches,
      in order: nothing in between is matched and no group is missed. */
  lemma {:induction false} GroupsLayout(fillers: seq<string>, gs: seq<string>)
    requires |fillers| == |gs| + 1
    requires forall i :: 0 <= i < |fillers| ==> '(' !in fillers[i]
    requires forall i :: 0 <= i < |gs| ==> IsGroup(gs[i])
    ensures Groups(Interleave(fillers, gs)) == gs
    decreases |gs|
  {
    var f := fillers[0];
    if gs == [] {
      GroupsSkip(f, []);
      assert f + [] == f;
    } else {
      var rest := Interleave(fillers[1..], gs[1..]);
      assert Interleave(fillers, gs) == f + (gs[0] + rest);
      GroupsSkip(f, gs[0] + rest);
      GroupsHead(gs[0], rest);
      GroupsLayout(fillers[1..], gs[1..]);
      assert gs == [gs[0]] + gs[1..];
    }
  }

  /** A match starts at `i`: a `(` with a `)` after it on its line. */
  predicate Opens(s: string, i: nat)
    requires i < |s|
  {
    s[i] == '(' && CloseFrom(s, i + 1).Some?
  }

  /** Dropping the first character does not move the closing `)` of a
      later `(`. */
  lemma {:induction false} CloseFromShift(s: string, i: nat)
    requires 1 <= i <= |s|
    ensures CloseFrom(s[1..], i - 1).None? <==> CloseFrom(s, i).None?
    decreases |s| - i
  {
    if i < |s| {
      assert s[1..][i - 1] == s[i];
      if !IsLineTerminator(s[i]) && s[i] != ')' {
        CloseFromShift(s, i + 1);
      }
    }
  }

  /** There is no match, and `match` returns null, exactly when no `(` has
      a `)` after it on its line. */
  lemma {:induction false} GroupsEmpty(s: string)
    ensures Groups(s) == [] <==> forall i :: 0 <= i < |s| ==> !Opens(s, i)
    decreases |s|
  {
    if s != [] {
      if Opens(s, 0) {
        assert Groups(s) != [];
      } else {
        var t := s[1..];
        assert Groups(s) == Groups(t);
        GroupsEmpty(t);
        forall i | 1 <= i < |s| ensures Opens(s, i) <==> Opens(t, i - 1) {
          assert t[i - 1] == s[i];
          CloseFromShift(s, i + 1);
        }
        if forall i :: 0 <= i < |t| ==> !Opens(t, i) {
          forall i | 0 <= i < |s| ensures !Opens(s, i) {
            if i > 0 { assert !Opens(t, i - 1); }
          }
        }
        if forall i :: 0 <= i < |s| ==> !Opens(s, i) {
          forall i | 0 <= i < |t| ensures !Opens(t, i) {
            assert !Opens(s, i + 1);
          }
        }
      }
    }
  }

  /** The tokens of a group are the words written in it, whatever white
      space surrounds and separates them. */
  lemma GroupTokensOf(lead: string, words: seq<string>, seps: seq<string>, trail: string)
    requires |words| == |seps| + 1
    requires forall i :: 0 <= i < |words| ==> words[i] != "" && NoSpace(words[i])
    requires forall i :: 0 <= i < |seps| ==> IsRun(seps[i])
    requires forall j :: 0 <= j < |lead| ==> IsSpace(lead[j])
    requires forall j :: 0 <= j < |trail| ==> IsSpace(trail[j])
    ensures GroupTokens(['('] + (lead + Interleave(words, seps) + trail) + [')']) == words
  {
    var inner := lead + Interleave(words, seps) + trail;
    var g := ['('] + inner + [')'];
    assert g[1..|g| - 1] == inner;
    TokensSeparated(lead, words, seps, trail);
  }

  /** A group holding one word, with no `)` and no white space in it. */
  lemma OneWordGroup(w: string)
    requires w != "" && NoSpace(w) && ')' !in w
    ensures IsGroup(['('] + w + [')'])
    ensures GroupTokens(['('] + w + [')']) == [w]
  {
    var g := ['('] + w + [')'];
    forall j | 1 <= j < |g| - 1 ensures g[j] != ')' && !IsLineTerminator(g[j]) {
      assert g[j] == w[j - 1];
    }
    assert Interleave([w], []) == w;
    GroupTokensOf([], [w], [], []);
    assert [] + w + [] == w;
  }

  /** `(a) (b)`: two servers with no port both ask for NaN, and the second
      is refused as a repeated port. */
  lemma PortlessServersCollide(cwd: string, a: string, b: string)
    requires IsAbsolute(cwd)
    requires a != "" && NoSpace(a) && ')' !in a && a != "monitor" && a != "sucker" && a != "js"
    requires b != "" && NoSpace(b) && ')' !in b && b != "monitor" && b != "sucker" && b != "js"
    ensures ParseConfig(['('] + a + [')', ' ', '('] + b + [')'], cwd) == Err(DuplicatePort(None, false))
  {
    var ga, gb := ['('] + a + [')'], ['('] + b + [')'];
    OneWordGroup(a);
    OneWordGroup(b);
    var fillers: seq<string> := [[], [' '], []];
    assert Interleave(fillers, [ga, gb]) == [] + ga + ([' '] + gb + []) by {
      assert fillers[1..] == [[' '], []] && [ga, gb][1..] == [gb];
      assert Interleave([[' '], []], [gb]) == [' '] + gb + Interleave([[]], []);
    }
    assert ['('] + a + [')', ' ', '('] + b + [')'] == [] + ga + ([' '] + gb + []);
    GroupsLayout(fillers, [ga, gb]);
    var ps := [[a], [b]];
    assert SplitGroups([ga, gb]) == ps;
    assert GroupPort([a]) == None && GroupPort([b]) == None;
    assert ParseGroups([[b]], cwd, [None]) == Err(DuplicatePort(None, false));
    assert ParseGroups(ps, cwd, []) == Err(DuplicatePort(None, false)) by {
      assert GroupStep([a], cwd, []).Ok?;
      assert ps[1..] == [[b]];
    }
  }
}
