/** The command-line entry of lollipop.js: the argument dispatch, the
    no-argument mode that serves every sub-directory of the working
    directory, and the loop that starts what a configuration file lists.
    Starting a service is recorded as an `Action`; what the service then
    does is modelled by FileServer, BasicAuth and Sysmon. */
module Launcher {
  import opened Wrappers
  import opened Text
  import opened PosixPath
  import opened JsNumber
  import opened Config

  /** Why the run ends with a message on the error console. */
  datatype Problem =
    | Usage(message: string)
    | ConfigUnreadable
    | ConfigRejected(error: ConfigError)
    | ScriptUnreadable(scriptPath: Option<string>)
    /** `listen` threw a RangeError for a port that is NaN, negative or
        above 65535. */
    | PortRejected(port: Option<int>)

  datatype Action =
    | StartServer(root: string, port: Option<int>)
    | StartSecured(root: string, port: Option<int>, password: string)
    | StartMonitor(port: Option<int>, monitorPassword: Option<string>)
    | Archive(link: Option<string>, directory: Option<string>)
    /** `runner.runScript(script)`: the script's path on the command line,
        the script's text in a configuration file. */
    | RunScript(script: string)
    | Help
    | Complain(problem: Problem)

  /** An entry of the working directory and whether it is a directory. */
  datatype Dirent = Dirent(name: string, isDirectory: bool)

  /** What the process sees: its working directory, the entries of that
      directory, and the text of every readable file by absolute path. */
  datatype Env = Env(cwd: string, listing: seq<Dirent>, files: map<string, string>)

  /** `fs.readFileSync(p, 'utf8')`: `None` when it throws, for a missing
      path argument or a file that cannot be read. */
  function ReadFile(env: Env, p: Option<string>): (r: Option<string>)
    requires IsAbsolute(env.cwd)
    ensures r.Some? <==> p.Some? && Resolve(env.cwd, [p.value]) in env.files
    ensures r.Some? ==> r.value == env.files[Resolve(env.cwd, [p.value])]
  {
    if p.None? then None
    else
      var abs := Resolve(env.cwd, [p.value]);
      if abs in env.files then Some(env.files[abs]) else None
  }

  const UsageSucker: string := "You must provide a website URL and a folder name."
  const UsageScript: string := "You must provide a script path."
  const UsageMonitor: string := "You must provide a port and a password for the monitor."

  /** Whether `listen` accepts the port: an integer from 0 to 65535. It
      throws for NaN, a negative port and one above 65535. */
  predicate Listenable(port: Option<int>) {
    port.Some? && 0 <= port.value <= 65535
  }

  // ----- the configuration launcher -----

  /** What the launcher does for one descriptor. A server or monitor on a
      port `listen` refuses throws, which ends the run. */
  function ActionFor(d: Descriptor, env: Env): (a: Action)
    requires IsAbsolute(env.cwd)
    ensures d.Server? && Listenable(d.port) ==> (a.StartSecured? <==> d.password.Given? && d.password.text != "")
    ensures d.Server? && Listenable(d.port) ==> (a.StartServer? || a.StartSecured?) && a.root == d.path && a.port == d.port
    ensures d.Server? && a.StartSecured? ==> d.password.Given? && a.password == d.password.text
    ensures d.Monitor? && Listenable(d.port) ==> a == StartMonitor(d.port, d.monitorPassword)
    ensures (d.Server? || d.Monitor?) && !Listenable(d.port) ==> a == Complain(PortRejected(d.port))
    ensures d.Sucker? ==> a == Archive(d.link, d.directory)
    ensures d.Js? ==> (a.RunScript? <==> ReadFile(env, d.scriptPath).Some?)
    ensures d.Js? && a.RunScript? ==> a.script == ReadFile(env, d.scriptPath).value
    ensures a.Complain? <==> (d.Js? && ReadFile(env, d.scriptPath).None?)
                             || ((d.Server? || d.Monitor?) && !Listenable(d.port))
  {
    match d
    case Js(scriptPath) =>
      (match ReadFile(env, scriptPath)
       case None => Complain(ScriptUnreadable(scriptPath))
       case Some(text) => RunScript(text))
    case Server(path, port, password) =>
      if !Listenable(port) then Complain(PortRejected(port))
      else if password.Given? && password.text != "" then StartSecured(path, port, password.text)
      else StartServer(path, port)
    case Monitor(port, password) =>
      if !Listenable(port) then Complain(PortRejected(port)) else StartMonitor(port, password)
    case Sucker(link, directory) => Archive(link, directory)
  }

  /** The launcher loop: one action per descriptor, in order, until a
      script cannot be read or a port is refused; the exception leaves the
      loop and is reported. */
  function LaunchPlan(ds: seq<Descriptor>, env: Env): (plan: seq<Action>)
    requires IsAbsolute(env.cwd)
    ensures |plan| <= |ds|
    ensures ds != [] ==> plan != [] && plan[0] == ActionFor(ds[0], env)
  {
    if ds == [] then []
    else
      var a := ActionFor(ds[0], env);
      if a.Complain? then [a] else [a] + LaunchPlan(ds[1..], env)
  }

  /** The body of the `-c` loop for one descriptor. */
  method LaunchOne(config: Descriptor, env: Env) returns (a: Action)
    requires IsAbsolute(env.cwd)
    ensures a == ActionFor(config, env)
  {
    match config {
      case Js(scriptPath) =>
        var text := ReadFile(env, scriptPath);
        if text.None? {
          return Complain(ScriptUnreadable(scriptPath));
        }
        a := RunScript(text.value);
      case Server(path, port, password) =>
        if !Listenable(port) {
          return Complain(PortRejected(port));
        }
        if password.Given? && password.text != "" {
          a := StartSecured(path, port, password.text);
        } else {
          a := StartServer(path, port);
        }
      case Monitor(port, password) =>
        if !Listenable(port) {
          return Complain(PortRejected(port));
        }
        a := StartMonitor(port, password);
      case Sucker(link, directory) =>
        a := Archive(link, directory);
    }
  }

  /** The plan from descriptor `i` on is its action, followed by the plan
      from `i + 1` on unless that action ends the run. */
  lemma LaunchStep(ds: seq<Descriptor>, env: Env, i: nat)
    requires IsAbsolute(env.cwd) && i < |ds|
    ensures LaunchPlan(ds[i..], env)
         == if ActionFor(ds[i], env).Complain? then [ActionFor(ds[i], env)]
            else [ActionFor(ds[i], env)] + LaunchPlan(ds[i + 1..], env)
  {
    assert ds[i..][0] == ds[i] && ds[i..][1..] == ds[i + 1..];
  }

  /** The loop of the `-c` mode as written. */
  method Launch(ds: seq<Descriptor>, env: Env) returns (actions: seq<Action>)
    requires IsAbsolute(env.cwd)
    ensures actions == LaunchPlan(ds, env)
  {
    actions := [];
    for i := 0 to |ds|
      invariant LaunchPlan(ds, env) == actions + LaunchPlan(ds[i..], env)
    {
      var a := LaunchOne(ds[i], env);
      LaunchStep(ds, env, i);
      ghost var before := actions;
      actions := actions + [a];
      if a.Complain? {
        assert LaunchPlan(ds, env) == before + [a];
        return;
      }
      assert before + ([a] + LaunchPlan(ds[i + 1..], env)) == actions + LaunchPlan(ds[i + 1..], env);
    }
    assert ds[|ds|..] == [];
    assert actions + [] == actions;
  }

  // ----- the no-argument mode -----

  /** The names of the directories among the working directory's entries,
      in listing order. */
  function Folders(listing: seq<Dirent>): (names: seq<string>)
    ensures |names| <= |listing|
    ensures forall n :: n in names <==> exists e :: e in listing && e.isDirectory && e.name == n
  {
    if listing == [] then []
    else (if listing[0].isDirectory then [listing[0].name] else []) + Folders(listing[1..])
  }

  /** The i-th folder is served from `join(cwd, folder)` on port 9000 + i. */
  function ServeAllPlan(cwd: string, folders: seq<string>): seq<Action>
  {
    seq(|folders|, i requires 0 <= i < |folders| => StartServer(Join([cwd, folders[i]]), Some(9000 + i)))
  }

  /** The loop of the no-argument mode as written, with `port++`. */
  method ServeAll(cwd: string, folders: seq<string>) returns (actions: seq<Action>)
    ensures actions == ServeAllPlan(cwd, folders)
  {
    actions := [];
    var port := 9000;
    for i := 0 to |folders|
      invariant port == 9000 + i
      invariant actions == ServeAllPlan(cwd, folders[..i])
    {
      assert folders[..i + 1][..i] == folders[..i];
      actions := actions + [StartServer(Join([cwd, folders[i]]), Some(port))];
      port := port + 1;
    }
    assert folders[..|folders|] == folders;
  }

  /** Listing two runs of entries lists the folders of each, in order. */
  lemma {:induction false} FoldersAppend(xs: seq<Dirent>, ys: seq<Dirent>)
    ensures Folders(xs + ys) == Folders(xs) + Folders(ys)
    decreases |xs|
  {
    if xs == [] {
      assert xs + ys == ys;
    } else {
      assert (xs + ys)[0] == xs[0] && (xs + ys)[1..] == xs[1..] + ys;
      FoldersAppend(xs[1..], ys);
    }
  }

  /** When every entry is a directory, the folders are all the names, in
      listing order. */
  lemma {:induction false} FoldersAllDirectories(listing: seq<Dirent>)
    requires forall i :: 0 <= i < |listing| ==> listing[i].isDirectory
    ensures |Folders(listing)| == |listing|
    ensures forall i :: 0 <= i < |listing| ==> Folders(listing)[i] == listing[i].name
    decreases |listing|
  {
    if listing != [] {
      FoldersAllDirectories(listing[1..]);
      assert Folders(listing) == [listing[0].name] + Folders(listing[1..]);
    }
  }

  // ----- the argument dispatch -----

  /** The password after the first `-p` of the command line: `null` when
      there is none, `undefined` when `-p` is last. */
  function CliPassword(args: seq<string>): (pw: Option<string>)
    ensures pw.None? <==> "-p" !in args || IndexOf(args, "-p") == |args| - 1
    ensures pw.Some? ==> pw.value == args[IndexOf(args, "-p") + 1]
    ensures pw.Some? ==> exists i :: 0 <= i < |args| - 1 && args[i] == "-p" && "-p" !in args[..i]
                                      && pw.value == args[i + 1]
  {
    if "-p" in args then At(args, IndexOf(args, "-p") + 1) else None
  }

  /** The `-c` mode: read the file named `configFile`, parse it and
      launch what it lists; an unreadable or rejected file is reported. */
  function ConfigRun(configFile: Option<string>, env: Env): (r: seq<Action>)
    requires IsAbsolute(env.cwd)
    ensures r != []
    ensures ReadFile(env, configFile).None? ==> r == [Complain(ConfigUnreadable)]
    ensures ReadFile(env, configFile).Some? && ParseConfig(ReadFile(env, configFile).value, env.cwd).Err? ==>
      r == [Complain(ConfigRejected(ParseConfig(ReadFile(env, configFile).value, env.cwd).error))]
  {
    match ReadFile(env, configFile)
    case None => [Complain(ConfigUnreadable)]
    case Some(content) =>
      match ParseConfig(content, env.cwd)
      case Err(e) => [Complain(ConfigRejected(e))]
      case Ok(ds) => LaunchPlan(ds, env)
  }

  /** What one run of `lollipop` with arguments `args` does. */
  function Dispatch(args: seq<string>, env: Env): (r: seq<Action>)
    requires IsAbsolute(env.cwd)
    ensures args != [] ==> r != []
    ensures args != [] && args[0] != "-c" ==> |r| == 1
  {
    if args == [] then ServeAllPlan(env.cwd, Folders(env.listing))
    else if args[0] == "-h" then [Help]
    else if args[0] == "sucker" then
      if !Truthy(At(args, 1)) || !Truthy(At(args, 2)) then [Complain(Usage(UsageSucker))]
      else [Archive(At(args, 1), At(args, 2))]
    else if args[0] == "execute" || args[0] == "js" then
      if !Truthy(At(args, 1)) then [Complain(Usage(UsageScript))]
      else [RunScript(args[1])]
    else if args[0] == "monitor" then
      var port := ParseInt(At(args, 1));
      if port.None? || port == Some(0) || !Truthy(At(args, 2)) then [Complain(Usage(UsageMonitor))]
      else if !Listenable(port) then [Complain(PortRejected(port))]
      else [StartMonitor(port, At(args, 2))]
    else if args[0] == "-c" then ConfigRun(At(args, 1), env)
    else
      var password := CliPassword(args);
      var root := Resolve(env.cwd, [args[0]]);
      var port := ParseInt(At(args, 1));
      if !Listenable(port) then [Complain(PortRejected(port))]
      else if Truthy(password) then [StartSecured(root, port, password.value)]
      else [StartServer(root, port)]
  }

  /** The whole script as written, the loops run by their methods. */
  method Run(args: seq<string>, env: Env) returns (actions: seq<Action>)
    requires IsAbsolute(env.cwd)
    ensures actions == Dispatch(args, env)
  {
    if |args| == 0 {
      actions := ServeAll(env.cwd, Folders(env.listing));
      return;
    }
    if args[0] == "-h" {
      return [Help];
    }
    if args[0] == "sucker" {
      if !Truthy(At(args, 1)) || !Truthy(At(args, 2)) {
        return [Complain(Usage(UsageSucker))];
      }
      return [Archive(At(args, 1), At(args, 2))];
    }
    if args[0] == "execute" || args[0] == "js" {
      if !Truthy(At(args, 1)) {
        return [Complain(Usage(UsageScript))];
      }
      return [RunScript(args[1])];
    }
    if args[0] == "monitor" {
      var port := ParseInt(At(args, 1));
      if port.None? || port == Some(0) || !Truthy(At(args, 2)) {
        return [Complain(Usage(UsageMonitor))];
      }
      if !Listenable(port) {
        return [Complain(PortRejected(port))];
      }
      return [StartMonitor(port, At(args, 2))];
    }
    if args[0] == "-c" {
      var content := ReadFile(env, At(args, 1));
      if content.None? {
        return [Complain(ConfigUnreadable)];
      }
      var parsed := ParseConfigFile(content.value, env.cwd);
      if parsed.Err? {
        return [Complain(ConfigRejected(parsed.error))];
      }
      actions := Launch(parsed.value, env);
    } else {
      var directoryPath := Resolve(env.cwd, [args[0]]);
      var port := ParseInt(At(args, 1));
      var password := CliPassword(args);
      if !Listenable(port) {
        return [Complain(PortRejected(port))];
      }
      if Truthy(password) {
        actions := [StartSecured(directoryPath, port, password.value)];
      } else {
        actions := [StartServer(directoryPath, port)];
      }
    }
  }

  // ----- properties -----

  /** The port an action listens on, if it starts a server or a monitor. */
  function PortOfAction(a: Action): seq<Option<int>>
  {
    if a.StartServer? || a.StartSecured? || a.StartMonitor? then [a.port] else []
  }

  /** The ports the run listens on, in order. */
  function ActionPorts(actions: seq<Action>): seq<Option<int>>
  {
    if actions == [] then [] else PortOfAction(actions[0]) + ActionPorts(actions[1..])
  }

  /** The launcher acts on the descriptors in order, one action each, and
      stops right after the first script it cannot read. */
  lemma {:induction false} LaunchInOrder(ds: seq<Descriptor>, env: Env)
    requires IsAbsolute(env.cwd)
    ensures var plan := LaunchPlan(ds, env);
      && |plan| <= |ds|
      && (forall k :: 0 <= k < |plan| ==> plan[k] == ActionFor(ds[k], env))
      && (forall k :: 0 <= k < |plan| - 1 ==> !plan[k].Complain?)
      && (|plan| < |ds| ==> plan != [] && plan[|plan| - 1].Complain?)
    decreases |ds|
  {
    if ds != [] {
      var a := ActionFor(ds[0], env);
      if !a.Complain? {
        LaunchInOrder(ds[1..], env);
        var rest := LaunchPlan(ds[1..], env);
        var plan := LaunchPlan(ds, env);
        assert plan == [a] + rest;
        forall k | 0 < k < |plan| ensures plan[k] == ActionFor(ds[k], env) {
          assert plan[k] == rest[k - 1] && ds[k] == ds[1..][k - 1];
        }
      }
    }
  }

  /** When every script can be read and every server and monitor port is
      one `listen` accepts, every descriptor gets its action. */
  lemma {:induction false} LaunchComplete(ds: seq<Descriptor>, env: Env)
    requires IsAbsolute(env.cwd)
    ensures (forall k :: 0 <= k < |ds| ==> !ActionFor(ds[k], env).Complain?) ==> |LaunchPlan(ds, env)| == |ds|
    decreases |ds|
  {
    if ds != [] {
      assert forall k :: 0 <= k < |ds[1..]| ==> ds[1..][k] == ds[k + 1];
      LaunchComplete(ds[1..], env);
    }
  }

  /** The ports the launcher listens on are those of the descriptors it
      reached, in order. */
  lemma {:induction false} LaunchPortsPrefix(ds: seq<Descriptor>, env: Env)
    requires IsAbsolute(env.cwd)
    ensures ActionPorts(LaunchPlan(ds, env)) <= DescriptorPorts(ds)
    decreases |ds|
  {
    if ds != [] {
      var a := ActionFor(ds[0], env);
      var head := if ds[0].Monitor? || ds[0].Server? then [ds[0].port] else [];
      if a.Complain? {
        assert ActionPorts(LaunchPlan(ds, env)) == [] + ActionPorts([]);
      } else {
        assert PortOfAction(a) == head;
        LaunchPortsPrefix(ds[1..], env);
        assert LaunchPlan(ds, env)[1..] == LaunchPlan(ds[1..], env);
      }
    }
  }

  /** Launching descriptors whose ports are distinct starts nothing twice
      on one port. */
  lemma LaunchPortsDistinct(ds: seq<Descriptor>, env: Env)
    requires IsAbsolute(env.cwd)
    requires Distinct(DescriptorPorts(ds))
    ensures Distinct(ActionPorts(LaunchPlan(ds, env)))
  {
    var started := ActionPorts(LaunchPlan(ds, env));
    var listed := DescriptorPorts(ds);
    assert listed == started + listed[|started|..] by { LaunchPortsPrefix(ds, env); }
    DistinctPrefix(started, listed[|started|..]);
  }

  /** In `-c` mode no two servers or monitors are started on the same
      port. */
  lemma ConfigPortsDistinct(args: seq<string>, env: Env)
    requires IsAbsolute(env.cwd)
    requires args != [] && args[0] == "-c"
    ensures Distinct(ActionPorts(Dispatch(args, env)))
  {
    assert Dispatch(args, env) == ConfigRun(At(args, 1), env);
    match ReadFile(env, At(args, 1)) {
      case None =>
        assert ActionPorts([Complain(ConfigUnreadable)]) == [];
      case Some(content) =>
        match ParseConfig(content, env.cwd) {
          case Err(e) =>
            assert ActionPorts([Complain(ConfigRejected(e))]) == [];
          case Ok(ds) =>
            ParseConfigSpec(content, env.cwd);
            LaunchPortsDistinct(ds, env);
        }
    }
  }

  /** With no arguments the i-th directory of the listing is served from
      `join(cwd, name)` on port 9000 + i, and nothing else is started. */
  lemma NoArgumentsServeFolders(env: Env)
    requires IsAbsolute(env.cwd)
    ensures var folders := Folders(env.listing);
      && |Dispatch([], env)| == |folders|
      && forall i :: 0 <= i < |folders| ==>
           Dispatch([], env)[i] == StartServer(Join([env.cwd, folders[i]]), Some(9000 + i))
  {
  }

  /** A run that only starts servers listens on one port per action. */
  lemma {:induction false} StartPorts(xs: seq<Action>)
    requires forall i :: 0 <= i < |xs| ==> xs[i].StartServer?
    ensures |ActionPorts(xs)| == |xs|
    ensures forall i :: 0 <= i < |xs| ==> ActionPorts(xs)[i] == xs[i].port
    decreases |xs|
  {
    if xs != [] {
      StartPorts(xs[1..]);
      assert ActionPorts(xs) == [xs[0].port] + ActionPorts(xs[1..]);
    }
  }

  /** The ports of the no-argument mode are consecutive from 9000, hence
      pairwise distinct. */
  lemma ServeAllPorts(cwd: string, folders: seq<string>)
    ensures |ActionPorts(ServeAllPlan(cwd, folders))| == |folders|
    ensures forall i :: 0 <= i < |folders| ==> ActionPorts(ServeAllPlan(cwd, folders))[i] == Some(9000 + i)
    ensures Distinct(ActionPorts(ServeAllPlan(cwd, folders)))
  {
    StartPorts(ServeAllPlan(cwd, folders));
  }

  /** `-h` prints the help; `sucker` archives a site only when both the
      address and the folder are given and non-empty; `execute` and `js`
      run a script only when a non-empty path is given; each otherwise
      prints its usage line and starts nothing. */
  lemma ToolCommands(args: seq<string>, env: Env)
    requires IsAbsolute(env.cwd)
    requires args != []
    ensures args[0] == "-h" ==> Dispatch(args, env) == [Help]
    ensures args[0] == "sucker" ==>
      Dispatch(args, env) == (if |args| > 2 && args[1] != "" && args[2] != ""
                              then [Archive(Some(args[1]), Some(args[2]))]
                              else [Complain(Usage(UsageSucker))])
    ensures args[0] == "execute" || args[0] == "js" ==>
      Dispatch(args, env) == (if |args| > 1 && args[1] != "" then [RunScript(args[1])]
                              else [Complain(Usage(UsageScript))])
  {
  }

  /** The `monitor` command prints its usage line unless its port parses
      to a number other than 0 and a non-empty password follows; it then
      starts a monitor when the port is at most 65535 and positive, and
      otherwise `listen` throws. */
  lemma MonitorCommand(args: seq<string>, env: Env)
    requires IsAbsolute(env.cwd)
    requires args != [] && args[0] == "monitor"
    ensures var port := ParseInt(At(args, 1));
      Dispatch(args, env) == (if port.Some? && port.value != 0 && |args| > 2 && args[2] != ""
                              then (if 0 < port.value <= 65535 then [StartMonitor(port, Some(args[2]))]
                                    else [Complain(PortRejected(port))])
                              else [Complain(Usage(UsageMonitor))])
  {
  }

  /** A file server given on the command line, on a port `listen`
      accepts, is secured exactly when a non-empty word follows the first
      `-p`, and that word is its password; its root is the first argument
      resolved against the working directory and its port the second
      argument. Any other port makes `listen` throw. */
  lemma CommandLineServer(args: seq<string>, env: Env)
    requires IsAbsolute(env.cwd)
    requires args != [] && args[0] !in {"-h", "sucker", "execute", "js", "monitor", "-c"}
    ensures |Dispatch(args, env)| == 1
    ensures !Listenable(ParseInt(At(args, 1))) ==> Dispatch(args, env)[0] == Complain(PortRejected(ParseInt(At(args, 1))))
    ensures var a := Dispatch(args, env)[0];
      Listenable(ParseInt(At(args, 1))) ==>
      && (a.StartServer? || a.StartSecured?)
      && a.root == Resolve(env.cwd, [args[0]])
      && a.port == ParseInt(At(args, 1))
      && (a.StartSecured? <==> exists i :: 0 <= i < |args| - 1 && args[i] == "-p" && "-p" !in args[..i] && args[i + 1] != "")
      && (a.StartSecured? ==> a.password == args[IndexOf(args, "-p") + 1])
  {
    var port := ParseInt(At(args, 1));
    var password := CliPassword(args);
    assert Dispatch(args, env) == (if !Listenable(port) then [Complain(PortRejected(port))]
                                   else if Truthy(password) then [StartSecured(Resolve(env.cwd, [args[0]]), port, password.value)]
                                   else [StartServer(Resolve(env.cwd, [args[0]]), port)]);
    CliPasswordGiven(args);
  }

  /** The command line carries a password exactly when a non-empty word
      follows the first `-p`. */
  lemma CliPasswordGiven(args: seq<string>)
    ensures Truthy(CliPassword(args)) <==>
      exists i :: 0 <= i < |args| - 1 && args[i] == "-p" && "-p" !in args[..i] && args[i + 1] != ""
  {
    if "-p" in args {
      var i := IndexOf(args, "-p");
      forall j | 0 <= j < |args| - 1 && args[j] == "-p" && "-p" !in args[..j] ensures j == i {
        FirstIndex(args, "-p", j);
      }
    }
  }

  /** A position holding `x` with no `x` before it is where `indexOf`
      finds `x`. */
  lemma FirstIndex<T>(xs: seq<T>, x: T, j: nat)
    requires j < |xs| && xs[j] == x && x !in xs[..j]
    ensures IndexOf(xs, x) == j
  {
  }
}
