/** The process list of the system monitor (mechs/sysmon/sysmon.js,
    `getAllProcesses`): a command chosen by operating system, run by the
    shell, and its text output cut into one record per line. The monitor's
    password gate is `BasicAuth.MonitorGate`. */
module Sysmon {
  import opened Wrappers
  import opened Text

  /** The shell command that lists processes, by `os.type()`. */
  function Command(osType: string): (command: string)
    ensures osType == "Darwin" ==> command == "ps aux"
    ensures osType == "Windows_NT" ==> command == "tasklist"
    ensures osType != "Darwin" && osType != "Windows_NT" ==> command == "ps aux --no-headers"
  {
    match osType
    case "Darwin" => "ps aux"
    case "Windows_NT" => "tasklist"
    case _ => "ps aux --no-headers"
  }

  /** One process record; a field is `None` when the line has too few
      fields for it, and `cpu` is `None` on Windows, whose records have no
      such field. */
  datatype Proc = Proc(user: Option<string>, pid: Option<string>, cpu: Option<string>,
                       mem: Option<string>, command: Option<string>)

  /** What `exec` reports: an error, or the text written to standard
      output. */
  datatype Exec = Failed | Output(stdout: string)

  /** The lines of the trimmed output. */
  function Lines(stdout: string): (lines: seq<string>)
    ensures |lines| >= 1
    ensures forall k :: 0 <= k < |lines| ==> '\n' !in lines[k]
  {
    SplitOn(Trim(stdout), '\n')
  }

  /** A `ps` line: the first four white-space-separated fields are user,
      pid, cpu and mem; the remaining fields joined by single spaces are
      the command. */
  function UnixRecord(line: string): (r: Proc)
    ensures r.user.Some? && r.command.Some?
    ensures r.pid.None? ==> r.cpu.None? && r.mem.None? && r.command == Some("")
    ensures forall f :: f in [r.user, r.pid, r.cpu, r.mem] && f.Some? ==> NoSpace(f.value)
  {
    var fields := SplitWs(line);
    Proc(At(fields, 0), At(fields, 1), At(fields, 2), At(fields, 3),
         Some(if |fields| > 4 then JoinWith(fields[4..], " ") else ""))
  }

  /** A `tasklist` line: image name, pid, session name, session number and
      memory, empty fields dropped. */
  function WindowsRecord(line: string): (r: Proc)
    ensures r.cpu.None?
    ensures r.pid.Some? ==> r.command.Some?
    ensures r.user.Some? ==> r.pid.Some?
    ensures forall f :: f in [r.user, r.pid, r.mem, r.command] && f.Some? ==> f.value != "" && NoSpace(f.value)
  {
    var fields := Tokens(line);
    Proc(At(fields, 2), At(fields, 1), None, At(fields, 4), At(fields, 0))
  }

  /** The `ps` output parser: one record per line. */
  function ParseUnix(stdout: string): (procs: seq<Proc>)
    ensures |procs| == |Lines(stdout)|
    ensures forall k :: 0 <= k < |procs| ==> procs[k] == UnixRecord(Lines(stdout)[k])
  {
    var lines := Lines(stdout);
    seq(|lines|, k requires 0 <= k < |lines| => UnixRecord(lines[k]))
  }

  /** The `tasklist` output parser: the first three lines of the trimmed
      output are dropped and every other line is one record. `tasklist`
      starts with a blank line, the column titles and a rule; the blank
      line is gone after trimming, so the third line dropped is the first
      process. */
  function ParseWindows(stdout: string): (procs: seq<Proc>)
    ensures |procs| == if |Lines(stdout)| <= 3 then 0 else |Lines(stdout)| - 3
    ensures forall k :: 0 <= k < |procs| ==> procs[k] == WindowsRecord(Lines(stdout)[k + 3])
  {
    var lines := Lines(stdout);
    var kept := if |lines| <= 3 then [] else lines[3..];
    seq(|kept|, k requires 0 <= k < |kept| => WindowsRecord(kept[k]))
  }

  /** `getAllProcesses()` on the operating system `osType`, given what
      running `Command(osType)` produced. */
  function GetAllProcesses(osType: string, run: Exec): (procs: seq<Proc>)
    ensures run.Failed? ==> procs == []
    ensures run.Output? && osType == "Windows_NT" ==> procs == ParseWindows(run.stdout)
    ensures run.Output? && osType != "Windows_NT" ==> procs == ParseUnix(run.stdout)
  {
    match run
    case Failed => []
    case Output(stdout) =>
      if osType == "Windows_NT" then ParseWindows(stdout) else ParseUnix(stdout)
  }

  // ----- properties -----

  /** Words that can stand as fields: non-empty, with no white space. */
  predicate AreWords(words: seq<string>) {
    forall i :: 0 <= i < |words| ==> words[i] != "" && NoSpace(words[i])
  }

  /** A `ps` line written as user, pid, cpu, mem and the command's words,
      separated by any runs of white space, reads back as exactly those
      fields, the command's words joined by single spaces. */
  lemma UnixLineRoundTrip(user: string, pid: string, cpu: string, mem: string, command: seq<string>,
                          seps: seq<string>)
    requires AreWords([user, pid, cpu, mem] + command)
    requires |seps| == 3 + |command|
    requires forall i :: 0 <= i < |seps| ==> IsRun(seps[i])
    ensures UnixRecord(Interleave([user, pid, cpu, mem] + command, seps))
         == Proc(Some(user), Some(pid), Some(cpu), Some(mem), Some(JoinWith(command, " ")))
  {
    var words := [user, pid, cpu, mem] + command;
    SplitWsSeparated(words, seps);
    assert words[4..] == command;
  }

  /** A `tasklist` line whose fields (image name, pid, session name,
      session number, memory, then anything more) are separated by any
      runs of white space, with any white space (a carriage return, say)
      before and after, reads back with the session name as the user and
      the image name as the command; fields after the fifth are ignored. */
  lemma WindowsLineRoundTrip(fields: seq<string>, lead: string, seps: seq<string>, trail: string)
    requires |fields| >= 5 && AreWords(fields)
    requires |seps| == |fields| - 1
    requires forall i :: 0 <= i < |seps| ==> IsRun(seps[i])
    requires forall j :: 0 <= j < |lead| ==> IsSpace(lead[j])
    requires forall j :: 0 <= j < |trail| ==> IsSpace(trail[j])
    ensures WindowsRecord(lead + Interleave(fields, seps) + trail)
         == Proc(Some(fields[2]), Some(fields[1]), None, Some(fields[4]), Some(fields[0]))
  {
    TokensSeparated(lead, fields, seps, trail);
  }

  /** Output made of lines joined by newlines, whose first line starts
      and last line ends with something other than white space, splits
      back into those lines whatever white space surrounds it. */
  lemma LinesPadded(lead: string, lines: seq<string>, trail: string)
    requires lines != []
    requires forall k :: 0 <= k < |lines| ==> '\n' !in lines[k]
    requires lines[0] != "" && !IsSpace(lines[0][0])
    requires lines[|lines| - 1] != "" && !IsSpace(lines[|lines| - 1][|lines[|lines| - 1]| - 1])
    requires forall j :: 0 <= j < |lead| ==> IsSpace(lead[j])
    requires forall j :: 0 <= j < |trail| ==> IsSpace(trail[j])
    ensures Lines(lead + JoinWith(lines, "\n") + trail) == lines
  {
    var x := JoinWith(lines, "\n");
    assert x != [] && !IsSpace(x[0]) && !IsSpace(x[|x| - 1]) by {
      JoinWithEnds(lines, "\n");
      var first, last := lines[0], lines[|lines| - 1];
      assert x[0] == x[..|first|][0] == first[0];
      assert x[|x| - 1] == x[|x| - |last|..][|last| - 1] == last[|last| - 1];
    }
    assert Trim(lead + x + trail) == x by {
      TrimPadded(lead, x, trail);
    }
    JoinSplitOn(lines, '\n');
  }

  /** `ps` output gives one record per line, in order, whatever white
      space comes before and after it. */
  lemma UnixOutputRoundTrip(lead: string, lines: seq<string>, trail: string)
    requires lines != []
    requires forall k :: 0 <= k < |lines| ==> '\n' !in lines[k]
    requires lines[0] != "" && !IsSpace(lines[0][0])
    requires lines[|lines| - 1] != "" && !IsSpace(lines[|lines| - 1][|lines[|lines| - 1]| - 1])
    requires forall j :: 0 <= j < |lead| ==> IsSpace(lead[j])
    requires forall j :: 0 <= j < |trail| ==> IsSpace(trail[j])
    ensures |ParseUnix(lead + JoinWith(lines, "\n") + trail)| == |lines|
    ensures forall k :: 0 <= k < |lines| ==> ParseUnix(lead + JoinWith(lines, "\n") + trail)[k] == UnixRecord(lines[k])
  {
    LinesPadded(lead, lines, trail);
  }

  /** `tasklist` output gives one record per line after the first three,
      in order, whatever white space comes before and after it. */
  lemma WindowsOutputRoundTrip(lead: string, lines: seq<string>, trail: string)
    requires lines != []
    requires forall k :: 0 <= k < |lines| ==> '\n' !in lines[k]
    requires lines[0] != "" && !IsSpace(lines[0][0])
    requires lines[|lines| - 1] != "" && !IsSpace(lines[|lines| - 1][|lines[|lines| - 1]| - 1])
    requires forall j :: 0 <= j < |lead| ==> IsSpace(lead[j])
    requires forall j :: 0 <= j < |trail| ==> IsSpace(trail[j])
    ensures |ParseWindows(lead + JoinWith(lines, "\n") + trail)| == if |lines| <= 3 then 0 else |lines| - 3
    ensures forall k :: 0 <= k < |lines| - 3 ==>
      ParseWindows(lead + JoinWith(lines, "\n") + trail)[k] == WindowsRecord(lines[k + 3])
  {
    LinesPadded(lead, lines, trail);
  }
}
