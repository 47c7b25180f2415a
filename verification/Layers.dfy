/**
 Wrapping a command in execution layers (crates/command-executor/src/layered/layers.rs and executor.rs).

 A layer's environment is a hash map in the original; here it is the sequence of its entries in
 iteration order, so the theorems hold for every order.
 */
module Layers {
  import opened Common
  import opened Shell
  import opened Printing

  // ----- Layers -----

  datatype Layer =
    | Ssh(
        destination: string, port: Option<nat>, identityFile: Option<string>, options: seq<string>,
        env: seq<(string, string)>, workingDir: Option<string>,
        agentForwarding: bool, x11Forwarding: bool, allocateTty: bool)
    | Docker(
        container: string, interactive: bool, tty: bool, user: Option<string>, workdir: Option<string>,
        env: seq<(string, string)>)
    | Local(env: seq<(string, string)>, workingDir: Option<string>)

  function Flag(on: bool, flag: string): seq<string> {
    if on then [flag] else []
  }

  function Setting(flag: string, value: Option<string>): seq<string> {
    if value.Some? then [flag, value.value] else []
  }

  function DockerEnvArgs(env: seq<(string, string)>): seq<string> {
    if env == [] then [] else DockerEnvArgs(env[..|env| - 1]) + ["-e", env[|env| - 1].0 + "=" + env[|env| - 1].1]
  }

  function SshSettings(agent: bool, x11: bool, tty: bool, port: Option<nat>,
                       identityFile: Option<string>): seq<string>
  {
    Flag(agent, "-A") + Flag(x11, "-X") + Flag(tty, "-t")
    + Setting("-p", if port.Some? then Some(Decimal(port.value)) else None) + Setting("-i", identityFile)
  }

  /** The arguments a remote layer puts before the shell string. */
  function LayerArgs(l: Layer): seq<string>
    requires !l.Local?
  {
    match l
    case Ssh(destination, port, identityFile, options, _, _, agent, x11, tty) =>
      SshSettings(agent, x11, tty, port, identityFile) + options + [destination]
    case Docker(container, interactive, tty, user, workdir, env) =>
      ["exec"] + Flag(interactive, "-i") + Flag(tty, "-t") + Setting("-u", user) + Setting("-w", workdir)
      + DockerEnvArgs(env) + [container, "sh", "-c"]
  }

  function AssignmentTexts(env: seq<(string, string)>): (r: seq<string>)
    ensures |r| == |env|
  {
    seq(|env|, i requires 0 <= i < |env| => ShellEscape(env[i].0) + "=" + ShellEscape(env[i].1))
  }

  /** The shell string a remote layer makes of a command. */
  function ShellText(l: Layer, c: Command): string
    requires !l.Local?
  {
    match l
    case Ssh(_, _, _, _, env, workingDir, _, _, _) =>
      (if env == [] then "" else Join(AssignmentTexts(env), " ") + " ")
      + (if workingDir.Some? then "cd " + ShellEscape(workingDir.value) + " && " else "")
      + CommandToShellString(c)
    case Docker(_, _, _, _, _, _) => CommandToShellString(c)
  }

  function InsertAll(m: map<string, string>, env: seq<(string, string)>): map<string, string> {
    if env == [] then m else InsertAll(m, env[..|env| - 1])[env[|env| - 1].0 := env[|env| - 1].1]
  }

  function Wrap(l: Layer, c: Command): Command {
    match l
    case Local(env, workingDir) =>
      Command(c.program, c.args, InsertAll(c.env, env), if workingDir.Some? then workingDir else c.currentDir)
    case Ssh(_, _, _, _, _, _, _, _, _) => Command("ssh", LayerArgs(l) + [ShellText(l, c)], map[], None)
    case Docker(_, _, _, _, _, _) => Command("docker", LayerArgs(l) + [ShellText(l, c)], map[], None)
  }

  /** `wrap_command` of SshLayer. */
  method WrapSsh(l: Layer, inner: Command) returns (outer: Command)
    requires l.Ssh?
    ensures outer == Wrap(l, inner)
    ensures outer.program == "ssh" && outer.env == map[] && outer.currentDir == None
    ensures outer.args == LayerArgs(l) + [ShellText(l, inner)]
  {
    var command := SetEnv(inner, l.env);
    if l.workingDir.Some? {
      command := command.(currentDir := l.workingDir);
    }
    var sshArgs := SshArgs(l);
    var remoteCommand := "";
    if l.env != [] {
      remoteCommand := Join(AssignmentTexts(l.env), " ");
      remoteCommand := remoteCommand + " ";
    }
    var assignments := remoteCommand;
    if l.workingDir.Some? {
      remoteCommand := remoteCommand + ("cd " + ShellEscape(l.workingDir.value) + " && ");
    } else {
      assert assignments + "" == assignments;
    }
    assert CommandToShellString(command) == CommandToShellString(inner);
    remoteCommand := remoteCommand + CommandToShellString(command);
    sshArgs := sshArgs + [remoteCommand];
    return Command("ssh", sshArgs, map[], None);
  }

  /** The options and the destination that SshLayer pushes before the remote command. */
  method SshArgs(l: Layer) returns (sshArgs: seq<string>)
    requires l.Ssh?
    ensures sshArgs == LayerArgs(l)
  {
    hide Flag, Setting, Decimal;
    sshArgs := Flag(l.agentForwarding, "-A");
    sshArgs := sshArgs + Flag(l.x11Forwarding, "-X");
    sshArgs := sshArgs + Flag(l.allocateTty, "-t");
    sshArgs := sshArgs + Setting("-p", if l.port.Some? then Some(Decimal(l.port.value)) else None);
    sshArgs := sshArgs + Setting("-i", l.identityFile);
    ghost var settings := sshArgs;
    assert settings == SshSettings(l.agentForwarding, l.x11Forwarding, l.allocateTty, l.port, l.identityFile);
    hide SshSettings;
    for i := 0 to |l.options|
      invariant sshArgs == settings + l.options[..i]
    {
      sshArgs := sshArgs + [l.options[i]];
    }
    assert l.options[..|l.options|] == l.options;
    sshArgs := sshArgs + [l.destination];
  }

  function TakeFlag(args: seq<string>, flag: string): (bool, seq<string>) {
    if args != [] && args[0] == flag then (true, args[1..]) else (false, args)
  }

  function TakeSetting(args: seq<string>, flag: string): (Option<string>, seq<string>) {
    if |args| >= 2 && args[0] == flag then (Some(args[1]), args[2..]) else (None, args)
  }

  datatype Settings = Settings(agent: bool, x11: bool, tty: bool, port: Option<nat>, identityFile: Option<string>)

  /** The settings at the start of ssh's arguments, when there is nothing else. */
  function ReadSettings(args: seq<string>): Option<Settings> {
    var (agent, afterA) := TakeFlag(args, "-A");
    var (x11, afterX) := TakeFlag(afterA, "-X");
    var (tty, afterT) := TakeFlag(afterX, "-t");
    var (port, afterP) := TakeSetting(afterT, "-p");
    var (identityFile, rest) := TakeSetting(afterP, "-i");
    if rest != [] then None
    else Some(Settings(agent, x11, tty, if port.Some? then Some(ReadDecimal(port.value)) else None, identityFile))
  }

  lemma FlagIsTaken(on: bool, flag: string, rest: seq<string>)
    requires rest != [] ==> rest[0] != flag
    ensures TakeFlag(Flag(on, flag) + rest, flag) == (on, rest)
  {
    assert on ==> (Flag(on, flag) + rest)[1..] == rest;
    assert !on ==> Flag(on, flag) + rest == rest;
  }

  lemma SettingIsTaken(value: Option<string>, flag: string, rest: seq<string>)
    requires rest != [] ==> rest[0] != flag
    ensures TakeSetting(Setting(flag, value) + rest, flag) == (value, rest)
  {
    assert value.Some? ==> (Setting(flag, value) + rest)[2..] == rest;
    assert value.None? ==> Setting(flag, value) + rest == rest;
  }

  /** Arguments that start with one flag do not start with another. */
  lemma StartsOtherwise(args: seq<string>, flag: string, rest: seq<string>, other: string)
    requires args == [] || args[0] == flag
    requires flag != other && (rest != [] ==> rest[0] != other)
    ensures args + rest != [] ==> (args + rest)[0] != other
  {
  }

  lemma Nested(a: seq<string>, b: seq<string>, c: seq<string>, d: seq<string>, e: seq<string>)
    ensures a + b + c + d + e == a + (b + (c + (d + (e + []))))
  {
  }

  lemma SettingsReadBack(agent: bool, x11: bool, tty: bool, port: Option<nat>, identityFile: Option<string>)
    ensures ReadSettings(SshSettings(agent, x11, tty, port, identityFile)) ==
            Some(Settings(agent, x11, tty, port, identityFile))
  {
    hide Decimal, ReadDecimal, TakeFlag, TakeSetting;
    var digits := if port.Some? then Some(Decimal(port.value)) else None;
    if port.Some? {
      DecimalReadsBack(port.value);
    }
    var a, x, t, p, i :=
        Flag(agent, "-A"), Flag(x11, "-X"), Flag(tty, "-t"), Setting("-p", digits), Setting("-i", identityFile);
    Heads(a, x, t, p, i);
    hide Flag, Setting;
    Nested(a, x, t, p, i);
    FlagIsTaken(agent, "-A", x + (t + (p + (i + []))));
    FlagIsTaken(x11, "-X", t + (p + (i + [])));
    FlagIsTaken(tty, "-t", p + (i + []));
    SettingIsTaken(digits, "-p", i + []);
    SettingIsTaken(identityFile, "-i", []);
  }

  lemma Heads(a: seq<string>, x: seq<string>, t: seq<string>, p: seq<string>, i: seq<string>)
    requires (a == [] || a[0] == "-A") && (x == [] || x[0] == "-X") && (t == [] || t[0] == "-t")
    requires (p == [] || p[0] == "-p") && (i == [] || i[0] == "-i")
    ensures i + [] != [] ==> (i + [])[0] != "-p"
    ensures p + (i + []) != [] ==> (p + (i + []))[0] != "-t"
    ensures t + (p + (i + [])) != [] ==> (t + (p + (i + [])))[0] != "-X"
    ensures x + (t + (p + (i + []))) != [] ==> (x + (t + (p + (i + []))))[0] != "-A"
  {
    assert "-A"[1] == 'A' && "-X"[1] == 'X' && "-t"[1] == 't' && "-p"[1] == 'p' && "-i"[1] == 'i';
    var tail := i + [];
    StartsOtherwise(i, "-i", [], "-p");
    StartsOtherwise(i, "-i", [], "-t");
    StartsOtherwise(i, "-i", [], "-X");
    StartsOtherwise(i, "-i", [], "-A");
    StartsOtherwise(p, "-p", tail, "-t");
    StartsOtherwise(p, "-p", tail, "-X");
    StartsOtherwise(p, "-p", tail, "-A");
    StartsOtherwise(t, "-t", p + tail, "-X");
    StartsOtherwise(t, "-t", p + tail, "-A");
    StartsOtherwise(x, "-X", t + (p + tail), "-A");
  }

  /**
   From ssh's arguments every setting of the layer can be read back: settings, then options in order, then
   the destination.
   */
  lemma SshArgsReadBack(l: Layer)
    requires l.Ssh?
    ensures var args := LayerArgs(l);
      var n := |args| - 1 - |l.options|;
      && n >= 0 && args[|args| - 1] == l.destination && args[n..|args| - 1] == l.options
      && ReadSettings(args[..n]) ==
         Some(Settings(l.agentForwarding, l.x11Forwarding, l.allocateTty, l.port, l.identityFile))
  {
    hide ReadSettings, SshSettings;
    var settings, args :=
        SshSettings(l.agentForwarding, l.x11Forwarding, l.allocateTty, l.port, l.identityFile), LayerArgs(l);
    SettingsReadBack(l.agentForwarding, l.x11Forwarding, l.allocateTty, l.port, l.identityFile);
    assert args[..|settings|] == settings;
  }

  // ----- What docker's arguments mean -----

  datatype DockerSettings = DockerSettings(
    interactive: bool, tty: bool, user: Option<string>, workdir: Option<string>, entries: seq<string>,
        container: string)

  /** The entries of a list of `-e` options. */
  function TakeEntries(args: seq<string>): Option<seq<string>> {
    if args == [] then Some([])
    else if |args| < 2 || args[0] != "-e" then None
    else match TakeEntries(args[2..])
         case None => None
         case Some(rest) => Some([args[1]] + rest)
  }

  /** The settings of a `docker exec` that runs `sh -c`. */
  function ReadDockerSettings(args: seq<string>): Option<DockerSettings> {
    if |args| < 4 || args[0] != "exec" || args[|args| - 2] != "sh" || args[|args| - 1] != "-c" then None
    else
      var (interactive, afterI) := TakeFlag(args[1..|args| - 3], "-i");
      var (tty, afterT) := TakeFlag(afterI, "-t");
      var (user, afterU) := TakeSetting(afterT, "-u");
      var (workdir, afterW) := TakeSetting(afterU, "-w");
      match TakeEntries(afterW)
      case None => None
      case Some(entries) => Some(DockerSettings(interactive, tty, user, workdir, entries, args[|args| - 3]))
  }

  /** Each variable as `K=V`, in order. */
  function Entries(env: seq<(string, string)>): (r: seq<string>)
    ensures |r| == |env| && forall i :: 0 <= i < |env| ==> r[i] == env[i].0 + "=" + env[i].1
  {
    seq(|env|, i requires 0 <= i < |env| => env[i].0 + "=" + env[i].1)
  }

  lemma {:induction false} TakeEntriesAppend(args: seq<string>, entry: string)
    requires TakeEntries(args).Some?
    ensures TakeEntries(args + ["-e", entry]) == Some(TakeEntries(args).value + [entry])
    decreases |args|
  {
    var more := args + ["-e", entry];
    if args == [] {
      assert more[2..] == [] && [entry] + [] == [] + [entry];
    } else {
      assert more[0] == args[0] && more[1] == args[1] && more[2..] == args[2..] + ["-e", entry];
      TakeEntriesAppend(args[2..], entry);
      assert [args[1]] + (TakeEntries(args[2..]).value + [entry]) == [args[1]] + TakeEntries(args[2..]).value + [entry];
    }
  }

  lemma {:induction false} EntriesAreTaken(env: seq<(string, string)>)
    ensures TakeEntries(DockerEnvArgs(env)) == Some(Entries(env))
    ensures DockerEnvArgs(env) != [] ==> DockerEnvArgs(env)[0] == "-e"
    decreases |env|
  {
    if env == [] {
    } else {
      var init, last := env[..|env| - 1], env[|env| - 1];
      EntriesAreTaken(init);
      TakeEntriesAppend(DockerEnvArgs(init), last.0 + "=" + last.1);
      assert Entries(init) + [last.0 + "=" + last.1] == Entries(env);
    }
  }

  /** What comes before docker's environment entries, taken from the rest of its options. */
  lemma DockerOptionsAreTaken(interactive: bool, tty: bool, user: Option<string>, workdir: Option<string>,
                              e: seq<string>)
    requires e == [] || e[0] == "-e"
    ensures var body := Flag(interactive, "-i") + Flag(tty, "-t") + Setting("-u", user) + Setting("-w", workdir) + e;
      var (hasI, afterI) := TakeFlag(body, "-i");
      var (hasT, afterT) := TakeFlag(afterI, "-t");
      var (hasU, afterU) := TakeSetting(afterT, "-u");
      hasI == interactive && hasT == tty && hasU == user && TakeSetting(afterU, "-w") == (workdir, e)
  {
    hide TakeFlag, TakeSetting;
    var i, t, u, w := Flag(interactive, "-i"), Flag(tty, "-t"), Setting("-u", user), Setting("-w", workdir);
    DockerHeads(t, u, w, e);
    assert i == [] || i[0] == "-i";
    hide Flag, Setting;
    Nested(i, t, u, w, e);
    assert e + [] == e;
    FlagIsTaken(interactive, "-i", t + (u + (w + e)));
    FlagIsTaken(tty, "-t", u + (w + e));
    SettingIsTaken(user, "-u", w + e);
    SettingIsTaken(workdir, "-w", e);
  }

  lemma DockerHeads(t: seq<string>, u: seq<string>, w: seq<string>, e: seq<string>)
    requires (t == [] || t[0] == "-t") && (u == [] || u[0] == "-u") && (w == [] || w[0] == "-w")
             && (e == [] || e[0] == "-e")
    ensures e != [] ==> e[0] != "-w"
    ensures w + e != [] ==> (w + e)[0] != "-u"
    ensures u + (w + e) != [] ==> (u + (w + e))[0] != "-t"
    ensures t + (u + (w + e)) != [] ==> (t + (u + (w + e)))[0] != "-i"
  {
    assert "-i"[1] == 'i' && "-t"[1] == 't' && "-u"[1] == 'u' && "-w"[1] == 'w' && "-e"[1] == 'e';
    StartsOtherwise(w, "-w", e, "-u");
    StartsOtherwise(w, "-w", e, "-t");
    StartsOtherwise(w, "-w", e, "-i");
    StartsOtherwise(u, "-u", w + e, "-t");
    StartsOtherwise(u, "-u", w + e, "-i");
    StartsOtherwise(t, "-t", u + (w + e), "-i");
  }

  /**
   From docker's arguments every setting of the layer can be read back: user, directory, each entry in order,
   container.
   */
  lemma DockerArgsReadBack(l: Layer)
    requires l.Docker?
    ensures ReadDockerSettings(LayerArgs(l)) ==
            Some(DockerSettings(l.interactive, l.tty, l.user, l.workdir, Entries(l.env), l.container))
  {
    hide TakeFlag, TakeSetting, TakeEntries, Entries, DockerEnvArgs, Flag, Setting;
    var e := DockerEnvArgs(l.env);
    var body := Flag(l.interactive, "-i") + Flag(l.tty, "-t") + Setting("-u", l.user) + Setting("-w", l.workdir) + e;
    var args := LayerArgs(l);
    EntriesAreTaken(l.env);
    DockerOptionsAreTaken(l.interactive, l.tty, l.user, l.workdir, e);
    DockerShape(l, body);
  }

  lemma DockerShape(l: Layer, body: seq<string>)
    requires l.Docker?
    requires body == Flag(l.interactive, "-i") + Flag(l.tty, "-t") + Setting("-u", l.user) + Setting("-w", l.workdir)
                     + DockerEnvArgs(l.env)
    ensures var args := LayerArgs(l);
      |args| >= 4 && args[0] == "exec" && args[1..|args| - 3] == body
      && args[|args| - 3] == l.container && args[|args| - 2] == "sh" && args[|args| - 1] == "-c"
  {
    hide DockerEnvArgs, Flag, Setting;
    var e := DockerEnvArgs(l.env);
    Nested(Flag(l.interactive, "-i"), Flag(l.tty, "-t"), Setting("-u", l.user), Setting("-w", l.workdir), e);
    FirstAndFive(Flag(l.interactive, "-i"), Flag(l.tty, "-t"), Setting("-u", l.user), Setting("-w", l.workdir), e);
    assert LayerArgs(l) == ["exec"] + body + [l.container, "sh", "-c"];
  }

  lemma FirstAndFive(a: seq<string>, b: seq<string>, c: seq<string>, d: seq<string>, e: seq<string>)
    ensures ["exec"] + a + b + c + d + e == ["exec"] + (a + b + c + d + e)
  {
  }

  /** `wrap_command` of DockerLayer. */
  method WrapDocker(l: Layer, inner: Command) returns (outer: Command)
    requires l.Docker?
    ensures outer == Wrap(l, inner)
    ensures outer.program == "docker" && outer.env == map[] && outer.currentDir == None
    ensures outer.args == LayerArgs(l) + [CommandToShellString(inner)]
  {
    var dockerArgs := ["exec"];
    dockerArgs := dockerArgs + Flag(l.interactive, "-i");
    dockerArgs := dockerArgs + Flag(l.tty, "-t");
    dockerArgs := dockerArgs + Setting("-u", l.user);
    dockerArgs := dockerArgs + Setting("-w", l.workdir);
    ghost var flags := dockerArgs;
    for i := 0 to |l.env|
      invariant dockerArgs == flags + DockerEnvArgs(l.env[..i])
    {
      assert l.env[..i + 1][..i] == l.env[..i];
      dockerArgs := dockerArgs + ["-e", l.env[i].0 + "=" + l.env[i].1];
    }
    assert l.env[..|l.env|] == l.env;
    dockerArgs := dockerArgs + [l.container, "sh", "-c"];
    var commandString := CommandToShellString(inner);
    dockerArgs := dockerArgs + [commandString];
    return Command("docker", dockerArgs, map[], None);
  }

  /** `wrap_command` of LocalLayer. */
  method WrapLocal(l: Layer, inner: Command) returns (outer: Command)
    requires l.Local?
    ensures outer == Wrap(l, inner)
    ensures outer.program == inner.program && outer.args == inner.args
    ensures LaterWins(inner.env, l.env, outer.env)
    ensures outer.currentDir == if l.workingDir.Some? then l.workingDir else inner.currentDir
  {
    outer := SetEnv(inner, l.env);
    if l.workingDir.Some? {
      outer := outer.(currentDir := l.workingDir);
    }
  }

  ghost predicate IsSet(env: seq<(string, string)>, k: string) {
    exists i :: 0 <= i < |env| && env[i].0 == k
  }

  ghost predicate IsLastEntry(env: seq<(string, string)>, i: nat)
    requires i < |env|
  {
    !IsSet(env[i + 1..], env[i].0)
  }

  /** Each variable has the value of its last entry, or else its former value; there are no others. */
  ghost predicate LaterWins(before: map<string, string>, env: seq<(string, string)>, after: map<string, string>) {
    && (forall k :: k in after <==> k in before || IsSet(env, k))
    && (forall i :: 0 <= i < |env| && IsLastEntry(env, i) ==> env[i].0 in after && after[env[i].0] == env[i].1)
    && (forall k :: k in before && !IsSet(env, k) ==> k in after && after[k] == before[k])
  }

  lemma IsSetAppend(init: seq<(string, string)>, last: (string, string), k: string)
    ensures IsSet(init + [last], k) <==> IsSet(init, k) || k == last.0
  {
    var env := init + [last];
    assert env[|init|] == last;
    if IsSet(init, k) {
      var i :| 0 <= i < |init| && init[i].0 == k;
      assert env[i].0 == k;
    }
  }

  lemma IsLastEntryAppend(init: seq<(string, string)>, last: (string, string), i: nat)
    requires i < |init|
    ensures IsLastEntry(init + [last], i) <==> IsLastEntry(init, i) && init[i].0 != last.0
  {
    assert (init + [last])[i + 1..] == init[i + 1..] + [last];
    IsSetAppend(init[i + 1..], last, init[i].0);
  }

  lemma {:induction false} InsertedLaterWins(m: map<string, string>, env: seq<(string, string)>)
    ensures LaterWins(m, env, InsertAll(m, env))
    decreases |env|
  {
    hide IsSet, IsLastEntry;
    if env == [] {
      NothingIsSet();
    } else {
      var init, last := env[..|env| - 1], env[|env| - 1];
      assert env == init + [last];
      InsertedLaterWins(m, init);
      forall k
        ensures IsSet(env, k) <==> IsSet(init, k) || k == last.0
      {
        IsSetAppend(init, last, k);
      }
      forall i | 0 <= i < |init|
        ensures IsLastEntry(env, i) <==> IsLastEntry(init, i) && init[i].0 != last.0
      {
        IsLastEntryAppend(init, last, i);
      }
    }
  }

  lemma NothingIsSet()
    ensures forall k :: !IsSet([], k)
  {
  }

  method SetEnv(c: Command, env: seq<(string, string)>) returns (r: Command)
    ensures r == c.(env := InsertAll(c.env, env)) && LaterWins(c.env, env, r.env)
  {
    InsertedLaterWins(c.env, env);
    r := c;
    for i := 0 to |env|
      invariant r == c.(env := InsertAll(c.env, env[..i]))
    {
      assert env[..i + 1][..i] == env[..i];
      r := r.(env := r.env[env[i].0 := env[i].1]);
    }
    assert env[..|env|] == env;
  }

  // ----- What a layer's shell receives -----

  /** Each assignment, escaped, before a space. */
  function PrintAssignments(env: seq<(string, string)>): string {
    if env == [] then "" else ShellEscape(env[0].0) + "=" + ShellEscape(env[0].1) + " " + PrintAssignments(env[1..])
  }

  lemma {:induction false} JoinIsPrintAssignments(env: seq<(string, string)>)
    requires env != []
    ensures Join(AssignmentTexts(env), " ") + " " == PrintAssignments(env)
  {
    var first := ShellEscape(env[0].0) + "=" + ShellEscape(env[0].1);
    if |env| == 1 {
      assert PrintAssignments(env[1..]) == "";
      assert first + " " + "" == first + " ";
    } else {
      JoinIsPrintAssignments(env[1..]);
      assert AssignmentTexts(env)[1..] == AssignmentTexts(env[1..]);
      assert first + " " + Join(AssignmentTexts(env[1..]), " ") + " " ==
             first + " " + (Join(AssignmentTexts(env[1..]), " ") + " ");
    }
  }

  lemma FeedAssignment(name: string, value: string)
    requires IsName(name)
    ensures Feed(Between, ShellEscape(name) + "=" + ShellEscape(value) + " ") ==
            Some((Between, [WordToken(AssignmentWord(name, value))]))
  {
    var n, v := ShellEscape(name), ShellEscape(value);
    var start, word, whole := Mark(name, false), Mark(name + "=", false), AssignmentWord(name, value);
    assert Feed(Between, n) == Some((InWord(start), [])) by {
      NamesAreUnquoted(name);
      FeedEscaped(Between, name);
      assert [] + start == start;
    }
    assert Feed(InWord(start), "=") == Some((InWord(word), [])) by {
      FeedOne(InWord(start), '=');
      assert start + [Quotable('=', false)] == word;
    }
    assert Feed(InWord(word), v) == Some((InWord(whole), [])) by {
      FeedEscaped(InWord(word), value);
    }
    assert Feed(InWord(whole), " ") == Some((Between, [WordToken(whole)])) by {
      FeedOne(InWord(whole), ' ');
    }
    FeedThen(Between, n, InWord(start), [], "=", InWord(word), []);
    FeedThen(Between, n + "=", InWord(word), [] + [], v, InWord(whole), []);
    FeedThen(Between, n + "=" + v, InWord(whole), [] + [] + [], " ", Between, [WordToken(whole)]);
    assert [] + [] + [] + [WordToken(whole)] == [WordToken(whole)];
  }

  lemma AssignmentTokensFirst(env: seq<(string, string)>)
    requires env != []
    ensures WordTokens(AssignmentWords(env)) ==
            [WordToken(AssignmentWord(env[0].0, env[0].1))] + WordTokens(AssignmentWords(env[1..]))
  {
  }

  lemma {:induction false} FeedAssignments(env: seq<(string, string)>)
    requires ValidNames(env)
    ensures Feed(Between, PrintAssignments(env)) == Some((Between, WordTokens(AssignmentWords(env))))
    decreases |env|
  {
    if env == [] {
    } else {
      var (name, value) := env[0];
      AssignmentsTail(env, []);
      FeedAssignments(env[1..]);
      FeedAssignment(name, value);
      FeedThen(Between, ShellEscape(name) + "=" + ShellEscape(value) + " ", Between,
          [WordToken(AssignmentWord(name, value))],
               PrintAssignments(env[1..]), Between, WordTokens(AssignmentWords(env[1..])));
      AssignmentTokensFirst(env);
    }
  }

  lemma FeedWordCd()
    ensures Feed(Between, "cd ") == Some((Between, [WordToken(Mark("cd", false))]))
  {
    var c, cd := Mark("c", false), Mark("cd", false);
    assert [] + [Quotable('c', false)] == c && c + [Quotable('d', false)] == cd;
    FeedOne(InWord(cd), ' ');
    FeedFirst(InWord(c), 'd', InWord(cd), [], " ", Between, [WordToken(cd)]);
    FeedFirst(Between, 'c', InWord(c), [], ['d'] + " ", Between, [] + [WordToken(cd)]);
    assert ['c'] + (['d'] + " ") == "cd ";
    assert [] + ([] + [WordToken(cd)]) == [WordToken(cd)];
  }

  /** A space, `&&` and a space. */
  lemma FeedAnd(m: Mode)
    requires m.Between? || m.InWord?
    ensures Feed(m, " && ") == Some((Between, Finish(m).value + [Operator("&&")]))
  {
    assert "&" + ['&'] == "&&" && [Operator("&&")] + [] == [Operator("&&")];
    FeedOne(InOperator("&&"), ' ');
    FeedFirst(InOperator("&"), '&', InOperator("&&"), [], " ", Between, [Operator("&&")]);
    FeedFirst(Between, '&', InOperator("&"), [], ['&'] + " ", Between, [] + [Operator("&&")]);
    FeedFirst(m, ' ', Between, Finish(m).value, ['&'] + (['&'] + " "), Between, [] + ([] + [Operator("&&")]));
    assert [' '] + (['&'] + (['&'] + " ")) == " && ";
    assert [] + ([] + [Operator("&&")]) == [Operator("&&")];
  }

  /** The directory change that SshLayer prints, read: `cd`, the directory, `&&`. */
  lemma FeedChangeDir(dir: string)
    requires IsOneWord(dir)
    ensures Feed(Between, "cd " + ShellEscape(dir) + " && ") ==
            Some((Between, WordTokens([Mark("cd", false), EscapedWord(dir)]) + [Operator("&&")]))
  {
    hide Feed, ShellEscape;
    var d, cd, w := ShellEscape(dir), [WordToken(Mark("cd", false))], EscapedWord(dir);
    FeedWordCd();
    assert Feed(Between, d) == Some((InWord(w), [])) by {
      FeedEscaped(Between, dir);
      assert [] + w == w;
    }
    FeedAnd(InWord(w));
    FeedThen(Between, "cd ", Between, cd, d, InWord(w), []);
    FeedThen(Between, "cd " + d, InWord(w), cd + [], " && ", Between, [WordToken(w)] + [Operator("&&")]);
    assert cd + [] + ([WordToken(w)] + [Operator("&&")]) == WordTokens([Mark("cd", false), w]) + [Operator("&&")];
  }

  /** Without a directory name, `cd` stands alone. */
  lemma FeedChangeDirEmpty()
    ensures Feed(Between, "cd " + ShellEscape("") + " && ") ==
            Some((Between, [WordToken(Mark("cd", false))] + [Operator("&&")]))
  {
    FeedWordCd();
    FeedAnd(Between);
    FeedThen(Between, "cd ", Between, [WordToken(Mark("cd", false))], " && ", Between, [] + [Operator("&&")]);
    assert "cd " + ShellEscape("") + " && " == "cd " + " && ";
    assert [WordToken(Mark("cd", false))] + ([] + [Operator("&&")]) ==
           [WordToken(Mark("cd", false))] + [Operator("&&")];
  }

  /** A directory name that starts a comment hides the rest. */
  lemma RunChangeDirCommented(dir: string, s: string)
    requires !IsOneWord(dir) && dir != ""
    ensures LosesWords(Run(Between, "cd " + ShellEscape(dir) + " && " + s), 2)
  {
    var cd := [WordToken(Mark("cd", false))];
    FeedWordCd();
    RunCommented(dir, " && " + s);
    assert "cd " + dir + " && " + s == "cd " + (dir + (" && " + s));
    RunAppend(Between, "cd ", dir + (" && " + s), Between, cd);
    WordsBeforeLosses(cd, Run(Between, dir + (" && " + s)), 1);
  }

  // ----- Every hop -----

  predicate NamedEnv(l: Layer) {
    l.Ssh? ==> ValidNames(l.env)
  }

  /** The values and the directory that an SSH layer prints itself are safe. */
  predicate HopSafe(l: Layer) {
    l.Ssh? ==> SafeValues(l.env) && (l.workingDir.Some? ==> SafeArg(l.workingDir.value))
  }

  /** What the shell of a remote layer should run for c. */
  function HopCommands(l: Layer, c: Command): seq<SimpleCommand>
    requires !l.Local?
  {
    if l.Docker? then [SimpleCommand([], Argv(c))]
    else if l.workingDir.Some? then [SimpleCommand(l.env, ["cd", l.workingDir.value]), SimpleCommand([], Argv(c))]
    else [SimpleCommand(l.env, Argv(c))]
  }

  /** Tokens after the assignments are parsed as the rest of the command the assignments start. */
  lemma InterpretAssigned(env: seq<(string, string)>, rest: string)
    requires ValidNames(env)
    ensures Interpret(PrintAssignments(env) + rest) == ParseTokens(Run(Between, rest), AssignmentWords(env))
  {
    var ws := AssignmentWords(env);
    FeedAssignments(env);
    RunAppend(Between, PrintAssignments(env), rest, Between, WordTokens(ws));
    if Run(Between, rest).Some? {
      ParseListWords(ws, Run(Between, rest).value, []);
      assert [] + ws == ws;
    }
  }

  /** Words, `&&`, and another command. */
  lemma ParseAndThen(ws: seq<Word>, r: Option<seq<Token>>, vs: seq<Word>)
    ensures ParseTokens(Prepend(WordTokens(ws) + [Operator("&&")], r), vs) ==
            if ParseSimple(vs + ws).None? || ParseTokens(r, []).None? then None
            else Some([ParseSimple(vs + ws).value] + ParseTokens(r, []).value)
  {
    if r.Some? {
      var ts := [Operator("&&")] + r.value;
      assert WordTokens(ws) + [Operator("&&")] + r.value == WordTokens(ws) + ts;
      ParseListWords(ws, ts, vs);
      assert ts[1..] == r.value;
    }
  }

  /** `cd` and a directory name, after assignments. */
  lemma ParseChangeDir(env: seq<(string, string)>, dir: string)
    requires ValidNames(env) && IsOneWord(dir)
    ensures ParseSimple(AssignmentWords(env) + [Mark("cd", false), EscapedWord(dir)]) ==
            if SafeValues(env) && SafeArg(dir) then Some(SimpleCommand(env, ["cd", dir])) else None
  {
    var change := Command("cd", [dir], map[], None);
    NamesArePlain("cd");
    ParseCommandWords(change, env);
    assert EachSafe([dir]) <==> SafeArg(dir) by {
      assert [dir][0] == dir;
    }
    assert [Mark("cd", false)] + EscapedWords([dir]) == [Mark("cd", false), EscapedWord(dir)];
    assert Argv(change) == ["cd", dir];
  }

  /** What an SSH layer that changes directory prints after its assignments is read as two commands. */
  ghost predicate ChangesBack(env: seq<(string, string)>, dir: string, c: Command) {
    ParseTokens(Run(Between, "cd " + ShellEscape(dir) + " && " + CommandToShellString(c)), AssignmentWords(env))
    == Some([SimpleCommand(env, ["cd", dir]), SimpleCommand([], Argv(c))])
  }

  lemma ChangeDirReadsBackWord(env: seq<(string, string)>, dir: string, c: Command)
    requires ValidNames(env) && IsOneWord(dir)
    ensures ChangesBack(env, dir, c) <==> SafeValues(env) && SafeArg(dir) && ReadsBack(c, [])
  {
    var text, ws := CommandToShellString(c), [Mark("cd", false), EscapedWord(dir)];
    assert AssignmentWords([]) == [];
    FeedChangeDir(dir);
    RunAppend(Between, "cd " + ShellEscape(dir) + " && ", text, Between, WordTokens(ws) + [Operator("&&")]);
    ParseAndThen(ws, Run(Between, text), AssignmentWords(env));
    ParseChangeDir(env, dir);
    PairOfCommands(ParseSimple(AssignmentWords(env) + ws), ParseTokens(Run(Between, text), []),
                   SimpleCommand(env, ["cd", dir]), SimpleCommand([], Argv(c)));
  }

  lemma PairOfCommands(first: Option<SimpleCommand>, rest: Option<seq<SimpleCommand>>, a: SimpleCommand,
                       b: SimpleCommand)
    ensures (if first.None? || rest.None? then None else Some([first.value] + rest.value)) == Some([a, b])
            <==> first == Some(a) && rest == Some([b])
  {
    if first.Some? && rest.Some? {
      var both := [first.value] + rest.value;
      assert both[0] == first.value && both[1..] == rest.value;
      assert [a, b][1..] == [b];
      assert rest.value == [b] ==> both == [first.value, b];
    }
  }

  /** The commands of an SSH layer that changes directory. */
  lemma ChangeDirReadsBack(env: seq<(string, string)>, dir: string, c: Command)
    requires ValidNames(env)
    ensures ChangesBack(env, dir, c) <==> SafeValues(env) && SafeArg(dir) && ReadsBack(c, [])
  {
    var text, vs, cd, tail :=
        CommandToShellString(c), AssignmentWords(env), Mark("cd", false), "cd " + ShellEscape(dir) + " && ";
    if IsOneWord(dir) {
      ChangeDirReadsBackWord(env, dir, c);
    } else if dir == "" {
      FeedChangeDirEmpty();
      assert [WordToken(cd)] == WordTokens([cd]);
      RunAppend(Between, tail, text, Between, WordTokens([cd]) + [Operator("&&")]);
      ParseAndThen([cd], Run(Between, text), vs);
      ParseSimpleCounts(vs + [cd]);
      PairOfCommands(ParseSimple(vs + [cd]), ParseTokens(Run(Between, text), []),
                     SimpleCommand(env, ["cd", dir]), SimpleCommand([], Argv(c)));
      assert ParseSimple(vs + [cd]) != Some(SimpleCommand(env, ["cd", dir]));
    } else {
      RunChangeDirCommented(dir, text);
      LosingIsRejected(Run(Between, tail + text), vs, 2);
    }
  }

  /** The layer's shell runs exactly the commands it should. */
  ghost predicate HopExact(l: Layer, c: Command)
    requires !l.Local?
  {
    Interpret(ShellText(l, c)) == Some(HopCommands(l, c))
  }

  /** Everything a remote layer prints for c is safe. */
  ghost predicate HopPrintSafe(l: Layer, c: Command)
    requires !l.Local?
  {
    && NamedEnv(l) && HopSafe(l) && EachSafe(c.args)
    && ProgramSafe(c.program, l.Ssh? && l.env != [] && l.workingDir.None?)
  }

  /**
   A remote layer's shell runs the wrapped command's exact argv, after exactly the layer's own
   assignments and directory change, if and only if everything printed is safe.
   */
  lemma HopReadsBack(l: Layer, c: Command)
    requires !l.Local?
    ensures HopPrintSafe(l, c) ==> HopExact(l, c)
    ensures SelfContained(c) ==> (HopExact(l, c) <==> HopPrintSafe(l, c))
  {
    hide PlainWord, LeavesQuoteOpen;
    assert AssignmentWords([]) == [];
    if l.Docker? {
      CommandReadsBack(c, []);
    } else if NamedEnv(l) {
      SshReadsBack(l, c);
      CommandReadsBack(c, if l.workingDir.Some? then [] else l.env);
    } else if HopExact(l, c) {
      assert HopCommands(l, c)[0].assignments == l.env;
      ListNamesAreValid(Run(Between, ShellText(l, c)).value, []);
    }
  }

  lemma SshReadsBack(l: Layer, c: Command)
    requires l.Ssh? && ValidNames(l.env)
    ensures HopExact(l, c) <==>
            if l.workingDir.Some? then
              SafeValues(l.env) && SafeArg(l.workingDir.value) && ReadsBack(c, [])
            else ReadsBack(c, l.env)
  {
    var text := CommandToShellString(c);
    var rest := if l.workingDir.Some? then "cd " + ShellEscape(l.workingDir.value) + " && " + text else text;
    if l.env != [] {
      JoinIsPrintAssignments(l.env);
    }
    assert ShellText(l, c) == PrintAssignments(l.env) + rest;
    InterpretAssigned(l.env, rest);
    if l.workingDir.Some? {
      ChangeDirReadsBack(l.env, l.workingDir.value, c);
    }
  }

  /**
   An SSH layer that prints a safe command, spelled out: the directory change carries the variables, else the
   program does.
   */
  lemma SshRunsExactly(l: Layer, c: Command)
    requires l.Ssh? && HopPrintSafe(l, c)
    ensures l.workingDir.None? ==> Interpret(ShellText(l, c)) == Some([SimpleCommand(l.env, [c.program] + c.args)])
    ensures l.workingDir.Some? ==>
              Interpret(ShellText(l, c)) ==
              Some([SimpleCommand(l.env, ["cd", l.workingDir.value]), SimpleCommand([], [c.program] + c.args)])
  {
    hide PlainWord, LeavesQuoteOpen;
    HopReadsBack(l, c);
  }

  /** A Docker layer that prints a safe command runs exactly its program and arguments. */
  lemma DockerRunsExactly(l: Layer, c: Command)
    requires l.Docker? && HopPrintSafe(l, c)
    ensures Interpret(ShellText(l, c)) == Some([SimpleCommand([], [c.program] + c.args)])
  {
    hide PlainWord, LeavesQuoteOpen;
    HopReadsBack(l, c);
  }

  // ----- Stacks of layers -----

  /** The fold of `execute`: the first layer wraps the command first, so the last layer is outermost. */
  function Apply(layers: seq<Layer>, c: Command): Command {
    if layers == [] then c else Wrap(layers[|layers| - 1], Apply(layers[..|layers| - 1], c))
  }

  /** Each remote layer's shell runs exactly what the layer was given. */
  ghost predicate EveryHopExact(layers: seq<Layer>, c: Command) {
    layers == [] ||
    var init, l := layers[..|layers| - 1], layers[|layers| - 1];
    && EveryHopExact(init, c)
    && (l.Local? || HopExact(l, Apply(init, c)))
  }

  predicate LayerArgsSafe(l: Layer) {
    !l.Local? ==> forall i :: 0 <= i < |LayerArgs(l)| ==> SafeArg(LayerArgs(l)[i])
  }

  /** The arguments of the command the layers produce are safe. */
  ghost predicate OuterArgsSafe(layers: seq<Layer>, c: Command) {
    if layers == [] then EachSafe(c.args)
    else if layers[|layers| - 1].Local? then OuterArgsSafe(layers[..|layers| - 1], c)
    else LayerArgsSafe(layers[|layers| - 1])
  }

  /** The program of the command the layers produce. */
  function OuterProgram(layers: seq<Layer>, c: Command): string {
    if layers == [] then c.program
    else match layers[|layers| - 1]
         case Ssh(_, _, _, _, _, _, _, _, _) => "ssh"
         case Docker(_, _, _, _, _, _) => "docker"
         case Local(_, _) => OuterProgram(layers[..|layers| - 1], c)
  }

  /** Every remote layer prints only safe names and values, and is given only a safe program and arguments. */
  ghost predicate StackSafe(layers: seq<Layer>, c: Command) {
    layers == [] ||
    var init, l := layers[..|layers| - 1], layers[|layers| - 1];
    && StackSafe(init, c)
    && (l.Local? ||
        (NamedEnv(l) && HopSafe(l) && OuterArgsSafe(init, c)
         && ProgramSafe(OuterProgram(init, c), l.Ssh? && l.env != [] && l.workingDir.None?)))
  }

  lemma ApplyOneMore(layers: seq<Layer>, l: Layer, c: Command)
    ensures Apply(layers + [l], c) == Wrap(l, Apply(layers, c))
  {
    assert (layers + [l])[..|layers|] == layers;
  }

  /** A remote layer runs its own tool, with nothing of the inner command but its shell text. */
  lemma RemoteLayerIsTool(layers: seq<Layer>, l: Layer, c: Command)
    requires !l.Local?
    ensures var outer := Apply(layers + [l], c);
      && outer.program == (if l.Ssh? then "ssh" else "docker") && outer.env == map[] && outer.currentDir == None
      && outer.args == LayerArgs(l) + [ShellText(l, Apply(layers, c))]
  {
    ApplyOneMore(layers, l, c);
  }

  predicate AllLocal(layers: seq<Layer>) {
    forall l :: l in layers ==> l.Local?
  }

  /** The variables of local layers, in the order of the layers. */
  function LocalEnv(locals: seq<Layer>): seq<(string, string)>
    requires AllLocal(locals)
  {
    if locals == [] then [] else LocalEnv(locals[..|locals| - 1]) + locals[|locals| - 1].env
  }

  lemma {:induction false} InsertAllAppend(m: map<string, string>, a: seq<(string, string)>, b: seq<(string, string)>)
    ensures InsertAll(m, a + b) == InsertAll(InsertAll(m, a), b)
    decreases |b|
  {
    if b == [] {
      assert a + b == a;
    } else {
      InsertAllAppend(m, a, b[..|b| - 1]);
      assert (a + b)[..|a + b| - 1] == a + b[..|b| - 1];
    }
  }

  lemma {:induction false} LocalsInsert(layers: seq<Layer>, locals: seq<Layer>, c: Command)
    requires AllLocal(locals)
    ensures var inner, outer := Apply(layers, c), Apply(layers + locals, c);
      && outer.program == inner.program && outer.args == inner.args
      && outer.env == InsertAll(inner.env, LocalEnv(locals))
      && ((forall l :: l in locals ==> l.workingDir.None?) ==> outer.currentDir == inner.currentDir)
      && (forall i :: 0 <= i < |locals| && locals[i].workingDir.Some?
                      && (forall j :: i < j < |locals| ==> locals[j].workingDir.None?) ==>
            outer.currentDir == locals[i].workingDir)
    decreases |locals|
  {
    if locals == [] {
      assert layers + locals == layers;
    } else {
      var init, l := locals[..|locals| - 1], locals[|locals| - 1];
      assert locals == init + [l] && layers + locals == layers + init + [l];
      LocalsInsert(layers, init, c);
      ApplyOneMore(layers + init, l, c);
      InsertAllAppend(Apply(layers, c).env, LocalEnv(init), l.env);
      assert l in locals;
    }
  }

  /**
   Local layers on top of a stack keep its program and arguments. Of each variable that they set, the last
   entry of all counts, and of the directories the last one.
   */
  lemma LocalsMerge(layers: seq<Layer>, locals: seq<Layer>, c: Command)
    requires AllLocal(locals)
    ensures var inner, outer := Apply(layers, c), Apply(layers + locals, c);
      && outer.program == inner.program && outer.args == inner.args
      && LaterWins(inner.env, LocalEnv(locals), outer.env)
      && ((forall l :: l in locals ==> l.workingDir.None?) ==> outer.currentDir == inner.currentDir)
      && (forall i :: 0 <= i < |locals| && locals[i].workingDir.Some?
                      && (forall j :: i < j < |locals| ==> locals[j].workingDir.None?) ==>
            outer.currentDir == locals[i].workingDir)
  {
    hide LaterWins;
    LocalsInsert(layers, locals, c);
    InsertedLaterWins(Apply(layers, c).env, LocalEnv(locals));
  }

  method TransformCommand(layers: seq<Layer>, command: Command) returns (final: Command)
    ensures final == Apply(layers, command)
  {
    final := command;
    for i := 0 to |layers|
      invariant final == Apply(layers[..i], command)
    {
      match layers[i] {
        case Ssh(_, _, _, _, _, _, _, _, _) => final := WrapSsh(layers[i], final);
        case Docker(_, _, _, _, _, _) => final := WrapDocker(layers[i], final);
        case Local(_, _) => final := WrapLocal(layers[i], final);
      }
      assert layers[..i + 1][..i] == layers[..i];
    }
    assert layers[..|layers|] == layers;
  }

  lemma SafeConcat(a: seq<string>, b: seq<string>)
    ensures EachSafe(a + b) <==> EachSafe(a) && EachSafe(b)
  {
    if EachSafe(a + b) {
      assert forall i :: 0 <= i < |a| ==> (a + b)[i] == a[i];
      assert forall i :: 0 <= i < |b| ==> (a + b)[|a| + i] == b[i];
    }
  }

  /** The shell string is safe to nest as one more argument, unless it is only an unsafe program. */
  lemma ShellTextIsSafe(l: Layer, c: Command)
    requires !l.Local?
    ensures SafeArg(ShellText(l, c)) <==>
            SafeArg(c.program) || c.args != [] || (l.Ssh? && (l.env != [] || l.workingDir.Some?))
  {
    PrintedForm(c);
    var text := ShellText(l, c);
    if l.Ssh? && l.env != [] {
      JoinIsPrintAssignments(l.env);
      var first := ShellEscape(l.env[0].0) + "=" + ShellEscape(l.env[0].1);
      assert text[|first|] == ' ';
    } else if l.Ssh? && l.workingDir.Some? {
      assert text[2] == ' ';
    } else {
      assert text == c.program + PrintArgs(c.args);
      if c.args == [] {
        assert text == c.program;
      } else {
        assert text[|c.program|] == ' ';
      }
    }
  }

  lemma ToolNamesArePlain()
    ensures ProgramSafe("ssh", false) && ProgramSafe("docker", false)
    ensures !LeavesQuoteOpen("ssh") && !LeavesQuoteOpen("docker")
  {
    hide PlainWord, LeavesQuoteOpen;
    NamesArePlain("ssh");
    NamesArePlain("docker");
  }

  /** What a remote layer makes of a safely printed command can be wrapped again. */
  lemma WrappedIsSafe(l: Layer, c: Command)
    requires !l.Local? && PlainWord(c.program)
    ensures EachSafe(Wrap(l, c).args) <==> LayerArgsSafe(l)
  {
    var text := ShellText(l, c);
    ShellTextIsSafe(l, c);
    assert EachSafe([text]) by {
      assert [text][0] == text;
    }
    SafeConcat(LayerArgs(l), [text]);
    assert Wrap(l, c).args == LayerArgs(l) + [text];
  }

  lemma {:induction false} OuterProgramIs(layers: seq<Layer>, c: Command)
    ensures Apply(layers, c).program == OuterProgram(layers, c)
    ensures SelfContained(c) ==> SelfContained(Apply(layers, c))
    ensures StackSafe(layers, c) ==> (OuterArgsSafe(layers, c) <==> EachSafe(Apply(layers, c).args))
    decreases |layers|
  {
    hide PlainWord, LeavesQuoteOpen, HopSafe, LayerArgsSafe, NamedEnv;
    if layers == [] {
    } else {
      var init, l := layers[..|layers| - 1], layers[|layers| - 1];
      ToolNamesArePlain();
      OuterProgramIs(init, c);
      if !l.Local? && StackSafe(layers, c) {
        WrappedIsSafe(l, Apply(init, c));
      }
    }
  }

  /**
   For a stack of any depth, every hop's shell runs exactly the command the layer below it made if and
   only if the caller's strings are safe: the command's program and arguments when there is a remote
   layer, the variables and directories of the SSH layers, and the settings of every remote layer but
   the outermost.
   */
  lemma {:induction false} StackReadsBack(layers: seq<Layer>, c: Command)
    ensures StackSafe(layers, c) ==> EveryHopExact(layers, c)
    ensures SelfContained(c) ==> (EveryHopExact(layers, c) <==> StackSafe(layers, c))
    decreases |layers|
  {
    hide PlainWord, LeavesQuoteOpen, HopSafe, HopExact, NamedEnv, LayerArgsSafe, OuterArgsSafe;
    if layers == [] {
    } else {
      var init, l := layers[..|layers| - 1], layers[|layers| - 1];
      StackReadsBack(init, c);
      OuterProgramIs(init, c);
      if !l.Local? {
        HopReadsBack(l, Apply(init, c));
      }
    }
  }

  /** The argv of the last command that a shell runs for a text. */
  function LastCommand(text: string): Option<seq<string>> {
    match Interpret(text)
    case None => None
    case Some(cs) => if cs == [] then None else Some(cs[|cs| - 1].argv)
  }

  /**
   The argv that reaches the innermost process: each remote layer's shell interprets the last argument
   it is given and runs the last command of that text.
   */
  ghost function Delivered(layers: seq<Layer>, argv: seq<string>): Option<seq<string>> {
    if layers == [] then Some(argv)
    else if layers[|layers| - 1].Local? then Delivered(layers[..|layers| - 1], argv)
    else if argv == [] then None
    else match LastCommand(argv[|argv| - 1])
         case None => None
         case Some(inner) => Delivered(layers[..|layers| - 1], inner)
  }

  lemma HopDelivers(l: Layer, c: Command)
    requires !l.Local? && HopExact(l, c)
    ensures var argv := Argv(Wrap(l, c)); argv != [] && LastCommand(argv[|argv| - 1]) == Some(Argv(c))
  {
  }

  /** Unwrapping a stack of any depth recovers the original program and arguments. */
  lemma {:induction false} StackDelivers(layers: seq<Layer>, c: Command)
    requires StackSafe(layers, c)
    ensures Delivered(layers, Argv(Apply(layers, c))) == Some(Argv(c))
    decreases |layers|
  {
    hide HopExact, StackSafe;
    if layers == [] {
    } else {
      var init, l := layers[..|layers| - 1], layers[|layers| - 1];
      SafeBelow(layers, c);
      StackDelivers(init, c);
      StackReadsBack(layers, c);
      if !l.Local? {
        HopDelivers(l, Apply(init, c));
      }
    }
  }

  lemma SafeBelow(layers: seq<Layer>, c: Command)
    requires layers != [] && StackSafe(layers, c)
    ensures StackSafe(layers[..|layers| - 1], c)
  {
  }

  /** The layer's shell ends with the program, under exactly the layer's variables. */
  ghost predicate EnvReachesProgram(l: Layer, c: Command)
    requires l.Ssh?
  {
    match Interpret(ShellText(l, c))
    case None => false
    case Some(cs) => cs != [] && cs[|cs| - 1] == SimpleCommand(l.env, Argv(c))
  }

  /**
   The variables of an SSH layer that prints a safe command reach the program exactly when they are names
   and the layer does not also change directory: otherwise they are variables of the `cd` command alone.
   */
  lemma SshEnvReachesProgram(l: Layer, c: Command)
    requires l.Ssh? && HopSafe(l) && EachSafe(c.args)
    requires ProgramSafe(c.program, l.env != [] && l.workingDir.None?)
    ensures EnvReachesProgram(l, c) <==> NamedEnv(l) && (l.env == [] || l.workingDir.None?)
  {
    hide PlainWord, HopSafe;
    if NamedEnv(l) {
      HopReadsBack(l, c);
    } else if Interpret(ShellText(l, c)).Some? {
      ListNamesAreValid(Run(Between, ShellText(l, c)).value, []);
    }
  }
}
