/** Writing the configuration file and reloading HAProxy, with every step free to fail. The
    file is written beside its place and renamed into it, and the process monitor is off
    from the start of a call until a reload has succeeded. */
module Configurers {
  import opened RoutingModel
  import opened HAProxyConfigs
  import opened HAProxySyntax
  import opened Marshaller
  import opened Events

  /** How writing a file turns out. A failed write or close leaves any part of the data. */
  datatype WriteOutcome = Written | NotCreated | Broken(length: nat)

  /** What the system does during one call. */
  datatype Environment = Environment(
    configReadable: bool, backup: WriteOutcome, baseReadable: bool, tmp: WriteOutcome, renamed: bool, ran: bool)

  datatype Outcome =
    ConfigUnreadable | BackupFailed | BaseUnreadable | WriteFailed | RenameFailed | ReloadFailed | Configured

  /** The files, whether the monitor watches HAProxy, and the flags handed to the reload
      script so far. */
  datatype World = World(
    config: string, backup: Option<string>, tmp: Option<string>, watching: bool, runs: seq<bool>)

  datatype Settings = Settings(baseConfig: string, tls: BackendTLSConfig, hasScriptRunner: bool)

  function WriteToFile(before: Option<string>, data: string, outcome: WriteOutcome): Option<string> {
    match outcome
    case Written => Some(data)
    case NotCreated => before
    case Broken(length) => Some(if length < |data| then data[..length] else data)
  }

  ghost predicate IsTextOf(text: string, table: Table, tls: BackendTLSConfig) {
    exists conf :: IsConfigOf(conf, table) && text == ConfigText(ConfigSections(conf, tls))
  }

  // ----- One call -----

  /** The call fails before it looks at the table. */
  predicate FailsEarly(env: Environment) {
    !env.configReadable || env.backup != Written || !env.baseReadable
  }

  /** The call puts a new file in place. */
  predicate Replaces(env: Environment) {
    !FailsEarly(env) && env.tmp == Written && env.renamed
  }

  function EarlyWorld(w: World, env: Environment): World {
    w.(watching := false,
       backup := if env.configReadable then WriteToFile(w.backup, w.config, env.backup) else w.backup)
  }

  function EarlyOutcome(env: Environment): Outcome
    requires FailsEarly(env)
  {
    if !env.configReadable then ConfigUnreadable
    else if env.backup != Written then BackupFailed
    else BaseUnreadable
  }

  function LateWorld(s: Settings, w: World, env: Environment, text: string, flag: bool): World {
    var content := s.baseConfig + text;
    if !Replaces(env) then w.(tmp := WriteToFile(w.tmp, content, env.tmp))
    else
      var replaced := w.(config := content, tmp := None);
      if !s.hasScriptRunner then replaced
      else replaced.(runs := w.runs + [flag], watching := env.ran)
  }

  function LateOutcome(s: Settings, env: Environment): Outcome
    requires !FailsEarly(env)
  {
    if env.tmp != Written then WriteFailed
    else if !env.renamed then RenameFailed
    else if s.hasScriptRunner && !env.ran then ReloadFailed
    else Configured
  }

  /** A call, and how the system behaved during it. */
  datatype Attempt = Attempt(call: ConfigureCall, env: Environment)

  /** What one call does to the world, and what it returns. */
  ghost predicate Configures(s: Settings, w: World, attempt: Attempt, w': World, outcome: Outcome) {
    if FailsEarly(attempt.env) then w' == EarlyWorld(w, attempt.env) && outcome == EarlyOutcome(attempt.env)
    else
      && outcome == LateOutcome(s, attempt.env)
      && exists text :: IsTextOf(text, attempt.call.table, s.tls)
           && w' == LateWorld(s, EarlyWorld(w, attempt.env), attempt.env, text, attempt.call.forceHealthCheckToFail)
  }

  class Configurer {
    const settings: Settings
    var config: string
    var backup: Option<string>
    var tmp: Option<string>
    var watching: bool
    var runs: seq<bool>

    /** The monitor watches from the start. */
    constructor (settings: Settings, config: string)
      ensures this.settings == settings
      ensures Current() == World(config, None, None, true, [])
    {
      this.settings := settings;
      this.config := config;
      backup, tmp, watching, runs := None, None, true, [];
    }

    function Current(): World
      reads this
    {
      World(config, backup, tmp, watching, runs)
    }

    method Configure(table: Table, forceHealthCheckToFail: bool, env: Environment) returns (outcome: Outcome)
      modifies this
      ensures Configures(settings, old(Current()), Attempt(ConfigureCall(table, forceHealthCheckToFail), env), Current(), outcome)
    {
      watching := false;
      var failure := CreateConfigBackup(env);
      if failure.Some? {
        return failure.value;
      }
      if !env.baseReadable {
        return BaseUnreadable;
      }
      assert Current() == EarlyWorld(old(Current()), env);
      var buffer := settings.baseConfig;
      var haproxyConf := NewHAProxyConfig(table);
      var marshalledConf := Marshal(haproxyConf, settings.tls);
      assert IsTextOf(marshalledConf, table, settings.tls);
      buffer := buffer + marshalledConf;
      failure := WriteToConfig(buffer, env);
      if failure.Some? {
        return failure.value;
      }
      if settings.hasScriptRunner {
        runs := runs + [forceHealthCheckToFail];
        if !env.ran {
          return ReloadFailed;
        }
        watching := true;
      }
      return Configured;
    }

    method CreateConfigBackup(env: Environment) returns (failure: Option<Outcome>)
      modifies this`backup
      ensures backup == if env.configReadable then WriteToFile(old(backup), config, env.backup) else old(backup)
      ensures failure == if !env.configReadable then Some(ConfigUnreadable)
                         else if env.backup != Written then Some(BackupFailed) else None
    {
      if !env.configReadable {
        return Some(ConfigUnreadable);
      }
      backup := WriteToFile(backup, config, env.backup);
      return if env.backup != Written then Some(BackupFailed) else None;
    }

    method WriteToConfig(content: string, env: Environment) returns (failure: Option<Outcome>)
      modifies this`tmp, this`config
      ensures env.tmp != Written ==> failure == Some(WriteFailed)
      ensures env.tmp == Written && !env.renamed ==> failure == Some(RenameFailed)
      ensures failure.Some? ==> config == old(config) && tmp == WriteToFile(old(tmp), content, env.tmp)
      ensures env.tmp == Written && env.renamed ==> failure == None && config == content && tmp == None
    {
      tmp := WriteToFile(tmp, content, env.tmp);
      if env.tmp != Written {
        return Some(WriteFailed);
      }
      if !env.renamed {
        return Some(RenameFailed);
      }
      config, tmp := tmp.value, None;
      return None;
    }
  }

  // ----- Any number of calls, one after the other -----

  ghost predicate IsHistory(s: Settings, worlds: seq<World>, attempts: seq<Attempt>, outcomes: seq<Outcome>) {
    && |worlds| == |attempts| + 1 && |outcomes| == |attempts|
    && forall i :: 0 <= i < |attempts| ==> Configures(s, worlds[i], attempts[i], worlds[i + 1], outcomes[i])
  }

  /** The table of the last call that replaced the file. */
  function LastWritten(attempts: seq<Attempt>): Option<Table> {
    if attempts == [] then None
    else
      var n := |attempts| - 1;
      if Replaces(attempts[n].env) then Some(attempts[n].call.table) else LastWritten(attempts[..n])
  }

  /** The base followed by the text of the table. */
  ghost predicate IsContentOf(config: string, s: Settings, table: Table) {
    exists text :: IsTextOf(text, table, s.tls) && config == s.baseConfig + text
  }

  /** What a call does to the file. */
  ghost predicate ReplacesOrKeeps(s: Settings, attempt: Attempt, before: string, after: string) {
    if Replaces(attempt.env) then IsContentOf(after, s, attempt.call.table) else after == before
  }

  lemma ConfigAfter(s: Settings, w: World, attempt: Attempt, w': World, outcome: Outcome)
    requires Configures(s, w, attempt, w', outcome)
    ensures ReplacesOrKeeps(s, attempt, w.config, w'.config)
  {
  }

  ghost predicate IsWhole(s: Settings, config: string, initial: string, written: Option<Table>) {
    if written.None? then config == initial else IsContentOf(config, s, written.value)
  }

  lemma WholeNext(s: Settings, before: string, after: string, initial: string, written: Option<Table>,
                  attempt: Attempt)
    requires IsWhole(s, before, initial, written) && ReplacesOrKeeps(s, attempt, before, after)
    ensures IsWhole(s, after, initial, if Replaces(attempt.env) then Some(attempt.call.table) else written)
  {
  }

  lemma {:induction false} FileIsWhole(s: Settings, files: seq<string>, attempts: seq<Attempt>)
    requires |files| == |attempts| + 1
    requires forall i :: 0 <= i < |attempts| ==> ReplacesOrKeeps(s, attempts[i], files[i], files[i + 1])
    ensures IsWhole(s, files[|attempts|], files[0], LastWritten(attempts))
  {
    if attempts != [] {
      var n := |attempts| - 1;
      FileIsWhole(s, files[..n + 1], attempts[..n]);
      WholeNext(s, files[n], files[n + 1], files[0], LastWritten(attempts[..n]), attempts[n]);
    }
  }

  /** The file is always whole: as it was at first, or the base followed by the text of the
      table of the last call that replaced it. */
  lemma ConfigIsWhole(s: Settings, worlds: seq<World>, attempts: seq<Attempt>, outcomes: seq<Outcome>, i: nat)
    requires IsHistory(s, worlds, attempts, outcomes) && i <= |attempts|
    ensures IsWhole(s, worlds[i].config, worlds[0].config, LastWritten(attempts[..i]))
  {
    var files := seq(i + 1, (j: nat) requires j < |worlds| => worlds[j].config);
    forall j | 0 <= j < i
      ensures ReplacesOrKeeps(s, attempts[..i][j], files[j], files[j + 1])
    {
      ConfigAfter(s, worlds[j], attempts[j], worlds[j + 1], outcomes[j]);
    }
    FileIsWhole(s, files, attempts[..i]);
  }

  /** The monitor watches when no call has been made, or when there is a reload script and
      the last call went through to its end. */
  lemma MonitorWatchesIff(s: Settings, worlds: seq<World>, attempts: seq<Attempt>, outcomes: seq<Outcome>, i: nat)
    requires IsHistory(s, worlds, attempts, outcomes) && i <= |attempts| && worlds[0].watching
    ensures worlds[i].watching <==> i == 0 || (s.hasScriptRunner && outcomes[i - 1] == Configured)
  {
    if i > 0 {
      assert Configures(s, worlds[i - 1], attempts[i - 1], worlds[i], outcomes[i - 1]);
    }
  }

  /** A call that got past the backup leaves in it the file as it found it, so what it
      replaced can be brought back. */
  lemma BackupIsPrevious(s: Settings, w: World, attempt: Attempt, w': World, outcome: Outcome)
    requires Configures(s, w, attempt, w', outcome)
    ensures outcome != ConfigUnreadable && outcome != BackupFailed ==> w'.backup == Some(w.config)
    ensures outcome in {ConfigUnreadable, BackupFailed, BaseUnreadable, WriteFailed, RenameFailed} <==> !Replaces(attempt.env)
    ensures !Replaces(attempt.env) ==> w'.config == w.config && w'.runs == w.runs
  {
  }

  /** The flags of the calls that came to reload HAProxy, in order. */
  function FlagsRun(attempts: seq<Attempt>): seq<bool> {
    if attempts == [] then []
    else
      var n := |attempts| - 1;
      FlagsRun(attempts[..n]) + if Replaces(attempts[n].env) then [attempts[n].call.forceHealthCheckToFail] else []
  }

  lemma RunsAfter(s: Settings, w: World, attempt: Attempt, w': World, outcome: Outcome)
    requires Configures(s, w, attempt, w', outcome)
    ensures w'.runs == w.runs + if s.hasScriptRunner && Replaces(attempt.env) then [attempt.call.forceHealthCheckToFail] else []
  {
  }

  lemma FlagsRunNext(attempts: seq<Attempt>, attempt: Attempt)
    ensures FlagsRun(attempts + [attempt]) == FlagsRun(attempts) + if Replaces(attempt.env) then [attempt.call.forceHealthCheckToFail] else []
  {
    assert (attempts + [attempt])[..|attempts|] == attempts;
  }

  /** The script is run once by each call that replaced the file, with that call's flag. */
  lemma {:induction false} RunsFollowCalls(s: Settings, worlds: seq<World>, attempts: seq<Attempt>,
                                           outcomes: seq<Outcome>, i: nat)
    requires IsHistory(s, worlds, attempts, outcomes) && i <= |attempts|
    ensures worlds[i].runs == worlds[0].runs + if s.hasScriptRunner then FlagsRun(attempts[..i]) else []
  {
    if i > 0 {
      RunsFollowCalls(s, worlds, attempts, outcomes, i - 1);
      RunsAfter(s, worlds[i - 1], attempts[i - 1], worlds[i], outcomes[i - 1]);
      FlagsRunNext(attempts[..i - 1], attempts[i - 1]);
      assert attempts[..i] == attempts[..i - 1] + [attempts[i - 1]];
    }
  }
}
