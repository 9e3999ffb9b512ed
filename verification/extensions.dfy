/** `ExtensionsRepository.kt`: user extensions, each a directory holding a
    manifest and a start script, started and stopped through the bootstrap
    shell. Modelled here: the settings list and its upsert, the validity
    rule for extension directories, which extensions start-up starts, the
    stop decision, and the status each step sets.

    Threads and processes are not run: a step that starts one is a state
    change, and the thread's end is a separate step given its outcome. */
module Extensions {
  import opened Wrappers
  import opened Lists

  datatype ExtensionStatus = Running | Stopped | Stopping | Crashed

  datatype RegisteredExtension = RegisteredExtension(name: string, title: string, description: string, status: ExtensionStatus)

  datatype ExtensionSettings = ExtensionSettings(name: string, enabled: bool)

  /* ---------- settings ---------- */

  function SettingNamed(name: string): ExtensionSettings -> bool {
    (s: ExtensionSettings) => s.name == name
  }

  /** `getExtensionSettings(name)`: the first setting with that name. */
  function GetExtensionSettings(settings: seq<ExtensionSettings>, name: string): (r: Option<ExtensionSettings>)
    ensures r.Some? <==> exists i :: 0 <= i < |settings| && settings[i].name == name
    ensures r.Some? ==>
      exists i ::
        && 0 <= i < |settings| && settings[i] == r.value && r.value.name == name
        && forall j :: 0 <= j < i ==> settings[j].name != name
  {
    match FirstIndex(settings, SettingNamed(name))
    case None => None
    case Some(i) => Some(settings[i])
  }

  /** The settings update of `modifyExtensionSetting`: a new entry is
      appended, otherwise the first entry with the name is changed. */
  function Upsert(settings: seq<ExtensionSettings>, name: string, enabled: bool): (r: seq<ExtensionSettings>)
    ensures GetExtensionSettings(settings, name).None? ==> r == settings + [ExtensionSettings(name, enabled)]
    ensures GetExtensionSettings(settings, name).Some? ==>
      exists i ::
        && 0 <= i < |settings| && settings[i].name == name
        && (forall j :: 0 <= j < i ==> settings[j].name != name)
        && r == settings[i := ExtensionSettings(name, enabled)]
  {
    match FirstIndex(settings, SettingNamed(name))
    case None => settings + [ExtensionSettings(name, enabled)]
    case Some(i) => settings[i := ExtensionSettings(name, enabled)]
  }

  /** After the upsert, looking the name up gives the new value. */
  lemma UpsertThenGet(settings: seq<ExtensionSettings>, name: string, enabled: bool)
    ensures GetExtensionSettings(Upsert(settings, name, enabled), name) == Some(ExtensionSettings(name, enabled))
  {
    var r := Upsert(settings, name, enabled);
    if GetExtensionSettings(settings, name).None? {
      assert r[|settings|].name == name;
    } else {
      var i :| 0 <= i < |settings| && settings[i].name == name
               && (forall j :: 0 <= j < i ==> settings[j].name != name)
               && r == settings[i := ExtensionSettings(name, enabled)];
      assert r[i].name == name;
    }
  }

  /** Every other name keeps its setting. */
  lemma UpsertKeepsOthers(settings: seq<ExtensionSettings>, name: string, enabled: bool, other: string)
    requires other != name
    ensures GetExtensionSettings(Upsert(settings, name, enabled), other) == GetExtensionSettings(settings, other)
  {
    var r := Upsert(settings, name, enabled);
    UpsertNamesElsewhere(settings, name, enabled);
    if GetExtensionSettings(settings, other).Some? {
      var i :| 0 <= i < |settings| && settings[i] == GetExtensionSettings(settings, other).value
               && settings[i].name == other && forall j :: 0 <= j < i ==> settings[j].name != other;
      assert r[i] == settings[i];
      FirstNamed(r, other, i);
    } else {
      assert forall j :: 0 <= j < |r| ==> r[j].name != other;
    }
  }

  /** The upsert only touches entries called `name`: every other entry
      stays where it was. */
  lemma UpsertNamesElsewhere(settings: seq<ExtensionSettings>, name: string, enabled: bool)
    ensures var r := Upsert(settings, name, enabled);
      && |settings| <= |r| <= |settings| + 1
      && (forall j :: 0 <= j < |settings| && settings[j].name != name ==> r[j] == settings[j])
      && (forall j :: 0 <= j < |r| && (j >= |settings| || settings[j].name == name) ==> r[j].name == name)
  {
  }

  /** The first entry with a name is what the lookup returns. */
  lemma FirstNamed(settings: seq<ExtensionSettings>, name: string, i: nat)
    requires i < |settings| && settings[i].name == name
    requires forall j :: 0 <= j < i ==> settings[j].name != name
    ensures GetExtensionSettings(settings, name) == Some(settings[i])
  {
    var k :| 0 <= k < |settings| && settings[k] == GetExtensionSettings(settings, name).value
             && settings[k].name == name && forall j :: 0 <= j < k ==> settings[j].name != name;
    assert k == i;
  }

  /* ---------- getValidExtensions ---------- */

  /** An entry of the extensions directory. `title` and `description` are
      the manifest's values when it parses and both are strings, `None`
      when reading them throws. */
  datatype ExtensionDir = ExtensionDir(
    name: string,
    isDirectory: bool,
    manifestIsFile: bool,
    startIsFile: bool,
    title: Option<string>,
    description: Option<string>)

  predicate IsValid(d: ExtensionDir) {
    d.isDirectory && d.manifestIsFile && d.startIsFile && d.title.Some? && d.description.Some?
  }

  function Register(d: ExtensionDir): RegisteredExtension
    requires IsValid(d)
  {
    RegisteredExtension(d.name, d.title.value, d.description.value, Stopped)
  }

  /** `getValidExtensions`: one stopped entry per valid directory, in
      listing order. */
  function ValidExtensions(dirs: seq<ExtensionDir>): (r: seq<RegisteredExtension>)
    ensures |r| <= |dirs|
    ensures forall x :: x in r <==> exists i :: 0 <= i < |dirs| && IsValid(dirs[i]) && x == Register(dirs[i])
    ensures forall x :: x in r ==> x.status == Stopped
    decreases |dirs|
  {
    if |dirs| == 0 then []
    else
      var rest := ValidExtensions(dirs[1..]);
      assert forall i :: 1 <= i < |dirs| ==> dirs[1..][i - 1] == dirs[i];
      if IsValid(dirs[0]) then [Register(dirs[0])] + rest else rest
  }

  /* ---------- start-up ---------- */

  function Named(name: string): RegisteredExtension -> bool {
    (e: RegisteredExtension) => e.name == name
  }

  /** The extensions `startUpNecessaryExtensions` starts, in order: for
      each enabled setting, the first registered extension of that name. */
  function ToStart(settings: seq<ExtensionSettings>, registered: seq<RegisteredExtension>): (r: seq<RegisteredExtension>)
    ensures |r| <= |settings|
    decreases |settings|
  {
    if |settings| == 0 then []
    else
      StartedFor(settings[0], registered) + ToStart(settings[1..], registered)
  }

  /** Only registered extensions are started, each for an enabled setting
      of its name, and every enabled setting whose name is registered
      starts one. */
  lemma ToStartMembers(settings: seq<ExtensionSettings>, registered: seq<RegisteredExtension>)
    ensures forall x :: x in ToStart(settings, registered) ==> x in registered
    ensures forall x :: x in ToStart(settings, registered) ==>
      exists i :: 0 <= i < |settings| && settings[i].enabled && settings[i].name == x.name
    ensures forall i ::
      && 0 <= i < |settings| && settings[i].enabled
      && (exists e :: e in registered && e.name == settings[i].name)
      ==> exists x :: x in ToStart(settings, registered) && x.name == settings[i].name
  {
    ToStartSound(settings, registered);
    ToStartComplete(settings, registered);
  }

  /** What one setting contributes to `ToStart`. */
  function StartedFor(setting: ExtensionSettings, registered: seq<RegisteredExtension>): (r: seq<RegisteredExtension>)
    ensures |r| <= 1
    ensures forall x :: x in r ==> x in registered && setting.enabled && x.name == setting.name
    ensures setting.enabled && (exists e :: e in registered && e.name == setting.name) ==> |r| == 1 && r[0].name == setting.name
  {
    if !setting.enabled then []
    else
      match FirstMatch(registered, Named(setting.name))
      case None => []
      case Some(e) => [e]
  }

  lemma ToStartCons(settings: seq<ExtensionSettings>, registered: seq<RegisteredExtension>)
    requires |settings| > 0
    ensures ToStart(settings, registered) == StartedFor(settings[0], registered) + ToStart(settings[1..], registered)
  {
  }

  lemma {:induction false} ToStartSound(settings: seq<ExtensionSettings>, registered: seq<RegisteredExtension>)
    ensures forall x :: x in ToStart(settings, registered) ==> x in registered
    ensures forall x :: x in ToStart(settings, registered) ==>
      exists i :: 0 <= i < |settings| && settings[i].enabled && settings[i].name == x.name
    decreases |settings|
  {
    if |settings| > 0 {
      var tail := settings[1..];
      ToStartSound(tail, registered);
      ToStartCons(settings, registered);
      forall x | x in ToStart(settings, registered)
        ensures x in registered
        ensures exists i :: 0 <= i < |settings| && settings[i].enabled && settings[i].name == x.name
      {
        if x !in StartedFor(settings[0], registered) {
          var i :| 0 <= i < |tail| && tail[i].enabled && tail[i].name == x.name;
          assert settings[i + 1] == tail[i];
        }
      }
    }
  }

  lemma {:induction false} ToStartComplete(settings: seq<ExtensionSettings>, registered: seq<RegisteredExtension>)
    ensures forall i ::
      && 0 <= i < |settings| && settings[i].enabled
      && (exists e :: e in registered && e.name == settings[i].name)
      ==> exists x :: x in ToStart(settings, registered) && x.name == settings[i].name
    decreases |settings|
  {
    if |settings| > 0 {
      var tail := settings[1..];
      ToStartComplete(tail, registered);
      ToStartCons(settings, registered);
      forall i | 0 <= i < |settings| && settings[i].enabled && (exists e :: e in registered && e.name == settings[i].name)
        ensures exists x :: x in ToStart(settings, registered) && x.name == settings[i].name
      {
        if i == 0 {
          var x := StartedFor(settings[0], registered)[0];
          assert x in ToStart(settings, registered);
        } else {
          assert tail[i - 1] == settings[i];
          var x :| x in ToStart(tail, registered) && x.name == tail[i - 1].name;
          assert x in ToStart(settings, registered);
        }
      }
    }
  }

  /** A name is started at start-up iff some enabled setting names it and
      an extension of that name is registered. */
  lemma StartedIffEnabledAndRegistered(settings: seq<ExtensionSettings>, registered: seq<RegisteredExtension>, name: string)
    ensures (exists x :: x in ToStart(settings, registered) && x.name == name) <==>
      (exists i :: 0 <= i < |settings| && settings[i].enabled && settings[i].name == name)
      && (exists e :: e in registered && e.name == name)
  {
    var r := ToStart(settings, registered);
    ToStartMembers(settings, registered);
    if (exists i :: 0 <= i < |settings| && settings[i].enabled && settings[i].name == name)
       && (exists e :: e in registered && e.name == name) {
      var i :| 0 <= i < |settings| && settings[i].enabled && settings[i].name == name;
      assert exists e :: e in registered && e.name == settings[i].name;
    }
  }

  /* ---------- stopping ---------- */

  datatype StopAction = CallbackOnly | RunKillScript | InterruptThread

  /** The branch `stopExtension` takes, given whether the extension has an
      entry in the thread map, its status, and whether kill.sh exists. */
  function StopDecision(tracked: bool, status: ExtensionStatus, killScriptExists: bool): (r: StopAction)
    ensures r == CallbackOnly <==> !tracked || status == Stopped || status == Stopping
    ensures r == RunKillScript <==> tracked && status == Running && killScriptExists
    ensures r == InterruptThread <==> tracked && (status == Crashed || (status == Running && !killScriptExists))
  {
    if !tracked then CallbackOnly
    else match status
      case Running => if killScriptExists then RunKillScript else InterruptThread
      case Crashed => InterruptThread
      case _ => CallbackOnly
  }

  /** The repository's mutable state: the published extensions and the
      thread map, where `false` is an entry set to null. */
  datatype Repo = Repo(extensions: seq<RegisteredExtension>, threads: map<string, bool>)

  /** `updateExtension`: every published extension with the name takes the
      status. */
  function SetStatus(exts: seq<RegisteredExtension>, name: string, status: ExtensionStatus): (r: seq<RegisteredExtension>)
    ensures |r| == |exts|
    ensures forall i :: 0 <= i < |r| ==> r[i].name == exts[i].name && r[i].title == exts[i].title && r[i].description == exts[i].description
    ensures forall i :: 0 <= i < |r| ==> r[i].status == if exts[i].name == name then status else exts[i].status
  {
    seq(|exts|, i requires 0 <= i < |exts| => if exts[i].name == name then exts[i].(status := status) else exts[i])
  }

  /** `stopExtension`: the state after the synchronous part, and whether
      the callback ran at once (with kill.sh it runs when the script
      ends, see `KillFinished`). */
  function StopExtension(repo: Repo, ext: RegisteredExtension, killScriptExists: bool): (r: (Repo, bool))
    ensures var action := StopDecision(ext.name in repo.threads, ext.status, killScriptExists);
      && (action == CallbackOnly ==> r == (repo, true))
      && (action == RunKillScript ==> r == (Repo(SetStatus(repo.extensions, ext.name, Stopping), repo.threads), false))
      && (action == InterruptThread ==> r == (Repo(repo.extensions, repo.threads[ext.name := false]), true))
  {
    match StopDecision(ext.name in repo.threads, ext.status, killScriptExists)
    case CallbackOnly => (repo, true)
    case RunKillScript => (Repo(SetStatus(repo.extensions, ext.name, Stopping), repo.threads), false)
    case InterruptThread => (Repo(repo.extensions, repo.threads[ext.name := false]), true)
  }

  /** The kill thread's end: the extension is Stopped. */
  function KillFinished(repo: Repo, name: string): (r: Repo)
    ensures r.threads == repo.threads
    ensures forall i :: 0 <= i < |r.extensions| && r.extensions[i].name == name ==> r.extensions[i].status == Stopped
  {
    Repo(SetStatus(repo.extensions, name, Stopped), repo.threads)
  }

  /** The callback of `startExtension`: Running, with a new thread. */
  function Launch(repo: Repo, name: string): (r: Repo)
    ensures name in r.threads && r.threads[name]
    ensures forall i :: 0 <= i < |r.extensions| && r.extensions[i].name == name ==> r.extensions[i].status == Running
  {
    Repo(SetStatus(repo.extensions, name, Running), repo.threads[name := true])
  }

  /** `startExtension`: stop first, then launch in the callback; `true`
      when the launch waits for kill.sh. */
  function StartExtension(repo: Repo, ext: RegisteredExtension, killScriptExists: bool): (r: (Repo, bool))
    ensures r.1 <==> StopDecision(ext.name in repo.threads, ext.status, killScriptExists) == RunKillScript
    ensures !r.1 ==> ext.name in r.0.threads && r.0.threads[ext.name]
    ensures SameEntries(r.0.extensions, repo.extensions)
    ensures forall i :: 0 <= i < |r.0.extensions| && r.0.extensions[i].name != ext.name ==>
      r.0.extensions[i].status == repo.extensions[i].status
    ensures r.0.threads.Keys == repo.threads.Keys + (if r.1 then {} else {ext.name})
    ensures forall n :: n in repo.threads && n != ext.name ==> r.0.threads[n] == repo.threads[n]
    ensures forall n :: n in repo.threads && repo.threads[n] ==> r.0.threads[n]
  {
    var (stopped, ranCallback) := StopExtension(repo, ext, killScriptExists);
    if ranCallback then (Launch(stopped, ext.name), false) else (stopped, true)
  }

  /** How the start script's thread ends. */
  datatype ScriptEnd = Exited(code: int) | Interrupted | Threw

  /** The status the start thread sets when the script ends. */
  function FinalStatus(e: ScriptEnd): (r: ExtensionStatus)
    ensures r == Stopped <==> e == Exited(0) || e == Interrupted
    ensures r == Crashed <==> !(e == Exited(0) || e == Interrupted)
  {
    match e
    case Exited(code) => if code == 0 then Stopped else Crashed
    case Interrupted => Stopped
    case Threw => Crashed
  }

  /** The start thread's end: the status is set and the map entry removed. */
  function StartThreadFinished(repo: Repo, name: string, e: ScriptEnd): (r: Repo)
    ensures name !in r.threads
    ensures forall n :: n in repo.threads && n != name ==> n in r.threads && r.threads[n] == repo.threads[n]
  {
    Repo(SetStatus(repo.extensions, name, FinalStatus(e)), repo.threads - {name})
  }

  /** Every running extension has a thread-map entry. */
  predicate Consistent(repo: Repo) {
    forall i :: 0 <= i < |repo.extensions| && repo.extensions[i].status == Running ==> repo.extensions[i].name in repo.threads
  }

  /** Each step keeps `Consistent`. */
  lemma StepsKeepConsistent(repo: Repo, ext: RegisteredExtension, name: string, kill: bool, e: ScriptEnd)
    requires Consistent(repo)
    ensures Consistent(StopExtension(repo, ext, kill).0)
    ensures Consistent(StartExtension(repo, ext, kill).0)
    ensures Consistent(KillFinished(repo, name))
    ensures Consistent(StartThreadFinished(repo, name, e))
  {
  }

  /** Starting an untracked extension whose script exits with 0 leaves it
      Stopped with no thread entry. */
  lemma StartThenCleanExit(repo: Repo, ext: RegisteredExtension, kill: bool)
    requires ext.name !in repo.threads
    ensures var started := StartExtension(repo, ext, kill);
      && !started.1
      && var done := StartThreadFinished(started.0, ext.name, Exited(0));
      && ext.name !in done.threads
      && forall i :: 0 <= i < |done.extensions| && done.extensions[i].name == ext.name ==> done.extensions[i].status == Stopped
  {
  }

  /** `stopExtension` on each of `targets` in turn; `killScriptExists`
      says which extensions have a kill.sh. Stopping only marks entries
      Stopping or nulls thread entries: no entry is removed, and only the
      targets' entries change. */
  function StopEach(repo: Repo, targets: seq<RegisteredExtension>, killScriptExists: string -> bool): (r: Repo)
    ensures r.threads.Keys == repo.threads.Keys
    ensures forall n :: n in repo.threads && (forall k :: 0 <= k < |targets| ==> targets[k].name != n) ==>
      r.threads[n] == repo.threads[n]
    ensures |r.extensions| == |repo.extensions|
    ensures forall i :: 0 <= i < |r.extensions| ==>
      && r.extensions[i].name == repo.extensions[i].name
      && (r.extensions[i].status == repo.extensions[i].status || r.extensions[i].status == Stopping)
    ensures Consistent(repo) ==> Consistent(r)
    decreases |targets|
  {
    if |targets| == 0 then repo
    else
      var next := StopExtension(repo, targets[0], killScriptExists(targets[0].name)).0;
      assert forall k :: 1 <= k < |targets| ==> targets[1..][k - 1] == targets[k];
      StopEach(next, targets[1..], killScriptExists)
  }

  /** `stopAllExtensions`: stops the same extensions `startUpNecessaryExtensions`
      would start, from the published list. */
  function StopAllExtensions(repo: Repo, settings: seq<ExtensionSettings>, killScriptExists: string -> bool): (r: Repo)
    ensures r.threads.Keys == repo.threads.Keys
    ensures forall n :: n in repo.threads && !(exists i :: 0 <= i < |settings| && settings[i].enabled && settings[i].name == n) ==>
      r.threads[n] == repo.threads[n]
    ensures Consistent(repo) ==> Consistent(r)
  {
    var targets := ToStart(settings, repo.extensions);
    ToStartMembers(settings, repo.extensions);
    StopEach(repo, targets, killScriptExists)
  }

  /* ---------- start-up and setting changes ---------- */

  /** Two published lists that differ at most in their statuses. */
  predicate SameEntries(a: seq<RegisteredExtension>, b: seq<RegisteredExtension>) {
    && |a| == |b|
    && forall i :: 0 <= i < |a| ==>
         a[i].name == b[i].name && a[i].title == b[i].title && a[i].description == b[i].description
  }

  /** Every published extension called `n` is Stopped. */
  predicate StoppedNamed(exts: seq<RegisteredExtension>, n: string) {
    forall i :: 0 <= i < |exts| && exts[i].name == n ==> exts[i].status == Stopped
  }

  predicate EnabledIn(settings: seq<ExtensionSettings>, n: string) {
    exists i :: 0 <= i < |settings| && settings[i].enabled && settings[i].name == n
  }

  predicate PublishedIn(exts: seq<RegisteredExtension>, n: string) {
    exists j :: 0 <= j < |exts| && exts[j].name == n
  }

  /** One pass of the start loop of `startUpNecessaryExtensions`: an
      enabled setting starts the first published extension of its name, as
      that extension stands now; `true` when a start script was launched
      at once. */
  function StartFor(repo: Repo, setting: ExtensionSettings, killScriptExists: string -> bool): (r: (Repo, bool))
    ensures SameEntries(r.0.extensions, repo.extensions)
    ensures forall i :: 0 <= i < |r.0.extensions| && r.0.extensions[i].name != setting.name ==>
      r.0.extensions[i].status == repo.extensions[i].status
    ensures r.1 ==> setting.enabled && PublishedIn(repo.extensions, setting.name)
    ensures r.0.threads.Keys == repo.threads.Keys + (if r.1 then {setting.name} else {})
    ensures forall n :: n in repo.threads && (n != setting.name || !setting.enabled) ==> r.0.threads[n] == repo.threads[n]
    ensures forall n :: n in repo.threads && repo.threads[n] ==> r.0.threads[n]
    ensures r.1 ==> r.0.threads[setting.name]
    ensures setting.enabled && PublishedIn(repo.extensions, setting.name) && StoppedNamed(repo.extensions, setting.name) ==> r.1
  {
    if !setting.enabled then (repo, false)
    else match FirstIndex(repo.extensions, Named(setting.name))
      case None => (repo, false)
      case Some(k) =>
        var started := StartExtension(repo, repo.extensions[k], killScriptExists(setting.name));
        (started.0, !started.1)
  }

  /** The start loop over all settings, with the names launched, in order. */
  function StartEach(repo: Repo, settings: seq<ExtensionSettings>, killScriptExists: string -> bool): (r: (Repo, seq<string>))
    ensures SameEntries(r.0.extensions, repo.extensions)
    ensures forall n :: n in r.1 ==> n in r.0.threads && r.0.threads[n]
    ensures forall n :: n in repo.threads && repo.threads[n] ==> n in r.0.threads && r.0.threads[n]
    ensures forall n :: n in repo.threads && !EnabledIn(settings, n) ==> n in r.0.threads && r.0.threads[n] == repo.threads[n]
    decreases |settings|
  {
    if |settings| == 0 then (repo, [])
    else
      var first := StartFor(repo, settings[0], killScriptExists);
      var rest := StartEach(first.0, settings[1..], killScriptExists);
      (rest.0, (if first.1 then [settings[0].name] else []) + rest.1)
  }

  /** A launched name has an enabled setting and a published extension. */
  lemma {:induction false} StartEachSound(repo: Repo, settings: seq<ExtensionSettings>, killScriptExists: string -> bool)
    ensures forall n :: n in StartEach(repo, settings, killScriptExists).1 ==>
      EnabledIn(settings, n) && PublishedIn(repo.extensions, n)
    decreases |settings|
  {
    if |settings| > 0 {
      var first := StartFor(repo, settings[0], killScriptExists);
      StartEachSound(first.0, settings[1..], killScriptExists);
      forall n | n in StartEach(first.0, settings[1..], killScriptExists).1
        ensures EnabledIn(settings, n) && PublishedIn(repo.extensions, n)
      {
        var i :| 0 <= i < |settings[1..]| && settings[1..][i].enabled && settings[1..][i].name == n;
        assert settings[i + 1] == settings[1..][i];
        var j :| 0 <= j < |first.0.extensions| && first.0.extensions[j].name == n;
        assert repo.extensions[j].name == n;
      }
      if first.1 {
        assert settings[0].enabled;
      }
    }
  }

  /** A name whose published extensions are all Stopped is launched when
      an enabled setting names it. */
  lemma {:induction false} StartEachComplete(repo: Repo, settings: seq<ExtensionSettings>, killScriptExists: string -> bool, n: string)
    requires StoppedNamed(repo.extensions, n) && PublishedIn(repo.extensions, n) && EnabledIn(settings, n)
    ensures n in StartEach(repo, settings, killScriptExists).1
    decreases |settings|
  {
    var first := StartFor(repo, settings[0], killScriptExists);
    if settings[0].enabled && settings[0].name == n {
      assert first.1;
    } else {
      var i :| 0 <= i < |settings| && settings[i].enabled && settings[i].name == n;
      assert settings[1..][i - 1] == settings[i];
      var j :| 0 <= j < |repo.extensions| && repo.extensions[j].name == n;
      assert first.0.extensions[j].name == n;
      StartEachComplete(first.0, settings[1..], killScriptExists, n);
    }
  }

  /** `startUpNecessaryExtensions`: the valid extensions are published anew,
      all Stopped, and each enabled setting then starts its extension. A
      failed directory listing throws before anything is published, and
      the exception is swallowed. */
  function StartUpNecessaryExtensions(repo: Repo, settings: seq<ExtensionSettings>, dirs: Option<seq<ExtensionDir>>,
                                      killScriptExists: string -> bool): (r: (Repo, seq<string>))
    ensures dirs.None? ==> r == (repo, [])
    ensures dirs.Some? ==> SameEntries(r.0.extensions, ValidExtensions(dirs.value))
    ensures forall n :: n in r.1 ==> n in r.0.threads && r.0.threads[n]
    ensures forall n :: n in repo.threads && !EnabledIn(settings, n) ==> n in r.0.threads && r.0.threads[n] == repo.threads[n]
  {
    match dirs
    case None => (repo, [])
    case Some(ds) => StartEach(Repo(ValidExtensions(ds), repo.threads), settings, killScriptExists)
  }

  /** A valid directory of that name. */
  predicate ValidDirNamed(dirs: seq<ExtensionDir>, n: string) {
    exists j :: 0 <= j < |dirs| && IsValid(dirs[j]) && dirs[j].name == n
  }

  lemma PublishedIffValidDir(dirs: seq<ExtensionDir>, n: string)
    ensures PublishedIn(ValidExtensions(dirs), n) <==> ValidDirNamed(dirs, n)
    ensures StoppedNamed(ValidExtensions(dirs), n)
  {
    var v := ValidExtensions(dirs);
    if PublishedIn(v, n) {
      var j :| 0 <= j < |v| && v[j].name == n;
      assert v[j] in v;
    }
    if ValidDirNamed(dirs, n) {
      var j :| 0 <= j < |dirs| && IsValid(dirs[j]) && dirs[j].name == n;
      assert Register(dirs[j]) in v;
    }
    forall i | 0 <= i < |v| && v[i].name == n ensures v[i].status == Stopped {
      assert v[i] in v;
    }
  }

  /** Start-up launches exactly the names that have an enabled setting and
      a valid extension directory, whatever was running before: every
      published extension was just registered as Stopped. */
  lemma StartUpLaunches(repo: Repo, settings: seq<ExtensionSettings>, dirs: seq<ExtensionDir>,
                        killScriptExists: string -> bool, n: string)
    ensures n in StartUpNecessaryExtensions(repo, settings, Some(dirs), killScriptExists).1 <==>
      EnabledIn(settings, n) && ValidDirNamed(dirs, n)
  {
    var initial := Repo(ValidExtensions(dirs), repo.threads);
    StartEachSound(initial, settings, killScriptExists);
    PublishedIffValidDir(dirs, n);
    if EnabledIn(settings, n) && ValidDirNamed(dirs, n) {
      StartEachComplete(initial, settings, killScriptExists, n);
    }
  }

  /** What `modifyExtensionSetting` leaves behind: the extension it stopped
      first, the repository, the saved settings and the names launched by
      the start-up it ends with. */
  datatype SettingChange = SettingChange(stopped: Option<RegisteredExtension>, repo: Repo,
                                         settings: seq<ExtensionSettings>, launched: seq<string>)

  /** `modifyExtensionSetting`: when disabling, the published extension of
      that name is stopped; the setting is saved; then
      `startUpNecessaryExtensions` runs on the new settings. */
  function ModifyExtensionSetting(repo: Repo, settings: seq<ExtensionSettings>, dirs: Option<seq<ExtensionDir>>,
                                  killScriptExists: string -> bool, name: string, enabled: bool): (r: SettingChange)
    ensures r.stopped.Some? <==> !enabled && PublishedIn(repo.extensions, name)
    ensures r.stopped.Some? ==> r.stopped.value in repo.extensions && r.stopped.value.name == name
    ensures GetExtensionSettings(r.settings, name) == Some(ExtensionSettings(name, enabled))
    ensures dirs.None? ==> r.launched == []
    ensures dirs.Some? ==> SameEntries(r.repo.extensions, ValidExtensions(dirs.value))
    ensures forall n :: n in r.launched ==> n in r.repo.threads && r.repo.threads[n]
  {
    UpsertThenGet(settings, name, enabled);
    var toStop := if enabled then None else FirstMatch(repo.extensions, Named(name));
    var afterStop := match toStop
      case None => repo
      case Some(e) => StopExtension(repo, e, killScriptExists(name)).0;
    var saved := Upsert(settings, name, enabled);
    var started := StartUpNecessaryExtensions(afterStop, saved, dirs, killScriptExists);
    SettingChange(toStop, started.0, saved, started.1)
  }

  /** Changing the setting of one extension relaunches every other enabled
      one, even while its start script is still running: the new start-up
      publishes it as Stopped, so `startExtension` skips the stop and starts
      a second script thread, whose entry replaces the first one's. */
  lemma SettingChangeRelaunches(repo: Repo, settings: seq<ExtensionSettings>, dirs: seq<ExtensionDir>,
                                killScriptExists: string -> bool, name: string, enabled: bool, n: string)
    requires n != name
    requires n in repo.threads && repo.threads[n]
    requires exists i :: 0 <= i < |repo.extensions| && repo.extensions[i].name == n && repo.extensions[i].status == Running
    requires EnabledIn(settings, n)
    requires ValidDirNamed(dirs, n)
    ensures var r := ModifyExtensionSetting(repo, settings, Some(dirs), killScriptExists, name, enabled);
      n in r.launched && r.repo.threads[n]
  {
    var r := ModifyExtensionSetting(repo, settings, Some(dirs), killScriptExists, name, enabled);
    var i :| 0 <= i < |settings| && settings[i].enabled && settings[i].name == n;
    UpsertNamesElsewhere(settings, name, enabled);
    assert r.settings[i] == settings[i];
    assert EnabledIn(r.settings, n);
    var toStop := if enabled then None else FirstMatch(repo.extensions, Named(name));
    var afterStop := match toStop
      case None => repo
      case Some(e) => StopExtension(repo, e, killScriptExists(name)).0;
    StartUpLaunches(afterStop, r.settings, dirs, killScriptExists, n);
  }
}
