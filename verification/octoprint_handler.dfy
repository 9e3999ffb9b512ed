/** `OctoPrintHandlerRepository.kt`: the server status shown while
    installing and running OctoPrint, the optional build extras, reading a
    config value through the OctoPrint CLI, the process id fallback, and
    the guard in front of `startOctoPrint`.

    Command output, file existence and reflection results are parameters;
    started processes and threads are recorded as effects. */
module OctoPrintHandler {
  import opened Wrappers
  import opened Text
  import Platform
  import SemVer

  /* ---------- server status ---------- */

  datatype ServerStatus =
    | InstallingBootstrap | DownloadingOctoPrint | InstallingDependencies
    | BootingUp | Running | ShuttingDown | Stopped | Corrupted
  {
    /** The enum's `value`. */
    function Value(): nat {
      match this
      case InstallingBootstrap => 0
      case DownloadingOctoPrint => 1
      case InstallingDependencies => 2
      case BootingUp => 3
      case Running => 4
      case ShuttingDown => 3
      case Stopped => 5
      case Corrupted => 6
    }

    /** The enum's `progress` flag. */
    predicate Progress() {
      this == BootingUp || this == ShuttingDown
    }
  }

  /** Kotlin `Double.roundToInt()`: to the nearest integer, ties upwards. */
  function RoundToInt(x: real): (r: int)
    ensures r as real - 0.5 <= x < r as real + 0.5
  {
    (x + 0.5).Floor
  }

  /** `getInstallationProgress`: `(value / 4 * 100).roundToInt()`, computed
      on exact quarters, so it is 25 times the value. */
  function GetInstallationProgress(s: ServerStatus): (r: int)
    ensures r == 25 * s.Value()
    ensures 0 <= r <= 150
  {
    var x := (s.Value() as real / 4.0) * 100.0;
    assert x == (25 * s.Value()) as real;
    RoundToInt(x)
  }

  /** `isInstallationFinished`: the value is Running's. */
  predicate IsInstallationFinished(s: ServerStatus) {
    s.Value() == Running.Value()
  }

  /** Only Running is finished; BootingUp and ShuttingDown cannot be told
      apart by value (nor by progress). */
  lemma FinishedOnlyWhenRunning(s: ServerStatus)
    ensures IsInstallationFinished(s) <==> s == Running
    ensures GetInstallationProgress(s) == 100 <==> s == Running
    ensures BootingUp.Value() == ShuttingDown.Value() && BootingUp != ShuttingDown
  {
  }

  /** The progress grows along the install sequence. */
  lemma ProgressAlongInstall()
    ensures GetInstallationProgress(InstallingBootstrap) < GetInstallationProgress(DownloadingOctoPrint)
            < GetInstallationProgress(InstallingDependencies) < GetInstallationProgress(BootingUp)
            < GetInstallationProgress(Running)
  {
  }

  /* ---------- extras ---------- */

  datatype ExtrasStatus = NotInstalled | Installing | Installed

  /** `getExtrasStatus`: gcc present means Installed; absent, an ongoing
      installation is left alone. */
  function GetExtrasStatus(current: ExtrasStatus, gccExists: bool): (r: ExtrasStatus)
    ensures gccExists ==> r == Installed
    ensures !gccExists && current == Installing ==> r == Installing
    ensures !gccExists && current != Installing ==> r == NotInstalled
  {
    if gccExists then Installed
    else if current != Installing then NotInstalled
    else current
  }

  /** `installExtras`: the statuses the install thread sets, in order; no
      thread starts unless the extras are NotInstalled. */
  function InstallExtras(current: ExtrasStatus): (r: seq<ExtrasStatus>)
    ensures current == NotInstalled <==> |r| > 0
    ensures |r| > 0 ==> r == [Installing, Installed]
  {
    if current == NotInstalled then [Installing, Installed] else []
  }

  /** A status check while the extras install does not interrupt it, and
      the extras end Installed. */
  lemma ExtrasInstallRuns(gccExists: bool)
    ensures GetExtrasStatus(InstallExtras(NotInstalled)[0], false) == Installing
    ensures InstallExtras(NotInstalled)[|InstallExtras(NotInstalled)| - 1] == Installed
    ensures InstallExtras(Installing) == [] && InstallExtras(Installed) == []
  {
  }

  /* ---------- getConfigValue ---------- */

  /** `getConfigValue` applied to the command's output: every newline is
      removed, then one pair of surrounding single quotes. */
  function GetConfigValue(output: string): (r: string)
    ensures '\n' !in r
    ensures var flat := ReplaceAll(output, "\n", "");
      if |flat| >= 2 && flat[0] == '\'' && flat[|flat| - 1] == '\'' then "'" + r + "'" == flat else r == flat
  {
    var flat := ReplaceAll(output, "\n", "");
    ReplaceAllRemovesChar(output, '\n');
    assert "\n" == ['\n'] && "" == [];
    var r := RemoveSurrounding(flat, "'");
    assert forall i :: 0 <= i < |r| ==> r[i] in flat by {
      if |flat| >= 2 && StartsWith(flat, "'") && EndsWith(flat, "'") {
        assert forall i :: 0 <= i < |r| ==> r[i] == flat[i + 1];
      }
    }
    r
  }

  lemma {:induction false} DropAbsentChar(s: string, c: char)
    requires c !in s
    ensures ReplaceAll(s, [c], []) == s
    decreases |s|
  {
    if |s| >= 1 {
      assert s[..1] != [c] by {
        assert s[0] != c;
      }
      DropAbsentChar(s[1..], c);
      assert s == [s[0]] + s[1..];
    }
  }

  lemma {:induction false} DropCharAppend(a: string, b: string, c: char)
    ensures ReplaceAll(a + b, [c], []) == ReplaceAll(a, [c], []) + ReplaceAll(b, [c], [])
    decreases |a|
  {
    if |a| == 0 {
      assert a + b == b;
    } else {
      assert (a + b)[..1] == a[..1];
      assert (a + b)[1..] == a[1..] + b;
      DropCharAppend(a[1..], b, c);
    }
  }

  /** The CLI prints a string value quoted and followed by a newline; the
      value comes back as it was. */
  lemma ConfigValueOfQuotedLine(v: string)
    requires '\n' !in v
    ensures GetConfigValue("'" + v + "'\n") == v
  {
    var quoted := "'" + v + "'";
    DropCharAppend(quoted, "\n", '\n');
    DropAbsentChar(quoted, '\n');
    assert ReplaceAll("\n", ['\n'], []) == [] by {
      assert "\n"[..1] == ['\n'];
      assert "\n"[1..] == [];
    }
    assert "\n" == ['\n'] && "" == [];
    assert "'" + v + "'\n" == quoted + "\n";
    assert ReplaceAll(quoted + "\n", "\n", "") == quoted;
    assert quoted[0] == '\'' && quoted[|quoted| - 1] == '\'';
    var r := GetConfigValue("'" + v + "'\n");
    assert "'" + r + "'" == quoted;
    assert r == ("'" + r + "'")[1..|r| + 1];
    assert v == quoted[1..|v| + 1];
  }

  /* ---------- getPid ---------- */

  /** `pid=(\d+)` can match at `i`. */
  predicate PidMatchAt(s: string, i: nat) {
    OccursAt(s, "pid=", i) && i + 4 < |s| && IsDigit(s[i + 4])
  }

  /** The length of the run of digits starting at `j`: what the greedy
      `\d+` consumes. */
  function DigitRun(s: string, j: nat): (n: nat)
    requires j <= |s|
    ensures j + n <= |s|
    ensures forall k :: j <= k < j + n ==> IsDigit(s[k])
    ensures j + n < |s| ==> !IsDigit(s[j + n])
    decreases |s| - j
  {
    if j < |s| && IsDigit(s[j]) then 1 + DigitRun(s, j + 1) else 0
  }

  /** `Matcher.find()`: the first position at or after `i` where the
      pattern matches. */
  function FindPidMatch(s: string, i: nat): (r: Option<nat>)
    ensures r.Some? ==> i <= r.value && PidMatchAt(s, r.value)
    ensures r.Some? ==> forall j: nat :: i <= j < r.value ==> !PidMatchAt(s, j)
    ensures r.None? ==> forall j: nat :: i <= j ==> !PidMatchAt(s, j)
    decreases |s| - i
  {
    if i + 4 >= |s| then None
    else if PidMatchAt(s, i) then Some(i)
    else FindPidMatch(s, i + 1)
  }

  /** The digits the group captures for a match at `i`. */
  function PidDigits(s: string, i: nat): (d: string)
    requires PidMatchAt(s, i)
    ensures IsDigits(d)
  {
    var n := DigitRun(s, i + 4);
    var d := s[i + 4..i + 4 + n];
    assert forall k :: 0 <= k < |d| ==> d[k] == s[i + 4 + k];
    d
  }

  /** The fallback of `getPid`: the digits of the first match, or -1 when
      there is none or they overflow `Int` (`toInt` throws). */
  function PidFromText(s: string): (r: int)
    ensures r == -1 || 0 <= r <= SemVer.Int32Max
    ensures (forall j: nat :: !PidMatchAt(s, j)) ==> r == -1
    ensures r >= 0 ==>
      exists i: nat ::
        && PidMatchAt(s, i) && (forall j: nat :: j < i ==> !PidMatchAt(s, j))
        && r == DigitsValue(PidDigits(s, i))
    ensures forall i: nat :: PidMatchAt(s, i) && (forall j: nat :: j < i ==> !PidMatchAt(s, j)) ==>
      && (DigitsValue(PidDigits(s, i)) <= SemVer.Int32Max ==> r == DigitsValue(PidDigits(s, i)))
      && (DigitsValue(PidDigits(s, i)) > SemVer.Int32Max ==> r == -1)
  {
    match FindPidMatch(s, 0)
    case None => -1
    case Some(i) =>
      var v := DigitsValue(PidDigits(s, i));
      if v <= SemVer.Int32Max then v else -1
  }

  /** `getPid`: the `pid` field read by reflection, else the fallback. */
  function GetPid(field: Option<Platform.int32>, processText: string): (r: int)
    ensures field.Some? ==> r == field.value
    ensures field.None? ==> r == PidFromText(processText)
  {
    match field
    case Some(p) => p
    case None => PidFromText(processText)
  }

  lemma {:induction false} NoMatchBefore(s: string, i: nat, j: nat)
    requires i <= j
    requires forall k: nat :: i <= k < j ==> !PidMatchAt(s, k)
    ensures FindPidMatch(s, i) == FindPidMatch(s, j)
    decreases j - i
  {
    if i < j && i + 4 < |s| {
      NoMatchBefore(s, i + 1, j);
    }
  }

  /** `Process.toString()` on Android is "Process[pid=N, ...]": the
      fallback recovers N. */
  lemma PidOfProcessText(n: nat, rest: string)
    requires n <= SemVer.Int32Max
    requires |rest| > 0 ==> !IsDigit(rest[0])
    ensures PidFromText("Process[pid=" + NatToString(n) + rest) == n
  {
    var digits := NatToString(n);
    var s := "Process[pid=" + digits + rest;
    assert forall k: nat :: k < 8 ==> !PidMatchAt(s, k) by {
      forall k: nat | k < 8 ensures !PidMatchAt(s, k) {
        assert s[k] != 'p';
      }
    }
    NoMatchBefore(s, 0, 8);
    assert s[8..12] == "pid=";
    assert PidMatchAt(s, 8);
    assert FindPidMatch(s, 0) == Some(8);
    DigitRunOf(s, 12, |digits|);
    assert PidDigits(s, 8) == digits;
    DigitsValueOfNatToString(n);
  }

  lemma {:induction false} DigitRunOf(s: string, j: nat, n: nat)
    requires j + n <= |s|
    requires forall k :: j <= k < j + n ==> IsDigit(s[k])
    requires j + n < |s| ==> !IsDigit(s[j + n])
    ensures DigitRun(s, j) == n
    decreases n
  {
    if n > 0 {
      DigitRunOf(s, j + 1, n - 1);
    }
  }

  /* ---------- startOctoPrint ---------- */

  /** `isInstalledProperly`, given the output of `command -v octoprint`. */
  predicate IsInstalledProperly(commandOutput: string) {
    Contains(commandOutput, "/usr/bin/octoprint")
  }

  const ServeCommand := "LD_PRELOAD=/home/octoprint/ioctlHook.so octoprint serve --iknowwhatimdoing"

  datatype Effect =
    | AcquireWakeLock
    | CreateEventPipe
    | EnsureCommFix
    | StartProcess(command: string)
    | StartOutputReader
    | StartFifoThread

  /** `startOctoPrint`: the new status and the effects, given the output of
      the installation check and whether the FIFO thread is alive. The
      status it sets does not depend on the previous one, which is
      overwritten in both branches. */
  function StartOctoPrint(commandOutput: string, fifoAlive: bool): (r: (ServerStatus, seq<Effect>))
    ensures !IsInstalledProperly(commandOutput) ==> r == (Corrupted, [])
    ensures IsInstalledProperly(commandOutput) ==>
      && r.0 == BootingUp
      && StartProcess(ServeCommand) in r.1
      && (StartFifoThread in r.1 <==> !fifoAlive)
      && r.1[0] == AcquireWakeLock
  {
    if !IsInstalledProperly(commandOutput) then (Corrupted, [])
    else
      var effects := [AcquireWakeLock, CreateEventPipe, EnsureCommFix, StartProcess(ServeCommand), StartOutputReader]
                     + (if fifoAlive then [] else [StartFifoThread]);
      (BootingUp, effects)
  }

  /** The output reader: a line with "Listening on" means the server is
      up. */
  function OnOutputLine(status: ServerStatus, line: string): (r: ServerStatus)
    ensures Contains(line, "Listening on") ==> r == Running
    ensures !Contains(line, "Listening on") ==> r == status
  {
    if Contains(line, "Listening on") then Running else status
  }
}
