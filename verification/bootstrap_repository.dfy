/** `BootstrapRepository.kt`: installing the Alpine-based bootstrap. The
    release to download is the first one with an asset for the device
    architecture; after unpacking, a fixed sequence of shell commands sets
    the system up, each through `runCommand`, which runs a command either
    directly or inside proot as a given user.

    The GitHub request, the download and unpacking are parameters; commands
    are recorded as the process descriptions they would start. */
module BootstrapRepository {
  import opened Wrappers
  import opened Text
  import opened Lists
  import Platform
  import Installation
  import BootstrapUtils

  const FilesPath := "/data/data/com.octo4a/files"
  const PrefixPath := FilesPath + "/bootstrap"
  const StagingPath := FilesPath + "/bootstrap-staging"

  /** The release fields this file reads. */
  datatype Release = Release(tagName: string, assets: seq<Installation.GithubAsset>)

  /* ---------- pre-Lollipop bootstrap ---------- */

  /** `shouldUsePre5Bootstrap`. */
  predicate ShouldUsePre5Bootstrap(arch: string, sdkInt: int) {
    (arch == "arm" || arch == "i686") && sdkInt < Platform.Lollipop
  }

  /** The pre-Lollipop bootstrap is only chosen on a 32-bit device: either
      `os.arch` says i686, or the device has no 64-bit ABI. */
  lemma Pre5OnlyOn32Bit(osArch: Option<string>, b: Platform.BuildInfo)
    requires Platform.GetArchString(osArch, b).Ok?
    requires ShouldUsePre5Bootstrap(Platform.GetArchString(osArch, b).value, b.sdkInt)
    ensures osArch == Some("i686") || !Platform.Is64Bit(b)
    ensures b.sdkInt < Platform.Lollipop
  {
  }

  /* ---------- release selection ---------- */

  predicate HasArchAsset(release: Release, arch: string) {
    exists k :: 0 <= k < |release.assets| && Installation.ForArch(arch)(release.assets[k])
  }

  function HasArchAssetFor(arch: string): Release -> bool {
    (r: Release) => HasArchAsset(r, arch)
  }

  /** The release and asset `setupBootstrap` downloads: the first release
      that has an asset for `arch`, and its first such asset. With none,
      `asset!!` throws. */
  function SelectAsset(releases: seq<Release>, arch: string): (r: Result<(Release, Installation.GithubAsset), string>)
    ensures r.Err? <==> forall i :: 0 <= i < |releases| ==> !HasArchAsset(releases[i], arch)
    ensures r.Ok? ==>
      exists i ::
        && 0 <= i < |releases| && releases[i] == r.value.0 && HasArchAsset(releases[i], arch)
        && forall j :: 0 <= j < i ==> !HasArchAsset(releases[j], arch)
    ensures r.Ok? ==>
      exists k ::
        && 0 <= k < |r.value.0.assets| && r.value.0.assets[k] == r.value.1
        && Installation.ForArch(arch)(r.value.1)
        && forall j :: 0 <= j < k ==> !Installation.ForArch(arch)(r.value.0.assets[j])
  {
    match FirstIndex(releases, HasArchAssetFor(arch))
    case None => Err("NullPointerException")
    case Some(i) =>
      var release := releases[i];
      match FirstIndex(release.assets, Installation.ForArch(arch))
      case None => assert false; Err("NullPointerException")
      case Some(k) => Ok((release, release.assets[k]))
  }

  /* ---------- runCommand ---------- */

  /** What `ProcessBuilder` is given before `start()`. */
  datatype ProcessSpec = ProcessSpec(
    command: seq<string>,
    directory: string,
    environment: map<string, string>)

  const Environment: map<string, string> := map[
    "HOME" := PrefixPath,
    "LANG" := "'en_US.UTF-8'",
    "PWD" := PrefixPath,
    "EXTRA_BIND" := "-b /data/data/com.octo4a/files/serialpipe:/dev/ttyOcto4a -b /data/data/com.octo4a/files/bootstrap/ioctlHook.so:/home/octoprint/ioctlHook.so",
    "PATH" := "/sbin:/system/sbin:/product/bin:/apex/com.android.runtime/bin:/system/bin:/system/xbin:/odm/bin:/vendor/bin:/vendor/xbin"]

  function User(root: bool): string {
    if root then "root" else "octoprint"
  }

  /** `runCommand`: inside proot the command runs through run-bootstrap.sh
      as the chosen user, otherwise directly through `sh -c`. */
  function RunCommand(command: string, prooted: bool, root: bool): (r: ProcessSpec)
    ensures |r.command| >= 3 && r.command[|r.command| - 1] == command && r.command[|r.command| - 2] == "-c"
    ensures prooted <==> |r.command| == 6
    ensures prooted ==> r.command[..2] == ["sh", "run-bootstrap.sh"] && r.command[3] == "/bin/sh"
    ensures prooted ==> (r.command[2] == "root" <==> root) && r.command[2] in {"root", "octoprint"}
    ensures !prooted ==> r.command[0] == "sh"
    ensures r.directory == PrefixPath
    ensures "HOME" in r.environment && r.environment["HOME"] == PrefixPath
    ensures "PWD" in r.environment && r.environment["PWD"] == PrefixPath
  {
    var argv := if prooted then ["sh", "run-bootstrap.sh", User(root), "/bin/sh", "-c", command]
                else ["sh", "-c", command];
    ProcessSpec(argv, PrefixPath, Environment)
  }

  /** A set-up step: the command line and whether it runs inside proot
      (always as root). */
  datatype Command = Command(line: string, prooted: bool)

  /** What `runCommand` is given for a set-up step. */
  function SpecOf(c: Command): ProcessSpec {
    RunCommand(c.line, c.prooted, true)
  }

  /* ---------- setupBootstrap ---------- */

  datatype Effect =
    | DeletedPath(path: string)
    | Download(url: string)
    | RenameStaging
    | Start(process: ProcessSpec)

  datatype Outcome = Outcome(effects: seq<Effect>, error: Option<string>)

  /** The command that swaps in the pre-Lollipop root file system. */
  const Pre5Swap: string := "rm -r root && mv root-pre5 root"

  /** The commands run after the archive is in place, in order. */
  function SetupCommands(pre5: bool): (r: seq<Command>)
    ensures |r| == (if pre5 then 9 else 8)
    ensures r[0] == Command("ls", false) && r[1] == Command("chmod -R 700 .", false)
    ensures pre5 ==> r[2] == Command(Pre5Swap, false)
    ensures forall k :: 0 <= k < |r| ==> (r[k].prooted <==> k >= |r| - 4)
  {
    [Command("ls", false), Command("chmod -R 700 .", false)]
    + (if pre5 then [Command(Pre5Swap, false)] else [])
    + [Command("sh install-bootstrap.sh", false), Command("sh add-user.sh octoprint", false),
       Command("cat /etc/motd", true), Command("apk add openssh-server bash", true),
       Command("echo \"PermitRootLogin yes\" >> /etc/ssh/sshd_config", true), Command("ssh-keygen -A", true)]
  }

  /** The swap runs exactly when the pre-Lollipop bootstrap is used: no
      other command of the set-up is that one. */
  lemma SwapExactlyOnPre5(pre5: bool)
    ensures (exists k :: 0 <= k < |SetupCommands(pre5)| && SetupCommands(pre5)[k].line == Pre5Swap) <==> pre5
  {
    var r := SetupCommands(pre5);
    if pre5 {
      assert r[2].line == Pre5Swap;
    } else {
      forall k | 0 <= k < |r|
        ensures r[k].line != Pre5Swap
      {
        assert |r[k].line| != |Pre5Swap|;
      }
    }
  }

  /** Each step is started in turn. */
  function Starts(cs: seq<Command>): (r: seq<Effect>)
    ensures |r| == |cs| && forall k :: 0 <= k < |r| ==> r[k] == Start(SpecOf(cs[k]))
  {
    seq(|cs|, k requires 0 <= k < |cs| => Start(SpecOf(cs[k])))
  }

  /** The part of `setupBootstrap` after the asset is known: download and
      unpack, rename the staging directory, run the setup commands. The
      exception thrown while downloading or unpacking, if any, is passed
      on as it is. */
  function Install(before: seq<Effect>, url: string, unpackError: Option<string>, renameOk: bool, pre5: bool): (r: Outcome)
    ensures |r.effects| > |before| && r.effects[..|before|] == before && r.effects[|before|] == Download(url)
    ensures r.error.None? <==> unpackError.None? && renameOk
    ensures unpackError.Some? ==> r.error == unpackError
    ensures unpackError.None? && !renameOk ==> r.error == Some("Unable to rename staging folder")
    ensures r.error.None? ==>
      && |r.effects| > |before| + 1 && r.effects[|before| + 1] == RenameStaging
      && r.effects[|before| + 2..] == Starts(SetupCommands(pre5))
    ensures r.error.Some? ==> |r.effects| == |before| + 1
  {
    var fetchedArchive := before + [Download(url)];
    if unpackError.Some? then Outcome(fetchedArchive, unpackError)
    else if !renameOk then Outcome(fetchedArchive, Some("Unable to rename staging folder"))
    else
      var commands := Starts(SetupCommands(pre5));
      var effects := fetchedArchive + [RenameStaging] + commands;
      assert effects[|before| + 2..] == commands;
      Outcome(effects, None)
  }

  function DeletedPaths(paths: seq<string>): (r: seq<Effect>)
    ensures |r| == |paths| && forall k :: 0 <= k < |r| ==> r[k] == DeletedPath(paths[k])
  {
    seq(|paths|, k requires 0 <= k < |paths| => DeletedPath(paths[k]))
  }

  /** `setupBootstrap`, given whether the prefix directory exists, the
      releases the request returned, `getArchString`, the SDK level, the
      staging directory left by an earlier run, the exception, if any, of
      the download and unpacking and whether the rename succeeds.
      Exceptions end the run and are passed on. */
  function SetupBootstrap(prefixIsDirectory: bool, fetched: Result<seq<Release>, string>,
                          arch: Result<string, string>, sdkInt: int,
                          staging: Option<BootstrapUtils.Node>, unpackError: Option<string>, renameOk: bool): (r: Outcome)
    ensures prefixIsDirectory ==> r == Outcome([], None)
    ensures !prefixIsDirectory && (fetched.Err? || arch.Err?) ==> r.effects == [] && r.error.Some?
    ensures r.error.None? && !prefixIsDirectory ==> fetched.Ok? && arch.Ok? && SelectAsset(fetched.value, arch.value).Ok?
    ensures !prefixIsDirectory && fetched.Ok? && arch.Ok? && BootstrapUtils.ClearStaging(staging).error.Some? ==>
      && r.error == BootstrapUtils.ClearStaging(staging).error
      && forall x :: x in r.effects ==> x.DeletedPath?
  {
    if prefixIsDirectory then Outcome([], None)
    else
      match fetched
      case Err(e) => Outcome([], Some(e))
      case Ok(releases) =>
        match arch
        case Err(e) => Outcome([], Some(e))
        case Ok(a) =>
          var cleared := BootstrapUtils.ClearStaging(staging);
          if cleared.error.Some? then Outcome(DeletedPaths(cleared.deleted), cleared.error)
          else
            match SelectAsset(releases, a)
            case Err(e) => Outcome(DeletedPaths(cleared.deleted), Some(e))
            case Ok((_, asset)) =>
              var before := DeletedPaths(cleared.deleted);
              Install(before, asset.browserDownloadUrl, unpackError, renameOk, ShouldUsePre5Bootstrap(a, sdkInt))
  }

  /** No set-up command is started by a run that fails. */
  lemma FailureStartsNothing(prefixIsDirectory: bool, fetched: Result<seq<Release>, string>,
                             arch: Result<string, string>, sdkInt: int,
                             staging: Option<BootstrapUtils.Node>, unpackError: Option<string>, renameOk: bool)
    requires SetupBootstrap(prefixIsDirectory, fetched, arch, sdkInt, staging, unpackError, renameOk).error.Some?
    ensures var r := SetupBootstrap(prefixIsDirectory, fetched, arch, sdkInt, staging, unpackError, renameOk);
      forall k :: 0 <= k < |r.effects| ==> !r.effects[k].Start?
  {
    if !prefixIsDirectory && fetched.Ok? && arch.Ok? {
      var cleared := BootstrapUtils.ClearStaging(staging);
      if cleared.error.None? && SelectAsset(fetched.value, arch.value).Ok? {
        InstallFailureStartsNothing(DeletedPaths(cleared.deleted), SelectAsset(fetched.value, arch.value).value.1.browserDownloadUrl,
                                    unpackError, renameOk, ShouldUsePre5Bootstrap(arch.value, sdkInt));
      }
    }
  }

  lemma InstallFailureStartsNothing(before: seq<Effect>, url: string, unpackError: Option<string>, renameOk: bool, pre5: bool)
    requires forall k :: 0 <= k < |before| ==> !before[k].Start?
    requires Install(before, url, unpackError, renameOk, pre5).error.Some?
    ensures forall k :: 0 <= k < |Install(before, url, unpackError, renameOk, pre5).effects|
                     ==> !Install(before, url, unpackError, renameOk, pre5).effects[k].Start?
  {
    assert Install(before, url, unpackError, renameOk, pre5).effects == before + [Download(url)];
  }

  /** A successful run has downloaded the asset for the architecture and
      renamed the staging folder right before the set-up commands. */
  lemma SetupBootstrapSucceeded(fetched: Result<seq<Release>, string>, arch: Result<string, string>, sdkInt: int,
                                staging: Option<BootstrapUtils.Node>, unpackError: Option<string>, renameOk: bool)
    requires SetupBootstrap(false, fetched, arch, sdkInt, staging, unpackError, renameOk).error.None?
    ensures fetched.Ok? && arch.Ok? && SelectAsset(fetched.value, arch.value).Ok?
    ensures var r := SetupBootstrap(false, fetched, arch, sdkInt, staging, unpackError, renameOk);
      && Download(SelectAsset(fetched.value, arch.value).value.1.browserDownloadUrl) in r.effects
      && exists k ::
           && 0 <= k < |r.effects| && r.effects[k] == RenameStaging
           && r.effects[k + 1..] == Starts(SetupCommands(ShouldUsePre5Bootstrap(arch.value, sdkInt)))
  {
    var r := SetupBootstrap(false, fetched, arch, sdkInt, staging, unpackError, renameOk);
    var paths := BootstrapUtils.ClearStaging(staging).deleted;
    var before := DeletedPaths(paths);
    var url := SelectAsset(fetched.value, arch.value).value.1.browserDownloadUrl;
    assert r == Install(before, url, unpackError, renameOk, ShouldUsePre5Bootstrap(arch.value, sdkInt));
    assert r.effects[|before|] == Download(url);
    assert r.effects[|before| + 1] == RenameStaging;
  }

  /** Without an asset for the architecture nothing is downloaded: the
      left-over staging directory is still removed, then `asset!!` throws. */
  lemma NoAssetNoDownload(releases: seq<Release>, arch: string, sdkInt: int,
                          staging: Option<BootstrapUtils.Node>, unpackError: Option<string>, renameOk: bool)
    requires forall i :: 0 <= i < |releases| ==> !HasArchAsset(releases[i], arch)
    requires staging.Some? ==> BootstrapUtils.AllDeletable(staging.value)
    ensures var r := SetupBootstrap(false, Ok(releases), Ok(arch), sdkInt, staging, unpackError, renameOk);
      r.error == Some("NullPointerException") && forall x :: x in r.effects ==> x.DeletedPath?
  {
  }
}
