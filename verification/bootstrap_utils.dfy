/** `BootstrapUtils.kt`: unpacking a bootstrap archive into a staging
    directory, recreating the symbolic links listed in its SYMLINKS.txt,
    and moving the result into place; the recursive folder deletion that
    does not follow symbolic links; and the shell command line.

    The archive is a sequence of entries; downloading, writing files,
    creating directories and links are effects in a trace. */
module BootstrapUtils {
  import opened Wrappers
  import opened Text
  import opened Lists

  const FilesPath := "/data/data/com.octo4a/files"
  const PrefixPath := FilesPath + "/usr"
  const HomePath := FilesPath + "/home"
  const StagingPath := FilesPath + "/usr-staging"

  /** The separator of a SYMLINKS.txt line, U+2190 LEFTWARDS ARROW. */
  const Arrow: char := '\U{2190}'

  /** The mode given to executables: 448 is octal 0700, owner only. */
  const ExecutableMode := 448

  /* ---------- deleteFolder ---------- */

  /** A file as `deleteFolder` sees it. `children` is what `listFiles`
      returns for it (nothing for a file or on an I/O error); `deletable`
      is whether `delete()` succeeds once its children are gone. */
  datatype Node = Node(
    absolutePath: string,
    canonicalPath: string,
    isDirectory: bool,
    children: seq<Node>,
    deletable: bool)

  /** A directory reached without following a symbolic link. */
  predicate IsRealDirectory(n: Node) {
    n.canonicalPath == n.absolutePath && n.isDirectory
  }

  /** Every node whose deletion `deleteFolder(n)` attempts can be deleted. */
  predicate AllDeletable(n: Node)
    decreases n
  {
    n.deletable && (IsRealDirectory(n) ==> forall i :: 0 <= i < |n.children| ==> AllDeletable(n.children[i]))
  }

  /** `p` is `n` itself or lies below it through real directories only. */
  predicate Below(n: Node, p: string)
    decreases n
  {
    p == n.absolutePath
    || (IsRealDirectory(n) && exists i :: 0 <= i < |n.children| && Below(n.children[i], p))
  }

  function DeleteError(n: Node): string {
    "Unable to delete " + (if n.isDirectory then "directory " else "file ") + n.absolutePath
  }

  /** What a deletion did: the paths deleted, in order, and the exception
      that stopped it, if any. */
  datatype Deletion = Deletion(deleted: seq<string>, error: Option<string>)

  /** `deleteFolder`: the paths deleted, children before their parent, and
      the exception of the first deletion that failed, with the deletions
      made before it. */
  function DeleteFolder(n: Node): (r: Deletion)
    ensures r.error.None? <==> AllDeletable(n)
    ensures forall k :: 0 <= k < |r.deleted| ==> Below(n, r.deleted[k])
    ensures r.error.None? ==> forall p :: Below(n, p) ==> p in r.deleted
    ensures r.error.None? ==> |r.deleted| > 0 && r.deleted[|r.deleted| - 1] == n.absolutePath
    ensures IsRealDirectory(n) ==>
      forall k :: 0 <= k < |r.deleted| && (r.error.Some? || k < |r.deleted| - 1) ==>
        exists i :: 0 <= i < |n.children| && Below(n.children[i], r.deleted[k])
    ensures !IsRealDirectory(n) ==> r == (if n.deletable then Deletion([n.absolutePath], None) else Deletion([], Some(DeleteError(n))))
    decreases n, 1
  {
    if !IsRealDirectory(n) then
      if n.deletable then Deletion([n.absolutePath], None) else Deletion([], Some(DeleteError(n)))
    else
      var contents := DeleteAll(n, 0);
      if contents.error.Some? then contents
      else if n.deletable then Deletion(contents.deleted + [n.absolutePath], None)
      else Deletion(contents.deleted, Some(DeleteError(n)))
  }

  /** The loop over the children of `parent` from index `i` on. */
  function DeleteAll(parent: Node, i: nat): (r: Deletion)
    requires i <= |parent.children|
    ensures r.error.None? <==> forall j :: i <= j < |parent.children| ==> AllDeletable(parent.children[j])
    ensures forall k :: 0 <= k < |r.deleted| ==>
      exists j :: i <= j < |parent.children| && Below(parent.children[j], r.deleted[k])
    ensures r.error.None? ==>
      forall j, p :: i <= j < |parent.children| && Below(parent.children[j], p) ==> p in r.deleted
    decreases parent, 0, |parent.children| - i
  {
    if i == |parent.children| then Deletion([], None)
    else
      var first := DeleteFolder(parent.children[i]);
      if first.error.Some? then first
      else
        var rest := DeleteAll(parent, i + 1);
        Deletion(first.deleted + rest.deleted, rest.error)
  }

  /** Clearing the staging directory left by an earlier run, if any. */
  function ClearStaging(staging: Option<Node>): (r: Deletion)
    ensures staging.None? ==> r == Deletion([], None)
    ensures staging.Some? ==> r == DeleteFolder(staging.value)
  {
    if staging.Some? then DeleteFolder(staging.value) else Deletion([], None)
  }

  /** A symbolic link to a directory is deleted as a link: nothing behind
      it is touched. */
  lemma DeleteDoesNotFollowLinks(n: Node)
    requires n.isDirectory && n.canonicalPath != n.absolutePath && n.deletable
    ensures DeleteFolder(n) == Deletion([n.absolutePath], None)
  {
  }

  /* ---------- SYMLINKS.txt ---------- */

  /** `line.split("←".toRegex()).dropLastWhile { it.isEmpty() }`. */
  function SymlinkParts(line: string): seq<string> {
    DropTrailingEmpty(Split(line, Arrow))
  }

  /** Where a link listed as `entry` is created: under the staging
      directory, with every "./" removed from the whole path. */
  function LinkPath(entry: string): string {
    ReplaceAll(StagingPath + "/" + entry, "./", "")
  }

  /** One line: the link target and the link path, or the exception for a
      line that does not have exactly two parts. */
  function ParseSymlinkLine(line: string): (r: Result<(string, string), string>)
    ensures r.Err? <==> |SymlinkParts(line)| != 2
    ensures r.Err? ==> r.error == "Malformed symlink line: " + line
    ensures r.Ok? ==> Arrow !in r.value.0 && r.value.0 == SymlinkParts(line)[0]
    ensures r.Ok? ==> r.value.1 == LinkPath(SymlinkParts(line)[1])
  {
    var parts := SymlinkParts(line);
    if |parts| != 2 then Err("Malformed symlink line: " + line)
    else Ok((parts[0], LinkPath(parts[1])))
  }

  /** A line "target←entry" with a non-empty entry reads back as its two
      halves. */
  lemma ParseSymlinkLineOf(target: string, entry: string)
    requires Arrow !in target && Arrow !in entry && |entry| > 0
    ensures ParseSymlinkLine(target + [Arrow] + entry) == Ok((target, LinkPath(entry)))
  {
    SplitAt(target, Arrow, entry);
    SplitNoSep(entry, Arrow);
  }

  /** A line without an arrow is malformed. */
  lemma LineWithoutArrow(line: string)
    requires Arrow !in line
    ensures ParseSymlinkLine(line).Err?
  {
    SplitNoSep(line, Arrow);
  }

  /** The staging prefix holds no "./", so the removal only touches the
      entry part of a link path. */
  lemma LinkPathKeepsStaging(entry: string)
    ensures LinkPath(entry) == StagingPath + "/" + ReplaceAll(entry, "./", "")
  {
    var pre := StagingPath + "/";
    assert pre == "/data/data/com.octo4a/files/usr-staging/";
    ReplaceAllSkips(pre, entry, "./", "");
  }

  /** `ReplaceAll` of a two-element pattern passes over a prefix in which
      no match starts. */
  lemma {:induction false} ReplaceAllSkips(a: string, b: string, pat: string, rep: string)
    requires |pat| == 2
    requires forall i :: 0 <= i < |a| - 1 ==> !(a[i] == pat[0] && a[i + 1] == pat[1])
    requires |a| > 0 ==> a[|a| - 1] != pat[0]
    ensures ReplaceAll(a + b, pat, rep) == a + ReplaceAll(b, pat, rep)
    decreases |a|
  {
    if |a| > 0 {
      var s := a + b;
      var t := a[1..];
      assert s[1..] == t + b;
      forall i | 0 <= i < |t| - 1
        ensures !(t[i] == pat[0] && t[i + 1] == pat[1])
      {
        assert t[i] == a[i + 1] && t[i + 1] == a[i + 2];
      }
      ReplaceAllSkips(t, b, pat, rep);
      if |s| >= 2 {
        assert s[..2][0] == a[0];
        if |a| >= 2 {
          assert s[..2][1] == a[1];
        }
      }
      ReplaceAllStep(s, pat, rep);
      assert [a[0]] + t == a;
    } else {
      assert a + b == b;
    }
  }

  /** Where no match starts, `ReplaceAll` keeps the first element and goes
      on with the rest. */
  lemma ReplaceAllStep(s: string, pat: string, rep: string)
    requires |pat| > 0 && |s| > 0
    requires !(|s| >= |pat| && s[..|pat|] == pat)
    ensures ReplaceAll(s, pat, rep) == [s[0]] + ReplaceAll(s[1..], pat, rep)
  {
    if |s| < |pat| {
      assert [s[0]] + s[1..] == s;
    }
  }

  /* ---------- extraction ---------- */

  /** Files under these prefixes are made executable. */
  predicate IsExecutableEntry(name: string) {
    StartsWith(name, "bin/") || StartsWith(name, "libexec") || StartsWith(name, "lib/apt/methods")
  }

  /** `File(path).parentFile`: the path up to its last "/". */
  function Parent(path: string): string {
    match LastIndexOf(path, '/')
    case None => ""
    case Some(i) => path[..i]
  }

  /** An archive entry; `lines` is the text of SYMLINKS.txt and is only
      read for that entry. */
  datatype ZipEntry = ZipEntry(name: string, isDirectory: bool, lines: seq<string>)

  datatype Effect =
    | DeletedPath(path: string)
    | EnsureDirectory(path: string)
    | WriteFile(path: string)
    | Chmod(path: string, mode: int)
    | Symlink(target: string, link: string)
    | RenameStaging
    | WhenDone

  function EntryPath(name: string): string {
    StagingPath + "/" + name
  }

  /** The effects of unpacking one ordinary entry. */
  function FileEffects(e: ZipEntry): (r: seq<Effect>)
    ensures forall k :: 0 <= k < |r| ==> !r[k].Symlink? && !r[k].WhenDone? && !r[k].RenameStaging?
    ensures Chmod(EntryPath(e.name), ExecutableMode) in r <==> !e.isDirectory && IsExecutableEntry(e.name)
    ensures forall x :: x in r && x.Chmod? ==> x == Chmod(EntryPath(e.name), ExecutableMode)
  {
    var target := EntryPath(e.name);
    if e.isDirectory then [EnsureDirectory(target)]
    else
      [EnsureDirectory(Parent(target)), WriteFile(target)]
      + (if IsExecutableEntry(e.name) then [Chmod(target, ExecutableMode)] else [])
  }

  /** The lines of SYMLINKS.txt from index `i` on, each parsed with
      `parse` and then given the directory its link goes in: the links
      recorded, the directories made for them, in order, and the exception
      of the first line that does not parse, if any, which stops the
      reading. */
  function ReadLinks(parse: string -> Result<(string, string), string>, lines: seq<string>, i: nat)
    : (r: (seq<(string, string)>, seq<Effect>, Option<string>))
    requires i <= |lines|
    ensures |r.1| == |r.0| <= |lines| - i
    ensures forall k :: 0 <= k < |r.1| ==> r.1[k] == EnsureDirectory(Parent(r.0[k].1))
    ensures forall k :: 0 <= k < |r.0| ==> parse(lines[i + k]) == Ok(r.0[k])
    ensures r.2.None? <==> forall j :: i <= j < |lines| ==> parse(lines[j]).Ok?
    ensures r.2.None? ==> |r.0| == |lines| - i
    ensures r.2.Some? ==>
      && i + |r.0| < |lines| && parse(lines[i + |r.0|]).Err?
      && r.2 == Some(parse(lines[i + |r.0|]).error)
    decreases |lines| - i
  {
    if i == |lines| then ([], [], None)
    else
      match parse(lines[i])
      case Err(e) => ([], [], Some(e))
      case Ok(link) =>
        var rest := ReadLinks(parse, lines, i + 1);
        ([link] + rest.0, [EnsureDirectory(Parent(link.1))] + rest.1, rest.2)
  }

  /** Reading SYMLINKS.txt line by line: a line's directory is made before
      the next line is read, so a malformed line stops the reading after
      the directories of the lines before it. */
  function ReadSymlinks(lines: seq<string>): (r: (seq<(string, string)>, seq<Effect>, Option<string>))
    ensures |r.1| == |r.0| <= |lines|
    ensures forall k :: 0 <= k < |r.1| ==> r.1[k] == EnsureDirectory(Parent(r.0[k].1))
    ensures r.2.None? ==> |r.0| == |lines|
  {
    ReadLinks(ParseSymlinkLine, lines, 0)
  }

  /** Reading SYMLINKS.txt succeeds exactly when every line parses; each
      link recorded is its line's, and a failed reading stops at the first
      malformed line, with that line's exception. */
  lemma ReadSymlinksStopsAtMalformed(lines: seq<string>)
    ensures var r := ReadSymlinks(lines);
      && (forall k :: 0 <= k < |r.0| ==> ParseSymlinkLine(lines[k]) == Ok(r.0[k]))
      && (r.2.None? <==> forall j :: 0 <= j < |lines| ==> ParseSymlinkLine(lines[j]).Ok?)
      && (r.2.Some? ==>
            && |r.0| < |lines| && ParseSymlinkLine(lines[|r.0|]).Err?
            && r.2 == Some(ParseSymlinkLine(lines[|r.0|]).error))
  {
    var r := ReadLinks(ParseSymlinkLine, lines, 0);
    assert ReadSymlinks(lines) == r;
  }

  /** The archive loop from entry `i` on: the links collected and the
      effects, and the exception, if any, that stopped it after those
      effects. */
  function Unpack(entries: seq<ZipEntry>, i: nat): (r: (seq<(string, string)>, seq<Effect>, Option<string>))
    requires i <= |entries|
    ensures forall k :: 0 <= k < |r.1| ==> !r.1[k].Symlink? && !r.1[k].WhenDone? && !r.1[k].RenameStaging?
    ensures forall x :: x in r.1 && x.Chmod? ==>
      && x.mode == ExecutableMode
      && exists j :: i <= j < |entries| && !entries[j].isDirectory && entries[j].name != "SYMLINKS.txt"
                     && IsExecutableEntry(entries[j].name) && x.path == EntryPath(entries[j].name)
    ensures r.2.None? && |r.0| == 0 ==>
      forall j :: i <= j < |entries| && entries[j].name == "SYMLINKS.txt" ==> |entries[j].lines| == 0
    decreases |entries| - i
  {
    if i == |entries| then ([], [], None)
    else
      var e := entries[i];
      if e.name == "SYMLINKS.txt" then
        var (links, effects, err) := ReadSymlinks(e.lines);
        if err.Some? then (links, effects, err)
        else
          var (moreLinks, moreEffects, moreErr) := Unpack(entries, i + 1);
          (links + moreLinks, effects + moreEffects, moreErr)
      else
        var (links, effects, err) := Unpack(entries, i + 1);
        (links, FileEffects(e) + effects, err)
  }

  function SymlinkEffects(links: seq<(string, string)>): (r: seq<Effect>)
    ensures |r| == |links|
    ensures forall k :: 0 <= k < |r| ==> r[k] == Symlink(links[k].0, links[k].1)
  {
    seq(|links|, k requires 0 <= k < |links| => Symlink(links[k].0, links[k].1))
  }

  /** The outcome of a run: what happened, and the exception, if any, that
      ended it. */
  datatype Outcome = Outcome(effects: seq<Effect>, error: Option<string>)

  /** `setupBootstrap` when every file operation succeeds, given whether
      the prefix directory exists, the staging directory left by an earlier
      run if any, the archive's entries and whether the final rename
      succeeds: the effects in the order the source performs them, then
      the exception that ends the run, if any. */
  function SetupPlan(prefixIsDirectory: bool, staging: Option<Node>, entries: seq<ZipEntry>, renameOk: bool)
    : (r: Outcome)
    ensures prefixIsDirectory ==> r == Outcome([WhenDone], None)
    ensures r.error.None? <==> WhenDone in r.effects
    ensures r.error.None? ==> r.effects[|r.effects| - 1] == WhenDone
    ensures !prefixIsDirectory && r.error.None? ==> RenameStaging in r.effects && renameOk
    ensures forall k :: 0 <= k < |r.effects| - 1 ==> r.effects[k] != WhenDone
  {
    if prefixIsDirectory then Outcome([WhenDone], None)
    else
      var deleted := ClearStaging(staging);
      if deleted.error.Some? then Outcome(DeletedEffects(deleted.deleted), deleted.error)
      else
        var cleared := DeletedEffects(deleted.deleted);
        var (links, effects, err) := Unpack(entries, 0);
        if err.Some? then Outcome(cleared + effects, err)
        else if |links| == 0 then Outcome(cleared + effects, Some("No SYMLINKS.txt encountered"))
        else if !renameOk then Outcome(cleared + effects + SymlinkEffects(links), Some("Unable to rename staging folder"))
        else Outcome(cleared + effects + SymlinkEffects(links) + [RenameStaging, WhenDone], None)
  }

  /* ---------- failures of the file operations ---------- */

  /** The failures of the operations `setupBootstrap` performs: opening the
      archive's URL, `ensureDirectoryExists` (the path is not a directory
      and `mkdirs` fails), writing an entry's file, `Os.chmod` and
      `Os.symlink`, each with the exception it throws. */
  datatype IoFaults = IoFaults(
    openError: Option<string>,
    cannotCreate: string -> bool,
    writeError: string -> Option<string>,
    chmodError: string -> Option<string>,
    symlinkError: (string, string) -> Option<string>)

  function CreateFailed(path: string): string {
    "Unable to create directory: " + path
  }

  /** The exception an effect throws, if any. Deletions and the rename are
      covered by `DeleteFolder` and the rename flag; `whenDone` is the
      caller's. */
  function EffectError(x: Effect, io: IoFaults): (e: Option<string>)
    ensures x.DeletedPath? || x.RenameStaging? || x.WhenDone? ==> e.None?
    ensures x.EnsureDirectory? ==> (e.Some? <==> io.cannotCreate(x.path))
    ensures x.EnsureDirectory? && e.Some? ==> e.value == CreateFailed(x.path)
  {
    match x
    case EnsureDirectory(p) => if io.cannotCreate(p) then Some(CreateFailed(p)) else None
    case WriteFile(p) => io.writeError(p)
    case Chmod(p, _) => io.chmodError(p)
    case Symlink(t, l) => io.symlinkError(t, l)
    case _ => None
  }

  /** Performing effects in order until one throws: what was done, and the
      exception. */
  function Perform(plan: seq<Effect>, io: IoFaults): (r: Outcome)
    ensures |r.effects| <= |plan| && r.effects == plan[..|r.effects|]
    ensures forall k :: 0 <= k < |r.effects| ==> EffectError(plan[k], io).None?
    ensures r.error.None? <==> forall k :: 0 <= k < |plan| ==> EffectError(plan[k], io).None?
    ensures r.error.None? ==> r.effects == plan
    ensures r.error.Some? ==> |r.effects| < |plan| && r.error == EffectError(plan[|r.effects|], io)
  {
    if |plan| == 0 then Outcome([], None)
    else
      match EffectError(plan[0], io)
      case Some(e) => Outcome([], Some(e))
      case None =>
        var rest := Perform(plan[1..], io);
        assert forall k :: 1 <= k < |plan| ==> plan[1..][k - 1] == plan[k];
        Outcome([plan[0]] + rest.effects, rest.error)
  }

  /** `setupBootstrap`: the run of `SetupPlan` cut short by the first
      failing file operation, or by the archive's URL failing to open
      right after the staging directory is cleared. */
  function SetupBootstrap(prefixIsDirectory: bool, staging: Option<Node>, entries: seq<ZipEntry>, renameOk: bool, io: IoFaults)
    : (r: Outcome)
    ensures prefixIsDirectory ==> r == Outcome([WhenDone], None)
    ensures var plan := SetupPlan(prefixIsDirectory, staging, entries, renameOk);
      && |r.effects| <= |plan.effects| && r.effects == plan.effects[..|r.effects|]
      && (forall k :: 0 <= k < |r.effects| ==> EffectError(r.effects[k], io).None?)
      && (r.error.None? ==> r == plan)
      && (r != plan ==>
            || r.error == io.openError
            || (|r.effects| < |plan.effects| && r.error == EffectError(plan.effects[|r.effects|], io)))
  {
    var plan := SetupPlan(prefixIsDirectory, staging, entries, renameOk);
    if prefixIsDirectory then plan
    else
      var deleted := ClearStaging(staging);
      if deleted.error.Some? then plan
      else if io.openError.Some? then
        ClearedFirst(staging, entries, renameOk, deleted.deleted);
        Outcome(DeletedEffects(deleted.deleted), io.openError)
      else
        var done := Perform(plan.effects, io);
        if done.error.None? then plan
        else
          done
  }

  /** A planned run that clears the staging directory starts with the
      deletions, none of which can fail. */
  lemma ClearedFirst(staging: Option<Node>, entries: seq<ZipEntry>, renameOk: bool, paths: seq<string>)
    requires ClearStaging(staging) == Deletion(paths, None)
    ensures var plan := SetupPlan(false, staging, entries, renameOk);
      && |DeletedEffects(paths)| <= |plan.effects|
      && plan.effects[..|DeletedEffects(paths)|] == DeletedEffects(paths)
    ensures forall k, io: IoFaults :: 0 <= k < |DeletedEffects(paths)| ==> EffectError(DeletedEffects(paths)[k], io) == None
  {
    var cleared := DeletedEffects(paths);
    var plan := SetupPlan(false, staging, entries, renameOk);
    assert plan.effects[..|cleared|] == cleared;
  }

  /** `whenDone` is called exactly when the run ends without an exception,
      and as its last effect, after the staging directory was renamed. */
  lemma SetupBootstrapFinishes(prefixIsDirectory: bool, staging: Option<Node>, entries: seq<ZipEntry>, renameOk: bool, io: IoFaults)
    ensures var r := SetupBootstrap(prefixIsDirectory, staging, entries, renameOk, io);
      && (r.error.None? <==> WhenDone in r.effects)
      && (r.error.None? ==> r.effects[|r.effects| - 1] == WhenDone)
      && (!prefixIsDirectory && r.error.None? ==> RenameStaging in r.effects && renameOk)
  {
  }

  /** When the archive opens and no file operation fails, the run is the
      plan. */
  lemma NoFaultsFollowPlan(prefixIsDirectory: bool, staging: Option<Node>, entries: seq<ZipEntry>, renameOk: bool, io: IoFaults)
    requires io.openError.None?
    requires forall x :: x in SetupPlan(prefixIsDirectory, staging, entries, renameOk).effects ==> EffectError(x, io).None?
    ensures SetupBootstrap(prefixIsDirectory, staging, entries, renameOk, io) == SetupPlan(prefixIsDirectory, staging, entries, renameOk)
  {
  }

  /** A failed write of an entry's file stops the run before any link is
      made: the failure is reported and `whenDone` is never called. */
  lemma WriteFailureMakesNoLink(staging: Option<Node>, entries: seq<ZipEntry>, renameOk: bool, io: IoFaults, path: string)
    requires WriteFile(path) in SetupPlan(false, staging, entries, renameOk).effects
    requires io.writeError(path).Some?
    ensures var r := SetupBootstrap(false, staging, entries, renameOk, io);
      && r.error.Some?
      && forall x :: x in r.effects ==> !x.Symlink? && !x.WhenDone?
  {
    var plan := SetupPlan(false, staging, entries, renameOk);
    var r := SetupBootstrap(false, staging, entries, renameOk, io);
    var w :| 0 <= w < |plan.effects| && plan.effects[w] == WriteFile(path);
    LinksAfterPlannedFiles(false, staging, entries, renameOk);
    StopsBeforeFault(plan.effects, r.effects, w, io);
  }

  /** A run cut short before a failing write made no link and did not
      finish, given that the plan links only after its writes and
      finishes last. */
  lemma StopsBeforeFault(plan: seq<Effect>, done: seq<Effect>, w: nat, io: IoFaults)
    requires w < |plan| && plan[w].WriteFile? && EffectError(plan[w], io).Some?
    requires |done| <= |plan| && done == plan[..|done|]
    requires forall k :: 0 <= k < |done| ==> EffectError(done[k], io).None?
    requires forall i, j :: 0 <= i < j < |plan| && plan[j].WriteFile? ==> !plan[i].Symlink?
    requires forall k :: 0 <= k < |plan| - 1 ==> plan[k] != WhenDone
    ensures forall x :: x in done ==> !x.Symlink? && !x.WhenDone?
  {
    forall x | x in done
      ensures !x.Symlink? && !x.WhenDone?
    {
      var k :| 0 <= k < |done| && done[k] == x;
      assert plan[k] == x;
    }
  }

  /** One deletion per path, in order. */
  function DeletedEffects(paths: seq<string>): (r: seq<Effect>)
    ensures |r| == |paths| && forall k :: 0 <= k < |r| ==> r[k].DeletedPath?
  {
    seq(|paths|, k requires 0 <= k < |paths| => DeletedPath(paths[k]))
  }

  /** The effects of a run that got past clearing the staging directory:
      the deletions, the unpacking, then the links and the rename as far
      as the run got. */
  lemma SetupParts(staging: Option<Node>, entries: seq<ZipEntry>, renameOk: bool)
      returns (cleared: seq<Effect>, unpacked: seq<Effect>, links: seq<Effect>, tail: seq<Effect>)
    ensures SetupPlan(false, staging, entries, renameOk).effects == cleared + unpacked + links + tail
    ensures forall k :: 0 <= k < |cleared| ==> cleared[k].DeletedPath?
    ensures unpacked == [] || unpacked == Unpack(entries, 0).1
    ensures forall k :: 0 <= k < |links| ==> links[k].Symlink?
    ensures tail == [] || tail == [RenameStaging, WhenDone]
  {
    var deleted := ClearStaging(staging);
    cleared := DeletedEffects(deleted.deleted);
    var u := Unpack(entries, 0);
    var through := deleted.error.None?;
    unpacked := if through then u.1 else [];
    links := if through && u.2.None? && |u.0| > 0 then SymlinkEffects(u.0) else [];
    tail := if through && u.2.None? && |u.0| > 0 && renameOk then [RenameStaging, WhenDone] else [];
    if !through {
      assert cleared + unpacked + links + tail == cleared;
    } else if u.2.Some? || |u.0| == 0 {
      assert cleared + unpacked + links + tail == cleared + unpacked;
    } else if !renameOk {
      assert cleared + unpacked + links + tail == cleared + unpacked + links;
    }
  }

  /** When no file operation fails, no link is made before the last file
      is written. */
  lemma LinksAfterPlannedFiles(prefixIsDirectory: bool, staging: Option<Node>, entries: seq<ZipEntry>, renameOk: bool)
    ensures var r := SetupPlan(prefixIsDirectory, staging, entries, renameOk);
      forall i, j :: 0 <= i < j < |r.effects| && r.effects[j].WriteFile? ==> !r.effects[i].Symlink?
  {
    if !prefixIsDirectory {
      var cleared, unpacked, links, tail := SetupParts(staging, entries, renameOk);
      NoLinkBeforeWrite(cleared + unpacked, links + tail);
      assert cleared + unpacked + links + tail == (cleared + unpacked) + (links + tail);
    }
  }

  lemma NoLinkBeforeWrite(front: seq<Effect>, back: seq<Effect>)
    requires forall k :: 0 <= k < |front| ==> !front[k].Symlink?
    requires forall k :: 0 <= k < |back| ==> !back[k].WriteFile?
    ensures forall i, j :: 0 <= i < j < |front + back| && (front + back)[j].WriteFile? ==> !(front + back)[i].Symlink?
  {
  }

  /** When no file operation fails, only executable file entries of the
      archive are made executable, always with mode 448. */
  lemma ChmodOnlyPlanned(prefixIsDirectory: bool, staging: Option<Node>, entries: seq<ZipEntry>, renameOk: bool)
    ensures var r := SetupPlan(prefixIsDirectory, staging, entries, renameOk);
      forall x :: x in r.effects && x.Chmod? ==>
        && x.mode == ExecutableMode
        && exists e :: e in entries && !e.isDirectory && IsExecutableEntry(e.name) && x.path == EntryPath(e.name)
  {
    if !prefixIsDirectory {
      var r := SetupPlan(prefixIsDirectory, staging, entries, renameOk);
      var cleared, unpacked, links, tail := SetupParts(staging, entries, renameOk);
      forall x | x in r.effects && x.Chmod?
        ensures x.mode == ExecutableMode
        ensures exists e :: e in entries && !e.isDirectory && IsExecutableEntry(e.name) && x.path == EntryPath(e.name)
      {
        assert x in cleared + unpacked + links + tail;
        assert x in unpacked;
        var j :| 0 <= j < |entries| && !entries[j].isDirectory && entries[j].name != "SYMLINKS.txt"
                 && IsExecutableEntry(entries[j].name) && x.path == EntryPath(entries[j].name);
        assert entries[j] in entries;
      }
    }
  }

  /** No link is made before the last file is written. */
  lemma LinksAfterFiles(prefixIsDirectory: bool, staging: Option<Node>, entries: seq<ZipEntry>, renameOk: bool, io: IoFaults)
    ensures var r := SetupBootstrap(prefixIsDirectory, staging, entries, renameOk, io);
      forall i, j :: 0 <= i < j < |r.effects| && r.effects[j].WriteFile? ==> !r.effects[i].Symlink?
  {
    var plan := SetupPlan(prefixIsDirectory, staging, entries, renameOk);
    var r := SetupBootstrap(prefixIsDirectory, staging, entries, renameOk, io);
    LinksAfterPlannedFiles(prefixIsDirectory, staging, entries, renameOk);
    forall i, j | 0 <= i < j < |r.effects| && r.effects[j].WriteFile?
      ensures !r.effects[i].Symlink?
    {
      assert r.effects[i] == plan.effects[i] && r.effects[j] == plan.effects[j];
    }
  }

  /** Only executable file entries of the archive are made executable, and
      always with mode 448 (octal 0700). */
  lemma ChmodOnlyExecutables(prefixIsDirectory: bool, staging: Option<Node>, entries: seq<ZipEntry>, renameOk: bool, io: IoFaults)
    ensures var r := SetupBootstrap(prefixIsDirectory, staging, entries, renameOk, io);
      forall x :: x in r.effects && x.Chmod? ==>
        && x.mode == ExecutableMode
        && exists e :: e in entries && !e.isDirectory && IsExecutableEntry(e.name) && x.path == EntryPath(e.name)
  {
    var plan := SetupPlan(prefixIsDirectory, staging, entries, renameOk);
    var r := SetupBootstrap(prefixIsDirectory, staging, entries, renameOk, io);
    ChmodOnlyPlanned(prefixIsDirectory, staging, entries, renameOk);
    forall x | x in r.effects && x.Chmod?
      ensures x in plan.effects
    {
      var k :| 0 <= k < |r.effects| && r.effects[k] == x;
      assert plan.effects[k] == x;
    }
  }

  /** An archive without symbolic links fails before any link is made. */
  lemma NoLinksNoSymlinks(staging: Option<Node>, entries: seq<ZipEntry>, renameOk: bool, io: IoFaults)
    requires forall j :: 0 <= j < |entries| ==> entries[j].name != "SYMLINKS.txt"
    ensures var r := SetupBootstrap(false, staging, entries, renameOk, io);
      r.error.Some? && forall x :: x in r.effects ==> !x.Symlink?
  {
    NoLinksPlanned(staging, entries, renameOk);
    var plan := SetupPlan(false, staging, entries, renameOk);
    var r := SetupBootstrap(false, staging, entries, renameOk, io);
    PrefixHasNoLink(plan.effects, r.effects);
  }

  /** When no file operation fails, an archive without symbolic links
      fails before any link is made. */
  lemma NoLinksPlanned(staging: Option<Node>, entries: seq<ZipEntry>, renameOk: bool)
    requires forall j :: 0 <= j < |entries| ==> entries[j].name != "SYMLINKS.txt"
    ensures var r := SetupPlan(false, staging, entries, renameOk);
      r.error.Some? && forall x :: x in r.effects ==> !x.Symlink?
  {
    NoLinksUnpack(entries, 0);
  }

  lemma PrefixHasNoLink(plan: seq<Effect>, done: seq<Effect>)
    requires |done| <= |plan| && done == plan[..|done|]
    requires forall x :: x in plan ==> !x.Symlink?
    ensures forall x :: x in done ==> !x.Symlink?
  {
    forall x | x in done
      ensures !x.Symlink?
    {
      var k :| 0 <= k < |done| && done[k] == x;
      assert plan[k] == x;
    }
  }

  lemma {:induction false} NoLinksUnpack(entries: seq<ZipEntry>, i: nat)
    requires i <= |entries|
    requires forall j :: i <= j < |entries| ==> entries[j].name != "SYMLINKS.txt"
    ensures Unpack(entries, i).0 == [] && Unpack(entries, i).2.None?
    decreases |entries| - i
  {
    if i < |entries| {
      NoLinksUnpack(entries, i + 1);
    }
  }

  /* ---------- runBashCommand ---------- */

  const BashPath := FilesPath + "/usr/bin/bash"
  const HomePrefix := "cd " + HomePath + " && "

  /** `runBashCommand`'s argument vector: bash runs the command from the
      home directory. */
  function RunBashCommand(command: string): (argv: seq<string>)
    ensures |argv| == 3 && argv[0] == BashPath && argv[1] == "-c"
    ensures StartsWith(argv[2], HomePrefix)
  {
    [BashPath, "-c", HomePrefix + command]
  }

  /** The command can be read back from the argument vector unchanged. */
  lemma RunBashCommandKeepsCommand(command: string)
    ensures RemovePrefix(RunBashCommand(command)[2], HomePrefix) == command
  {
    assert (HomePrefix + command)[|HomePrefix|..] == command;
  }

  /* ---------- the download URL ---------- */

  const UrlBase := "https://raw.githubusercontent.com/feelfreelinux/octo4a/master/termux-based-approach/bootstrap-"

  /** The address the archive is downloaded from, as written: the
      architecture-dependent address is computed and then overwritten by a
      fixed aarch64 one. */
  function DownloadUrlAsWritten(osArch: Option<string>): (r: string)
    ensures EndsWith(r, "aarch64.zip")
  {
    "https://transfer.sh/13LGOy/bootstrap-aarch64.zip"
  }

  /** The address the computation before the overwrite selects. */
  function DownloadUrl(osArch: Option<string>): (r: string)
    ensures osArch == Some("aarch64") ==> EndsWith(r, "aarch64.zip")
    ensures osArch != Some("aarch64") ==> EndsWith(r, "arm.zip")
  {
    UrlBase + (if osArch == Some("aarch64") then "aarch64.zip" else "arm.zip")
  }

  /** On a 32-bit ARM device the archive as written is still the aarch64
      one, while the intended address names the arm archive. */
  lemma ArmGetsAarch64Archive()
    ensures EndsWith(DownloadUrlAsWritten(Some("armv7l")), "aarch64.zip")
    ensures !EndsWith(DownloadUrl(Some("armv7l")), "aarch64.zip")
  {
    var u := DownloadUrl(Some("armv7l"));
    assert u[|u| - 11..] != "aarch64.zip" by {
      assert u[|u| - 7] == 'a' && "aarch64.zip"[4] == 'h';
      assert u[|u| - 11..][4] == u[|u| - 7];
    }
  }
}
