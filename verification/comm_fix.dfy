/** `scripts/comm-fix.py`: the serial-port list OctoPrint 1.8 tries, as
    the plugin's replacement `patchedSerialList` builds it. The candidate
    list is: the platform's ports, then the glob results of the
    configured additional ports, then what each port-name hook adds; then
    every blacklisted pattern is filtered out, and the last used port is
    moved to the front.

    The registry, the `/dev` listing, `glob`, `fnmatch`, the settings and
    the hooks are parameters. */
module CommFix {
  import opened Wrappers
  import opened Text
  import opened Lists

  /** A port-name hook: given the candidates so far it returns more names,
      or raises (`None`). */
  type Hook = seq<string> -> Option<seq<string>>

  /** The three `serial` settings the function reads; an unset list is
      empty. */
  datatype Settings = Settings(additionalPorts: seq<string>, blacklistedPorts: seq<string>, port: Option<string>)

  /* ---------- the /dev scan ---------- */

  /** The loop over the `/dev` entries with a name test that may raise:
      the paths of the entries that pass, up to the first entry whose test
      raises, where the `except` ends the loop. */
  function Scan(names: seq<string>, test: string -> Result<bool, string>): (r: seq<string>)
    ensures |r| <= |names|
    ensures forall p :: p in r ==> exists k :: 0 <= k < |names| && p == "/dev/" + names[k] && test(names[k]) == Ok(true)
    ensures (forall k :: 0 <= k < |names| ==> test(names[k]).Ok?) ==>
      forall k :: 0 <= k < |names| && test(names[k]) == Ok(true) ==> "/dev/" + names[k] in r
    ensures |names| > 0 && test(names[0]).Err? ==> r == []
    decreases |names|
  {
    if |names| == 0 then []
    else
      match test(names[0])
      case Err(_) => []
      case Ok(pass) =>
        var rest := Scan(names[1..], test);
        assert forall k :: 1 <= k < |names| ==> names[1..][k - 1] == names[k];
        if pass then ["/dev/" + names[0]] + rest else rest
  }

  /** The test as written: the pattern `regex_serial_devices` is not
      defined in the plugin's module, so evaluating it raises NameError. */
  function SerialNameTestAsWritten(name: string): Result<bool, string> {
    Err("NameError: name 'regex_serial_devices' is not defined")
  }

  /** The test as intended: a match of the serial-device pattern, given as
      `isSerialDevice`. */
  function SerialNameTest(isSerialDevice: string -> bool): string -> Result<bool, string> {
    name => Ok(isSerialDevice(name))
  }

  /** As written, the scan finds nothing, whatever `/dev` holds; the
      intended test lists every serial device. */
  lemma DevScanAsWrittenIsEmpty(names: seq<string>, isSerialDevice: string -> bool)
    ensures Scan(names, SerialNameTestAsWritten) == []
    ensures forall k :: 0 <= k < |names| && isSerialDevice(names[k]) ==> "/dev/" + names[k] in Scan(names, SerialNameTest(isSerialDevice))
  {
  }

  /** A printer at /dev/ttyACM0 is not offered as written. */
  lemma TtyAcmLostAsWritten(isSerialDevice: string -> bool)
    requires isSerialDevice("ttyACM0")
    ensures Scan(["ttyACM0"], SerialNameTestAsWritten) == []
    ensures Scan(["ttyACM0"], SerialNameTest(isSerialDevice)) == ["/dev/ttyACM0"]
  {
    var names := ["ttyACM0"];
    assert names[1..] == [];
    assert SerialNameTest(isSerialDevice)(names[0]) == Ok(true);
    assert Scan(names[1..], SerialNameTest(isSerialDevice)) == [];
    assert Scan(names, SerialNameTest(isSerialDevice)) == ["/dev/" + names[0]] + [];
    assert "/dev/" + names[0] == "/dev/ttyACM0";
  }

  /* ---------- additional ports and hooks ---------- */

  /** `candidates += glob.glob(additional)` for each configured pattern. */
  function AddGlobbed(candidates: seq<string>, patterns: seq<string>, glob: string -> seq<string>): (r: seq<string>)
    ensures |r| >= |candidates| && r[..|candidates|] == candidates
    ensures forall k :: 0 <= k < |patterns| ==> forall p :: p in glob(patterns[k]) ==> p in r
    ensures forall p :: p in r ==> p in candidates || exists k :: 0 <= k < |patterns| && p in glob(patterns[k])
    decreases |patterns|
  {
    if |patterns| == 0 then candidates
    else
      var r := AddGlobbed(candidates + glob(patterns[0]), patterns[1..], glob);
      assert forall k :: 1 <= k < |patterns| ==> patterns[1..][k - 1] == patterns[k];
      assert (candidates + glob(patterns[0]))[..|candidates|] == candidates;
      r
  }

  /** The glob results follow the base candidates, pattern by pattern. */
  lemma {:induction false} AddGlobbedAppends(candidates: seq<string>, patterns: seq<string>, glob: string -> seq<string>)
    ensures AddGlobbed(candidates, patterns, glob) == candidates + Flatten(seq(|patterns|, k requires 0 <= k < |patterns| => glob(patterns[k])))
    decreases |patterns|
  {
    var parts := seq(|patterns|, k requires 0 <= k < |patterns| => glob(patterns[k]));
    if |patterns| > 0 {
      AddGlobbedAppends(candidates + glob(patterns[0]), patterns[1..], glob);
      var tail := seq(|patterns[1..]|, k requires 0 <= k < |patterns[1..]| => glob(patterns[1..][k]));
      assert parts == [glob(patterns[0])] + tail;
      assert Flatten(parts) == glob(patterns[0]) + Flatten(tail);
    } else {
      assert Flatten(parts) == [];
    }
  }

  /** The hook loop: each hook sees the list built so far; one that raises
      is logged and adds nothing. */
  function RunHooks(candidates: seq<string>, hooks: seq<Hook>): (r: seq<string>)
    ensures |r| >= |candidates| && r[..|candidates|] == candidates
    ensures (forall k :: 0 <= k < |hooks| ==> hooks[k](candidates).None?) ==> r == candidates
    decreases |hooks|
  {
    if |hooks| == 0 then candidates
    else
      var next := match hooks[0](candidates)
        case None => candidates
        case Some(more) => candidates + more;
      assert next[..|candidates|] == candidates;
      var r := RunHooks(next, hooks[1..]);
      assert r[..|candidates|] == next[..|candidates|];
      r
  }

  /** A raising hook is skipped and the rest still run on the same list. */
  lemma FailingHookSkipped(candidates: seq<string>, h: Hook, rest: seq<Hook>)
    requires h(candidates).None?
    ensures RunHooks(candidates, [h] + rest) == RunHooks(candidates, rest)
  {
    assert ([h] + rest)[1..] == rest;
  }

  /** A hook that returns names has them appended right after the list it
      was given. */
  lemma HookResultAppended(candidates: seq<string>, h: Hook, rest: seq<Hook>)
    requires h(candidates).Some?
    ensures var r := RunHooks(candidates, [h] + rest);
      var added := h(candidates).value;
      |r| >= |candidates| + |added| && r[|candidates|..|candidates| + |added|] == added
  {
    assert ([h] + rest)[1..] == rest;
    var next := candidates + h(candidates).value;
    var r := RunHooks(next, rest);
    assert r[..|next|] == next;
    assert r[|candidates|..|next|] == next[|candidates|..];
  }

  /* ---------- blacklist ---------- */

  /** The filter of one pattern. */
  function NotMatching(fnmatch: (string, string) -> bool, pattern: string): string -> bool {
    x => !fnmatch(x, pattern)
  }

  predicate NoneMatch(fnmatch: (string, string) -> bool, patterns: seq<string>, x: string) {
    forall k :: 0 <= k < |patterns| ==> !fnmatch(x, patterns[k])
  }

  /** The filter of all patterns together. */
  function NoPatternMatches(fnmatch: (string, string) -> bool, patterns: seq<string>): string -> bool {
    x => NoneMatch(fnmatch, patterns, x)
  }

  lemma NoneMatchCons(fnmatch: (string, string) -> bool, patterns: seq<string>, x: string)
    requires |patterns| > 0
    ensures NoneMatch(fnmatch, patterns, x) == (!fnmatch(x, patterns[0]) && NoneMatch(fnmatch, patterns[1..], x))
  {
    assert forall k :: 1 <= k < |patterns| ==> patterns[1..][k - 1] == patterns[k];
  }

  /** The loop of filters, one pattern at a time. */
  function Blacklist(candidates: seq<string>, patterns: seq<string>, fnmatch: (string, string) -> bool): (r: seq<string>)
    ensures forall x :: x in r ==> x in candidates && forall k :: 0 <= k < |patterns| ==> !fnmatch(x, patterns[k])
    decreases |patterns|
  {
    if |patterns| == 0 then candidates
    else
      var r := Blacklist(Filter(candidates, NotMatching(fnmatch, patterns[0])), patterns[1..], fnmatch);
      assert forall k :: 1 <= k < |patterns| ==> patterns[1..][k - 1] == patterns[k];
      r
  }

  lemma {:induction false} FilterFilter(s: seq<string>, p: string -> bool, q: string -> bool, pq: string -> bool)
    requires forall x :: pq(x) == (p(x) && q(x))
    ensures Filter(Filter(s, p), q) == Filter(s, pq)
    decreases |s|
  {
    if |s| > 0 {
      FilterFilter(s[1..], p, q, pq);
      if p(s[0]) {
        assert Filter(s, p) == [s[0]] + Filter(s[1..], p);
        assert Filter(s, p)[1..] == Filter(s[1..], p);
      }
    }
  }

  /** Filtering pattern by pattern keeps exactly the candidates no pattern
      matches, in their order. */
  lemma {:induction false} BlacklistIsOneFilter(candidates: seq<string>, patterns: seq<string>, fnmatch: (string, string) -> bool)
    ensures Blacklist(candidates, patterns, fnmatch) == Filter(candidates, NoPatternMatches(fnmatch, patterns))
    decreases |patterns|
  {
    if |patterns| == 0 {
      FilterAll(candidates, NoPatternMatches(fnmatch, patterns));
    } else {
      var first := Filter(candidates, NotMatching(fnmatch, patterns[0]));
      BlacklistIsOneFilter(first, patterns[1..], fnmatch);
      forall x ensures NoPatternMatches(fnmatch, patterns)(x) ==
                       (NotMatching(fnmatch, patterns[0])(x) && NoPatternMatches(fnmatch, patterns[1..])(x))
      {
        NoneMatchCons(fnmatch, patterns, x);
      }
      FilterFilter(candidates, NotMatching(fnmatch, patterns[0]), NoPatternMatches(fnmatch, patterns[1..]),
                   NoPatternMatches(fnmatch, patterns));
    }
  }

  lemma {:induction false} FilterAll(s: seq<string>, p: string -> bool)
    requires forall x :: p(x)
    ensures Filter(s, p) == s
    decreases |s|
  {
    if |s| > 0 {
      FilterAll(s[1..], p);
      assert s == [s[0]] + s[1..];
    }
  }

  /* ---------- last used port first ---------- */

  /** `candidates.remove(prev); candidates.insert(0, prev)` when `prev` is
      in the list: the first occurrence moves to the front. */
  function MoveToFront(candidates: seq<string>, prev: Option<string>): (r: seq<string>)
    ensures multiset(r) == multiset(candidates)
    ensures prev.None? || prev.value !in candidates ==> r == candidates
    ensures prev.Some? && prev.value in candidates ==>
      && r[0] == prev.value
      && exists i ::
           && 0 <= i < |candidates| && candidates[i] == prev.value
           && (forall j :: 0 <= j < i ==> candidates[j] != prev.value)
           && r[1..] == candidates[..i] + candidates[i + 1..]
  {
    match prev
    case None => candidates
    case Some(p) =>
      match FirstIndex(candidates, Is(p))
      case None => candidates
      case Some(i) =>
        MoveKeepsElements(candidates, i);
        [candidates[i]] + (candidates[..i] + candidates[i + 1..])
  }

  function Is(p: string): string -> bool {
    x => x == p
  }

  lemma MoveKeepsElements(s: seq<string>, i: nat)
    requires i < |s|
    ensures multiset([s[i]] + (s[..i] + s[i + 1..])) == multiset(s)
  {
    assert s == s[..i] + [s[i]] + s[i + 1..];
  }

  /** Moving the last used port to the front twice is moving it once. */
  lemma MoveToFrontIdempotent(candidates: seq<string>, prev: Option<string>)
    ensures MoveToFront(MoveToFront(candidates, prev), prev) == MoveToFront(candidates, prev)
  {
    var r := MoveToFront(candidates, prev);
    if prev.Some? && prev.value in candidates {
      assert r[0] == prev.value;
      assert r == r[..0] + [r[0]] + r[1..];
    }
  }

  /* ---------- patchedSerialList ---------- */

  /** The registry read as written: `winreg` is never imported in the
      plugin's module, so `winreg.OpenKey` raises NameError and the
      `except` leaves the Windows candidates empty. */
  const RegistryAsWritten: Result<seq<string>, string> := Err("NameError: name 'winreg' is not defined")

  /** The platform's own candidates: on Windows the registry values, or
      none when reading the registry raises; otherwise the `/dev` scan (an
      unreadable `/dev` gives none). */
  function PlatformCandidates(isWindows: bool, registry: Result<seq<string>, string>, dev: Option<seq<string>>,
                              test: string -> Result<bool, string>): (r: seq<string>)
    ensures isWindows && registry.Ok? ==> r == registry.value
    ensures isWindows && registry.Err? ==> r == []
    ensures !isWindows && dev.None? ==> r == []
    ensures !isWindows && dev.Some? ==> r == Scan(dev.value, test)
  {
    if isWindows then
      match registry
      case Err(_) => []
      case Ok(values) => values
    else match dev
      case None => []
      case Some(names) => Scan(names, test)
  }

  /** `patchedSerialList`, with the registry read and the `/dev` test as
      parameters. */
  function PatchedSerialListWith(isWindows: bool, registry: Result<seq<string>, string>, dev: Option<seq<string>>,
                                 test: string -> Result<bool, string>, settings: Settings,
                                 glob: string -> seq<string>, hooks: seq<Hook>,
                                 fnmatch: (string, string) -> bool): (r: seq<string>)
    ensures var collected := RunHooks(AddGlobbed(PlatformCandidates(isWindows, registry, dev, test),
                                                 settings.additionalPorts, glob), hooks);
      var filtered := Filter(collected, NoPatternMatches(fnmatch, settings.blacklistedPorts));
      && multiset(r) == multiset(filtered)
      && (settings.port.Some? && settings.port.value in r ==> r[0] == settings.port.value)
      && (settings.port.None? || settings.port.value !in filtered ==> r == filtered)
      && (settings.port.Some? && settings.port.value in filtered ==>
            && r[0] == settings.port.value
            && exists i ::
                 && 0 <= i < |filtered| && filtered[i] == settings.port.value
                 && (forall j :: 0 <= j < i ==> filtered[j] != settings.port.value)
                 && r[1..] == filtered[..i] + filtered[i + 1..])
  {
    var base := PlatformCandidates(isWindows, registry, dev, test);
    var collected := RunHooks(AddGlobbed(base, settings.additionalPorts, glob), hooks);
    var filtered := Blacklist(collected, settings.blacklistedPorts, fnmatch);
    BlacklistIsOneFilter(collected, settings.blacklistedPorts, fnmatch);
    MoveToFront(filtered, settings.port)
  }

  /** As written neither platform contributes a port: the registry read
      and the `/dev` test both raise NameError. */
  lemma {:induction false} PlatformCandidatesAsWrittenEmpty(isWindows: bool, dev: Option<seq<string>>)
    ensures PlatformCandidates(isWindows, RegistryAsWritten, dev, SerialNameTestAsWritten) == []
  {
    if !isWindows && dev.Some? {
      var names := dev.value;
      if |names| > 0 {
        assert SerialNameTestAsWritten(names[0]).Err?;
      }
    }
  }

  /** `patchedSerialList` as written: whatever the registry and `/dev`
      hold, the list is built from the additional ports and the hooks
      alone. */
  function PatchedSerialListAsWritten(isWindows: bool, dev: Option<seq<string>>,
                                      settings: Settings, glob: string -> seq<string>, hooks: seq<Hook>,
                                      fnmatch: (string, string) -> bool): (r: seq<string>)
    ensures var collected := RunHooks(AddGlobbed([], settings.additionalPorts, glob), hooks);
      var filtered := Filter(collected, NoPatternMatches(fnmatch, settings.blacklistedPorts));
      && multiset(r) == multiset(filtered)
      && (settings.port.Some? && settings.port.value in r ==> r[0] == settings.port.value)
      && (settings.port.None? || settings.port.value !in filtered ==> r == filtered)
      && (settings.port.Some? && settings.port.value in filtered ==>
            && r[0] == settings.port.value
            && exists i ::
                 && 0 <= i < |filtered| && filtered[i] == settings.port.value
                 && (forall j :: 0 <= j < i ==> filtered[j] != settings.port.value)
                 && r[1..] == filtered[..i] + filtered[i + 1..])
  {
    PlatformCandidatesAsWrittenEmpty(isWindows, dev);
    PatchedSerialListWith(isWindows, RegistryAsWritten, dev, SerialNameTestAsWritten, settings, glob, hooks, fnmatch)
  }

  /** `patchedSerialList` with the serial-device pattern defined. */
  function PatchedSerialList(isWindows: bool, registry: seq<string>, dev: Option<seq<string>>,
                             isSerialDevice: string -> bool, settings: Settings,
                             glob: string -> seq<string>, hooks: seq<Hook>,
                             fnmatch: (string, string) -> bool): seq<string>
  {
    PatchedSerialListWith(isWindows, Ok(registry), dev, SerialNameTest(isSerialDevice), settings, glob, hooks, fnmatch)
  }

  /** On Linux with no additional ports and no hooks the written list is
      always empty, while the intended one offers every serial device
      that is not blacklisted. */
  lemma NoDevicesAsWritten(dev: seq<string>, isSerialDevice: string -> bool, settings: Settings,
                           glob: string -> seq<string>, fnmatch: (string, string) -> bool)
    requires settings.additionalPorts == []
    ensures PatchedSerialListAsWritten(false, Some(dev), settings, glob, [], fnmatch) == []
    ensures forall k ::
      && 0 <= k < |dev| && isSerialDevice(dev[k])
      && NoPatternMatches(fnmatch, settings.blacklistedPorts)("/dev/" + dev[k])
      ==> "/dev/" + dev[k] in PatchedSerialList(false, [], Some(dev), isSerialDevice, settings, glob, [], fnmatch)
  {
    DevScanAsWrittenIsEmpty(dev, isSerialDevice);
    var written := PatchedSerialListAsWritten(false, Some(dev), settings, glob, [], fnmatch);
    assert multiset(written) == multiset(Filter([], NoPatternMatches(fnmatch, settings.blacklistedPorts)));
    assert |written| == 0 by {
      assert |multiset(written)| == |written|;
    }
    var collected := Scan(dev, SerialNameTest(isSerialDevice));
    var intended := PatchedSerialList(false, [], Some(dev), isSerialDevice, settings, glob, [], fnmatch);
    assert multiset(intended) == multiset(Filter(collected, NoPatternMatches(fnmatch, settings.blacklistedPorts)));
    forall k | 0 <= k < |dev| && isSerialDevice(dev[k]) && NoPatternMatches(fnmatch, settings.blacklistedPorts)("/dev/" + dev[k])
      ensures "/dev/" + dev[k] in intended
    {
      assert "/dev/" + dev[k] in collected;
      assert "/dev/" + dev[k] in multiset(intended);
    }
  }

  /** On Windows with no additional ports and no hooks the list as written
      is always empty, while the intended one offers every registry port
      that is not blacklisted. */
  lemma NoRegistryPortsAsWritten(registry: seq<string>, settings: Settings,
                                 glob: string -> seq<string>, fnmatch: (string, string) -> bool)
    requires settings.additionalPorts == []
    ensures PatchedSerialListAsWritten(true, None, settings, glob, [], fnmatch) == []
    ensures forall k ::
      && 0 <= k < |registry| && NoPatternMatches(fnmatch, settings.blacklistedPorts)(registry[k])
      ==> registry[k] in PatchedSerialList(true, registry, None, p => false, settings, glob, [], fnmatch)
  {
    var written := PatchedSerialListAsWritten(true, None, settings, glob, [], fnmatch);
    assert multiset(written) == multiset(Filter([], NoPatternMatches(fnmatch, settings.blacklistedPorts)));
    assert |written| == 0 by {
      assert |multiset(written)| == |written|;
    }
    var intended := PatchedSerialList(true, registry, None, p => false, settings, glob, [], fnmatch);
    assert multiset(intended) == multiset(Filter(registry, NoPatternMatches(fnmatch, settings.blacklistedPorts)));
    forall k | 0 <= k < |registry| && NoPatternMatches(fnmatch, settings.blacklistedPorts)(registry[k])
      ensures registry[k] in intended
    {
      assert registry[k] in registry;
      assert registry[k] in multiset(intended);
    }
  }
}
