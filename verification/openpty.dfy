/** `openpty` of `openpty.c`: open the pseudo-terminal multiplexer, grant
    and unlock the slave, look up its path, open it, optionally apply
    terminal attributes and a window size, and hand the descriptors and
    the path back. Every system call's outcome is a parameter, and the
    calls made are returned as a trace. */
module OpenPty {
  import opened Wrappers

  const PtmxPath := "/dev/ptmx"

  /** The outcomes the operating system gives to each step. A descriptor
      outcome of None stands for -1; a boolean is "returned 0". */
  datatype Os = Os(
    openPtmx: Option<nat>,
    grantOk: bool,
    unlockOk: bool,
    ptsName: Option<string>,
    openSlave: Option<nat>)

  /** One system call, with the descriptor or path it was given; an open
      also records the descriptor it returned. */
  datatype Call =
    | OpenPath(path: string, result: Option<nat>)
    | GrantPt(fd: nat)
    | UnlockPt(fd: nat)
    | PtsNameR(fd: nat)
    | TcSetAttr(fd: nat)
    | SetWinSize(fd: nat)
    | Close(fd: nat)

  /** The return value, what was stored through the three output pointers
      (None: left untouched), and the calls made. */
  datatype Outcome = Outcome(
    ret: int,
    master: Option<nat>,
    slave: Option<nat>,
    name: Option<string>,
    calls: seq<Call>)

  /** Every step up to and including opening the slave succeeds. */
  predicate AllStepsSucceed(os: Os) {
    os.openPtmx.Some? && os.grantOk && os.unlockOk && os.ptsName.Some? && os.openSlave.Some?
  }

  /** The calls after both descriptors are open: attributes and window
      size only for non-NULL pointers. */
  function Configure(slave: nat, hasTermp: bool, hasWinp: bool): (r: seq<Call>)
    ensures TcSetAttr(slave) in r <==> hasTermp
    ensures SetWinSize(slave) in r <==> hasWinp
    ensures forall c :: c in r ==> c.TcSetAttr? || c.SetWinSize?
  {
    (if hasTermp then [TcSetAttr(slave)] else []) + (if hasWinp then [SetWinSize(slave)] else [])
  }

  /** `openpty(amaster, aslave, name, termp, winp)`; the three flags say
      which of `name`, `termp` and `winp` are non-NULL. The chained
      `grantpt || unlockpt || ptsname_r` stops at the first failure. */
  function OpenPty(os: Os, hasName: bool, hasTermp: bool, hasWinp: bool): (r: Outcome)
    ensures r.ret == 0 || r.ret == -1
    ensures r.ret == 0 <==> AllStepsSucceed(os)
    ensures r.ret == 0 ==> r.master == os.openPtmx && r.slave == os.openSlave
    ensures r.ret == 0 ==> (r.name.Some? <==> hasName) && (hasName ==> r.name == os.ptsName)
    ensures r.ret == -1 ==> r.master.None? && r.slave.None? && r.name.None?
    ensures |r.calls| >= 1 && r.calls[0] == OpenPath(PtmxPath, os.openPtmx)
    ensures r.ret == 0 ==> forall fd :: Close(fd) !in r.calls
    ensures os.openPtmx.None? ==> r.calls == [OpenPath(PtmxPath, None)]
    ensures os.openPtmx.Some? && r.ret == -1 ==> r.calls[|r.calls| - 1] == Close(os.openPtmx.value)
    ensures forall fd :: TcSetAttr(fd) in r.calls ==> r.ret == 0 && hasTermp
    ensures forall fd :: SetWinSize(fd) in r.calls ==> r.ret == 0 && hasWinp
  {
    match os.openPtmx
    case None => Outcome(-1, None, None, None, [OpenPath(PtmxPath, None)])
    case Some(m) =>
      var open := [OpenPath(PtmxPath, Some(m))];
      if !os.grantOk then Outcome(-1, None, None, None, open + [GrantPt(m), Close(m)])
      else if !os.unlockOk then Outcome(-1, None, None, None, open + [GrantPt(m), UnlockPt(m), Close(m)])
      else if os.ptsName.None? then
        Outcome(-1, None, None, None, open + [GrantPt(m), UnlockPt(m), PtsNameR(m), Close(m)])
      else
        var path := os.ptsName.value;
        var prefix := open + [GrantPt(m), UnlockPt(m), PtsNameR(m), OpenPath(path, os.openSlave)];
        match os.openSlave
        case None => Outcome(-1, None, None, None, prefix + [Close(m)])
        case Some(s) =>
          Outcome(0, Some(m), Some(s), if hasName then Some(path) else None,
                  prefix + Configure(s, hasTermp, hasWinp))
  }

  /* ---------- descriptor accounting ---------- */

  /** The descriptors the calls opened. */
  function Opened(calls: seq<Call>): set<nat> {
    set c | c in calls && c.OpenPath? && c.result.Some? :: c.result.value
  }

  function Closed(calls: seq<Call>): set<nat> {
    set c | c in calls && c.Close? :: c.fd
  }

  /** No descriptor leaks: on failure everything that was opened has been
      closed, and on success nothing was closed and exactly the two
      descriptors handed to the caller were opened. */
  lemma NoLeak(os: Os, hasName: bool, hasTermp: bool, hasWinp: bool)
    ensures var r := OpenPty(os, hasName, hasTermp, hasWinp);
      (r.ret == -1 ==> Opened(r.calls) <= Closed(r.calls)) &&
      (r.ret == 0 ==> Closed(r.calls) == {} && Opened(r.calls) == {r.master.value, r.slave.value})
  {
    var r := OpenPty(os, hasName, hasTermp, hasWinp);
    if os.openPtmx.Some? {
      var m := os.openPtmx.value;
      assert OpenPath(PtmxPath, Some(m)) in r.calls;
      if r.ret == -1 {
        assert Close(m) in r.calls;
      } else {
        assert OpenPath(os.ptsName.value, os.openSlave) in r.calls;
      }
    }
  }
}
