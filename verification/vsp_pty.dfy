/** The native half of the virtual serial port (`vsp-pty.cpp`): a
    pseudo-terminal whose slave is published as the printer's serial
    device, and a worker thread that relays everything the printer host
    writes, together with the line speed it set, to Kotlin. The `select`
    loop, logging and JNI calls are left out; one loop iteration, the
    speed table, the start-up steps and the start-once guard are modelled. */
module VspPty {
  import opened Wrappers
  import opened Text
  import Platform
  import OpenPty
  import SerialData

  /** A C `speed_t`: an unsigned 32-bit number. */
  type speed = s: int | 0 <= s < 0x1_0000_0000

  /* Linux `termbits.h` speed codes. */
  const B0: speed := 0
  const B50: speed := 1
  const B75: speed := 2
  const B110: speed := 3
  const B134: speed := 4
  const B150: speed := 5
  const B200: speed := 6
  const B300: speed := 7
  const B600: speed := 8
  const B1200: speed := 9
  const B1800: speed := 10
  const B2400: speed := 11
  const B4800: speed := 12
  const B9600: speed := 13
  const B19200: speed := 14
  const B38400: speed := 15
  const B57600: speed := 0x1001
  const B115200: speed := 0x1002
  const B230400: speed := 0x1003
  const B460800: speed := 0x1004
  const B500000: speed := 0x1005
  const B576000: speed := 0x1006
  const B921600: speed := 0x1007
  const B1000000: speed := 0x1008
  const B1152000: speed := 0x1009
  const B1500000: speed := 0x100a
  const B2000000: speed := 0x100b
  const B2500000: speed := 0x100c
  const B3000000: speed := 0x100d
  const B3500000: speed := 0x100e
  const B4000000: speed := 0x100f

  /** The rate of each speed code, as the C library documents it. */
  const SpeedTable: seq<(speed, int)> := [
    (B0, 0), (B50, 50), (B75, 75), (B110, 110), (B134, 134), (B150, 150),
    (B200, 200), (B300, 300), (B600, 600), (B1200, 1200), (B1800, 1800),
    (B2400, 2400), (B4800, 4800), (B9600, 9600), (B19200, 19200), (B38400, 38400),
    (B57600, 57600), (B115200, 115200), (B230400, 230400), (B460800, 460800),
    (B500000, 500000), (B576000, 576000), (B921600, 921600), (B1000000, 1000000),
    (B1152000, 1152000), (B1500000, 1500000), (B2000000, 2000000), (B2500000, 2500000),
    (B3000000, 3000000), (B3500000, 3500000), (B4000000, 4000000)]

  /** The value returned for every code the switch does not list. */
  const NonStandardRate := 250000

  predicate IsStandard(s: speed) {
    exists i :: 0 <= i < |SpeedTable| && SpeedTable[i].0 == s
  }

  /** The standard codes are 0..15 and 0x1001..0x100f. */
  lemma StandardCodes(s: speed)
    ensures IsStandard(s) <==> s <= 15 || 0x1001 <= s <= 0x100f
  {
    if IsStandard(s) {
      var i :| 0 <= i < |SpeedTable| && SpeedTable[i].0 == s;
      TableCode(i);
    }
    if s <= 15 {
      TableCode(s);
    } else if 0x1001 <= s <= 0x100f {
      TableCode(s - 0x1001 + 16);
    }
  }

  /** The table lists the codes in order: 0..15, then 0x1001..0x100f. */
  lemma TableCode(i: nat)
    requires i < |SpeedTable|
    ensures SpeedTable[i].0 == if i < 16 then i else i - 16 + 0x1001
  {
    if i < 16 {
      assert SpeedTable[..16] == [(B0, 0), (B50, 50), (B75, 75), (B110, 110), (B134, 134), (B150, 150),
        (B200, 200), (B300, 300), (B600, 600), (B1200, 1200), (B1800, 1800),
        (B2400, 2400), (B4800, 4800), (B9600, 9600), (B19200, 19200), (B38400, 38400)];
      assert SpeedTable[i] == SpeedTable[..16][i];
    } else {
      assert SpeedTable[16..] == [
        (B57600, 57600), (B115200, 115200), (B230400, 230400), (B460800, 460800),
        (B500000, 500000), (B576000, 576000), (B921600, 921600), (B1000000, 1000000),
        (B1152000, 1152000), (B1500000, 1500000), (B2000000, 2000000), (B2500000, 2500000),
        (B3000000, 3000000), (B3500000, 3500000), (B4000000, 4000000)];
      assert SpeedTable[i] == SpeedTable[16..][i - 16];
    }
  }

  /** `getBaudrate`: the switch from speed code to rate. The sentinel is
      the answer for exactly the codes the table does not name. */
  function GetBaudrate(s: speed): (r: Platform.int32)
    ensures r == NonStandardRate <==> !IsStandard(s)
  {
    StandardCodes(s);
    if s == B0 then 0
    else if s == B50 then 50
    else if s == B75 then 75
    else if s == B110 then 110
    else if s == B134 then 134
    else if s == B150 then 150
    else if s == B200 then 200
    else if s == B300 then 300
    else if s == B600 then 600
    else if s == B1200 then 1200
    else if s == B1800 then 1800
    else if s == B2400 then 2400
    else if s == B4800 then 4800
    else if s == B9600 then 9600
    else if s == B19200 then 19200
    else if s == B38400 then 38400
    else if s == B57600 then 57600
    else if s == B115200 then 115200
    else if s == B230400 then 230400
    else if s == B460800 then 460800
    else if s == B500000 then 500000
    else if s == B576000 then 576000
    else if s == B921600 then 921600
    else if s == B1000000 then 1000000
    else if s == B1152000 then 1152000
    else if s == B1500000 then 1500000
    else if s == B2000000 then 2000000
    else if s == B2500000 then 2500000
    else if s == B3000000 then 3000000
    else if s == B3500000 then 3500000
    else if s == B4000000 then 4000000
    else NonStandardRate
  }

  /** Every code of the table maps to its documented rate. */
  lemma GetBaudrateTable(i: nat)
    requires i < |SpeedTable|
    ensures GetBaudrate(SpeedTable[i].0) == SpeedTable[i].1
  {
    if i < 16 {
      SlowCodes(i);
    } else {
      FastCodes(i);
    }
  }

  lemma SlowCodes(i: nat)
    requires i < 16
    ensures SpeedTable[i].0 == i && GetBaudrate(i) == SpeedTable[i].1
  {
  }

  lemma FastCodes(i: nat)
    requires 16 <= i < |SpeedTable|
    ensures SpeedTable[i].0 == i - 16 + 0x1001 && GetBaudrate(i - 16 + 0x1001) == SpeedTable[i].1
  {
  }

  /** The JNI entry point takes a Java `Int` and passes it on as a
      `speed_t`, so a negative argument wraps to a large unsigned code. */
  function GetBaudrateJni(data: Platform.int32): (r: Platform.int32)
    ensures data < 0 ==> r == NonStandardRate
    ensures data >= 0 ==> r == GetBaudrate(data)
  {
    var s: speed := Platform.Unsigned(data);
    StandardCodes(s);
    GetBaudrate(s)
  }

  /* ---------- start-up ---------- */

  /** Where the slave is published for the printer host. */
  const SerialPipe := "/data/data/com.octo4a/files/serialpipe"

  /** A start-up step. A symlink target of None is the uninitialised
      name buffer. */
  datatype StartupOp =
    | Unlink(path: string)
    | Symlink(target: Option<string>, link: string)
    | EnablePacketMode(master: Option<nat>)

  /** The worker's start-up as written: `openpty` with a name buffer and
      no attributes, then unlink, symlink and packet mode, whatever
      `openpty` returned. */
  function StartupAsWritten(os: OpenPty.Os): (ops: seq<StartupOp>)
    ensures |ops| == 3 && ops[1].Symlink?
    ensures ops[1].target == OpenPty.OpenPty(os, true, false, false).name
  {
    var r := OpenPty.OpenPty(os, true, false, false);
    [Unlink(SerialPipe), Symlink(r.name, SerialPipe), EnablePacketMode(r.master)]
  }

  /** A failed `openpty` still makes the as-written start-up publish a
      link to whatever the name buffer held. */
  lemma StartupAsWrittenPublishesGarbage()
    ensures var os := OpenPty.Os(None, true, true, Some("/dev/pts/0"), Some(4));
      Symlink(None, SerialPipe) in StartupAsWritten(os)
  {
  }

  /** The start-up with `openpty`'s result checked: the same steps on
      success, none on failure. */
  function Startup(os: OpenPty.Os): (r: Result<seq<StartupOp>, string>)
    ensures r.Ok? <==> OpenPty.AllStepsSucceed(os)
    ensures r.Ok? ==> Symlink(os.ptsName, SerialPipe) in r.value
    ensures r.Ok? ==> forall op :: op in r.value && op.Symlink? ==> op.target.Some?
  {
    var o := OpenPty.OpenPty(os, true, false, false);
    if o.ret != 0 then Err("openpty failed")
    else
      var ops := StartupAsWritten(os);
      assert ops == [Unlink(SerialPipe), Symlink(os.ptsName, SerialPipe), EnablePacketMode(o.master)];
      Ok(ops)
  }

  /* ---------- one relay iteration ---------- */

  const BUFSIZE := 512
  /** The byte count each master read asks for. */
  const ReadRequest := BUFSIZE - 1

  /** The terminal attributes `tcgetattr` reports. */
  datatype Attributes = Attributes(ospeed: speed, iflag: nat, oflag: nat, cflag: nat, lflag: nat)

  /** What `read` returned: -1, or a chunk of at most the requested size. */
  datatype ReadResult = ReadFailed | ReadBytes(chunk: seq<byte>)

  /** What `passReceivedData` hands on: the bytes and the line speed, cast
      from `speed_t` to `jint`. */
  datatype Delivery = Delivery(data: seq<byte>, baudrate: Platform.int32)

  /** `speed_t` to `jint`: the same 32 bits read as signed. */
  function ToJint(s: speed): (i: Platform.int32)
    ensures Platform.Unsigned(i) == s
  {
    if s >= 0x8000_0000 then s - 0x1_0000_0000 else s
  }

  /** One iteration of the worker loop after `select` returns. A failed read
      delivers nothing; a successful one delivers the whole chunk, the
      status byte included, with the output speed of attributes fetched
      after the read. */
  function RelayIteration(read: ReadResult, attrs: Attributes): (d: Option<Delivery>)
    requires read.ReadBytes? ==> |read.chunk| <= ReadRequest
    ensures d.Some? <==> read.ReadBytes?
    ensures d.Some? ==> d.value.data == read.chunk && |d.value.data| <= 511
    ensures d.Some? ==> Platform.Unsigned(d.value.baudrate) == attrs.ospeed
  {
    match read
    case ReadFailed => None
    case ReadBytes(chunk) => Some(Delivery(chunk, ToJint(attrs.ospeed)))
  }

  /* ---------- packet-mode reads, end to end ---------- */

  /** Packet mode as the kernel implements it for data: a read of `count`
      bytes returns the status byte 0 followed by as much pending data as
      fits. */
  function PacketRead(pending: seq<byte>, count: nat): (r: (seq<byte>, seq<byte>))
    requires count >= 2 && |pending| > 0
    ensures 2 <= |r.0| <= count && r.0[0] == 0
    ensures r.0[1..] + r.1 == pending
    ensures |r.1| < |pending|
  {
    var n := if |pending| < count - 1 then |pending| else count - 1;
    assert pending[..n] + pending[n..] == pending;
    ([0] + pending[..n], pending[n..])
  }

  /** Relays everything the host wrote, one packet-mode read per iteration,
      and returns the `SerialData` objects Kotlin receives. */
  method RelayAll(written: seq<byte>, attrs: Attributes) returns (received: seq<SerialData.SerialData>)
    ensures forall k :: 0 <= k < |received| ==> |received[k].data| >= 1 && !received[k].isStartPacket
    ensures Concat(received) == written
  {
    received := [];
    var pending := written;
    while |pending| > 0
      invariant forall k :: 0 <= k < |received| ==> |received[k].data| >= 1 && !received[k].isStartPacket
      invariant Concat(received) + pending == written
      decreases |pending|
    {
      var (chunk, rest) := PacketRead(pending, ReadRequest);
      var d := RelayIteration(ReadBytes(chunk), attrs);
      var sd := SerialData.Make(d.value.data, d.value.baudrate, 0, 0, 0, 0).value;
      assert chunk == [0] + chunk[1..];
      SerialData.StartPacketByStatus(chunk[1..], 0, d.value.baudrate);
      ConcatAppend(received, sd);
      received := received + [sd];
      pending := rest;
    }
  }

  /** The bytes Kotlin forwards to the printer: every `serialData` in turn. */
  function Concat(ds: seq<SerialData.SerialData>): seq<byte>
    requires forall k :: 0 <= k < |ds| ==> |ds[k].data| >= 1
  {
    if |ds| == 0 then [] else Concat(ds[..|ds| - 1]) + SerialData.SerialBytes(ds[|ds| - 1])
  }

  lemma ConcatAppend(ds: seq<SerialData.SerialData>, d: SerialData.SerialData)
    requires forall k :: 0 <= k < |ds| ==> |ds[k].data| >= 1
    requires |d.data| >= 1
    ensures Concat(ds + [d]) == Concat(ds) + d.data[1..]
  {
    assert (ds + [d])[..|ds|] == ds;
  }

  /* ---------- start-once guard ---------- */

  /** The worker handle (0: none) and how many workers were created. */
  datatype Worker = Worker(handle: nat, started: nat)

  const NoWorker := Worker(0, 0)

  /** `runPtyThread`: create a worker only while the handle is 0. The
      outcome of `pthread_create` is a parameter: the new thread's
      non-zero id, or None when creation fails and the handle stays 0. */
  function RunPtyThread(w: Worker, created: Option<nat>): (w': Worker)
    requires created.Some? ==> created.value > 0
    ensures w.handle != 0 ==> w' == w
    ensures w.handle == 0 && created.Some? ==> w'.handle == created.value && w'.started == w.started + 1
    ensures w.handle == 0 && created.None? ==> w' == w
  {
    if w.handle == 0 then
      match created
      case Some(id) => Worker(id, w.started + 1)
      case None => w
    else w
  }

  function RunMany(w: Worker, outcomes: seq<Option<nat>>): Worker
    requires forall k :: 0 <= k < |outcomes| ==> (outcomes[k].Some? ==> outcomes[k].value > 0)
    decreases |outcomes|
  {
    if |outcomes| == 0 then w else RunMany(RunPtyThread(w, outcomes[0]), outcomes[1..])
  }

  /** However often `runPtyThread` is called, at most one worker starts. */
  lemma {:induction false} AtMostOneWorker(w: Worker, outcomes: seq<Option<nat>>)
    requires forall k :: 0 <= k < |outcomes| ==> (outcomes[k].Some? ==> outcomes[k].value > 0)
    requires w.started <= 1 && (w.handle == 0 <==> w.started == 0)
    ensures RunMany(w, outcomes).started <= 1
    decreases |outcomes|
  {
    if |outcomes| > 0 {
      AtMostOneWorker(RunPtyThread(w, outcomes[0]), outcomes[1..]);
    }
  }
}
