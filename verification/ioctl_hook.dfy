/** The `ioctl` interposer of `ioctl-hook.c`. It fakes two kinds of
    request (modem-line setting and custom baud rates) by writing a small
    JSON event into a FIFO the app listens on, and forwards every other
    request to the real `ioctl`, which it looks up once with `dlsym`.
    The real `ioctl`, the `dlsym` outcome and the FIFO writes are
    parameters or trace entries. */
module IoctlHook {
  import opened Wrappers
  import opened Text

  /** The FIFO the app reads events from. */
  const FifoPath := "/data/data/com.octo4a/files/home/eventPipe"
  /** The text before and after the event tag. */
  const EventJsonStart := "{\"eventType\": \""
  const EventJsonEnd := "\"}\n"

  const TagRtsDts := "rtsDts"
  const TagCustomBaud := "customBaud"

  /** Request codes, as the 32-bit patterns of C `int`s. `TIOCMBIS` is the
      Linux value; the two custom-baud codes are Linux `TCGETS2` and
      `TCSETS2`. The first has its top bit set, so as a C literal it is
      an `unsigned int` and the `int` request is compared with it as
      unsigned: as 32-bit patterns. */
  const TIOCMBIS: bv32 := 0x5416
  const CustomBaudA: bv32 := 0x802c542a
  const CustomBaudB: bv32 := 0x402C542B

  /** One operation on the FIFO. */
  datatype FifoOp = FifoOpen(path: string) | FifoWrite(bytes: seq<byte>) | FifoClose

  /** `writeEventToPipe(event, len)`: open, write the prefix (its `sizeof`
      minus the terminating NUL), `len` bytes of the event, the suffix,
      close. */
  function WriteEventToPipe(event: string, len: nat): (ops: seq<FifoOp>)
    requires len <= |event|
    ensures |ops| == 5 && ops[0] == FifoOpen(FifoPath) && ops[4] == FifoClose
    ensures Payload(ops) == Ascii(EventJsonStart) + Ascii(event[..len]) + Ascii(EventJsonEnd)
  {
    var ops := [FifoOpen(FifoPath), FifoWrite(Ascii(EventJsonStart)), FifoWrite(Ascii(event[..len])),
                FifoWrite(Ascii(EventJsonEnd)), FifoClose];
    assert Payload(ops[4..]) == [];
    assert Payload(ops[3..]) == Ascii(EventJsonEnd);
    assert Payload(ops[2..]) == Ascii(event[..len]) + Ascii(EventJsonEnd);
    ops
  }

  /** The bytes a sequence of FIFO operations writes. */
  function Payload(ops: seq<FifoOp>): seq<byte> {
    if |ops| == 0 then []
    else (if ops[0].FifoWrite? then ops[0].bytes else []) + Payload(ops[1..])
  }

  /** The prefix and suffix are written with `sizeof(..) - 1` bytes, and
      the lengths passed with the tags are the tags' own lengths, so every
      piece is written whole and without its NUL. */
  lemma EnvelopeLengths()
    ensures |Ascii(EventJsonStart)| == 15 && |Ascii(EventJsonEnd)| == 3
    ensures |TagRtsDts| == 6 && |TagCustomBaud| == 10
  {
  }

  /** Which requests are faked and with which tag. */
  function Intercepted(request: bv32): (tag: Option<string>)
    ensures tag == Some(TagRtsDts) <==> request == TIOCMBIS
    ensures tag == Some(TagCustomBaud) <==> request == CustomBaudA || request == CustomBaudB
  {
    if request == TIOCMBIS then Some(TagRtsDts)
    else if request == CustomBaudA || request == CustomBaudB then Some(TagCustomBaud)
    else None
  }

  /** The static function pointer: null until `dlsym` has found the real
      `ioctl`. */
  datatype Hook = Hook(realFound: bool, lookups: nat)

  const InitialHook := Hook(false, 0)

  /** What one call does. `Faulted` is a call through the null pointer
      left by a failed `dlsym`. */
  datatype Reply = Returned(value: int) | Faulted

  datatype Step = Step(hook: Hook, reply: Reply, fifo: seq<FifoOp>, forwarded: bool)

  /** `ioctl(fd, request, argp)`. The lookup runs first, and only while the
      cached pointer is null; `dlsymFinds` is what `dlsym` would return
      this time. An intercepted request answers 0 after writing one event;
      every other request is answered by the real `ioctl` with the same
      descriptor, request and first variadic argument. */
  function Ioctl(h: Hook, dlsymFinds: bool, realIoctl: (int, bv32, nat) -> int,
                 fd: int, request: bv32, argp: nat): (s: Step)
    ensures s.hook.lookups == h.lookups + (if h.realFound then 0 else 1)
    ensures s.hook.realFound == (h.realFound || dlsymFinds)
    ensures Intercepted(request).Some? ==>
      s.reply == Returned(0) && !s.forwarded &&
      Payload(s.fifo) == Ascii(EventJsonStart) + Ascii(Intercepted(request).value) + Ascii(EventJsonEnd)
    ensures Intercepted(request).None? ==> s.fifo == [] && s.forwarded
    ensures Intercepted(request).None? && s.hook.realFound ==> s.reply == Returned(realIoctl(fd, request, argp))
    ensures Intercepted(request).None? && !s.hook.realFound ==> s.reply == Faulted
  {
    var h' := if h.realFound then h else Hook(dlsymFinds, h.lookups + 1);
    if request == TIOCMBIS then
      Step(h', Returned(0), WriteEventToPipe(TagRtsDts, 6), false)
    else if request == CustomBaudA || request == CustomBaudB then
      Step(h', Returned(0), WriteEventToPipe(TagCustomBaud, 10), false)
    else
      Step(h', if h'.realFound then Returned(realIoctl(fd, request, argp)) else Faulted, [], true)
  }

  /** A run of calls, each with its own `dlsym` outcome. */
  datatype Call = Call(dlsymFinds: bool, fd: int, request: bv32, argp: nat)

  function Run(h: Hook, realIoctl: (int, bv32, nat) -> int, calls: seq<Call>): Hook
    decreases |calls|
  {
    if |calls| == 0 then h
    else
      var c := calls[0];
      Run(Ioctl(h, c.dlsymFinds, realIoctl, c.fd, c.request, c.argp).hook, realIoctl, calls[1..])
  }

  /** Memoisation: once the real `ioctl` has been found, no later call looks
      it up again. */
  lemma {:induction false} LookupOnceFound(h: Hook, realIoctl: (int, bv32, nat) -> int, calls: seq<Call>)
    requires h.realFound
    ensures Run(h, realIoctl, calls) == h
    decreases |calls|
  {
    if |calls| > 0 {
      var c := calls[0];
      LookupOnceFound(Ioctl(h, c.dlsymFinds, realIoctl, c.fd, c.request, c.argp).hook, realIoctl, calls[1..]);
    }
  }

  /** When `dlsym` succeeds the first time it is asked, a whole run makes
      exactly one lookup. */
  lemma SingleLookup(realIoctl: (int, bv32, nat) -> int, calls: seq<Call>)
    requires |calls| > 0 && calls[0].dlsymFinds
    ensures Run(InitialHook, realIoctl, calls).lookups == 1
  {
    var c := calls[0];
    var h1 := Ioctl(InitialHook, c.dlsymFinds, realIoctl, c.fd, c.request, c.argp).hook;
    assert h1 == Hook(true, 1);
    LookupOnceFound(h1, realIoctl, calls[1..]);
  }
}
