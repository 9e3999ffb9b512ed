/** `MJpegServer.kt` of the Flutter app: a plain server socket on port 5001
    whose accept loop starts a thread per client, and each client thread
    writes a fixed HTTP/1.0 preamble and then a part for every frame the
    provider hands out, for as long as the shared `running` flag is set.

    Threads, sockets and the clock are not modelled. A run is described by
    what its loops observe: the value of `running` at each test of a loop
    condition, the frames fetched, and how each `accept` ended. */
module FlutterMjpeg {
  import opened Wrappers
  import opened Text
  import Multipart

  const ServerPort: int := 5001
  /** Milliseconds `accept` waits before it throws a timeout. */
  const AcceptTimeout: nat := 5000
  const Boundary: string := "OctoMjpegBoundary"
  const CacheControl: string := "no-store, no-cache, must-revalidate, pre-check=0, post-check=0, max-age=0"

  /* ---------- the shared flag ---------- */

  /** The items a `while (running)` loop consumes: `xs[i]` is handled
      after the `i`-th test of the flag saw `running[i]`, and the loop
      ends at the first test that sees `false`. An observation that runs
      out of flags or items is a loop still going. */
  function WhileRunning<T>(running: seq<bool>, xs: seq<T>): (e: seq<T>)
    ensures |e| <= |xs| && |e| <= |running| && e == xs[..|e|]
    ensures forall i :: 0 <= i < |e| ==> running[i]
    ensures |e| < |running| && |e| < |xs| ==> !running[|e|]
    decreases |xs|
  {
    if |running| == 0 || |xs| == 0 || !running[0] then []
    else [xs[0]] + WhileRunning(running[1..], xs[1..])
  }

  /** Once a test has seen `false`, nothing the loop would see later
      matters: flags after the stop add no item. */
  lemma {:induction false} StopIsFinal<T>(before: seq<bool>, after: seq<bool>, xs: seq<T>)
    requires |after| > 0 && !after[0]
    ensures WhileRunning(before + after, xs) == WhileRunning(before, xs)
    decreases |xs|
  {
    if |before| > 0 && |xs| > 0 && before[0] {
      assert (before + after)[1..] == before[1..] + after;
      StopIsFinal(before[1..], after, xs[1..]);
    }
  }

  /** While the flag stays set, every item is consumed, in order. */
  lemma {:induction false} AllWhileRunning<T>(running: seq<bool>, xs: seq<T>)
    requires |running| >= |xs|
    requires forall i :: 0 <= i < |running| ==> running[i]
    ensures WhileRunning(running, xs) == xs
    decreases |xs|
  {
    if |xs| > 0 {
      AllWhileRunning(running[1..], xs[1..]);
    }
  }

  datatype ServerState = ServerState(running: bool, listening: bool)

  /** `stopServer`: clears the flag both loops test and closes the
      listening socket. */
  function StopServer(s: ServerState): (r: ServerState)
    ensures !r.running && !r.listening
  {
    ServerState(false, false)
  }

  /** After `stopServer`, the next test of the flag in either loop sees
      `false`, so neither loop handles anything more. */
  lemma AfterStop<T>(s: ServerState, before: seq<bool>, later: seq<bool>, xs: seq<T>)
    ensures WhileRunning(before + [StopServer(s).running] + later, xs) == WhileRunning(before, xs)
  {
    assert before + [StopServer(s).running] + later == before + ([false] + later);
    StopIsFinal(before, [false] + later, xs);
  }

  /* ---------- a client thread ---------- */

  /** The header lines of the preamble and the blank line after them. */
  function HeaderText(): string {
    StatusLine + HeaderMiddle() + ContentTypeLine()
  }

  const StatusLine: string := "HTTP/1.0 200 OK\r\n"

  /** The media type header, whose value is the multipart type with the
      boundary, and the blank line ending the block. */
  function ContentTypeLine(): string {
    "Content-Type: " + Multipart.ContentType(Boundary) + "\r\n\r\n"
  }

  function HeaderMiddle(): string {
    "Server: OctoMjpegServer\r\n"
    + "Connection: close\r\n"
    + "Max-Age: 0\r\n"
    + "Expires: 0\r\n"
    + "Cache-Control: " + CacheControl + "\r\n"
    + "Pragma: no-cache\r\n"
  }

  /** What a client thread writes before its loop: the header block and
      the opening delimiter line. */
  function Preamble(): seq<byte> {
    Ascii(HeaderText()) + Ascii(Multipart.Delimiter(Boundary) + "\r\n")
  }

  /** The header block opens with the HTTP/1.0 status line and declares the
      boundary as the last header. */
  lemma HeaderShape()
    ensures StartsWith(HeaderText(), "HTTP/1.0 200 OK\r\n")
    ensures EndsWith(HeaderText(), "Content-Type: " + Multipart.ContentType(Boundary) + "\r\n\r\n")
  {
    ThreeParts(StatusLine, HeaderMiddle(), ContentTypeLine());
  }

  lemma ThreeParts(a: string, b: string, c: string)
    ensures StartsWith(a + b + c, a) && EndsWith(a + b + c, c)
  {
    PrefixThenRest(a, b + c);
    assert a + b + c == a + (b + c);
    PrefixThenRest(a + b, c);
  }

  /** The preamble is the one string the thread writes first, the header
      block and `--` and the boundary, and it ends with the delimiter line
      RFC 2046 derives from the declared boundary. */
  lemma PreambleSplit()
    ensures Preamble() == Ascii(HeaderText() + "--" + Boundary + "\r\n")
    ensures EndsWith(Preamble(), Ascii(Multipart.Delimiter(Boundary) + "\r\n"))
  {
    var h := HeaderText();
    assert h + "--" + Boundary + "\r\n" == h + (Multipart.Delimiter(Boundary) + "\r\n");
    AsciiAppend(h, Multipart.Delimiter(Boundary) + "\r\n");
    PrefixThenRest(Ascii(h), Ascii(Multipart.Delimiter(Boundary) + "\r\n"));
  }

  /** The bytes a client thread sends when its loop has seen `running`
      and the provider handed out `frames`: the preamble, then a part per
      frame consumed, empty frames included. */
  function ClientStream(running: seq<bool>, frames: seq<seq<byte>>): seq<byte> {
    Preamble() + Multipart.Sections(Multipart.Delimiter(Boundary), WhileRunning(running, frames))
  }

  /** The client thread: the preamble, then the loop. */
  method HandleClient(running: seq<bool>, frames: seq<seq<byte>>) returns (out: seq<byte>)
    ensures out == ClientStream(running, frames)
  {
    var pre := Preamble();
    var parts := WriteParts(running, frames);
    out := pre + parts;
  }

  /** The client thread's loop: a part per frame until a test of the flag
      sees `false`. */
  method WriteParts(running: seq<bool>, frames: seq<seq<byte>>) returns (out: seq<byte>)
    ensures out == Multipart.Sections(Multipart.Delimiter(Boundary), WhileRunning(running, frames))
  {
    var delim := Multipart.Delimiter(Boundary);
    out := [];
    var i := 0;
    while i < |running| && i < |frames| && running[i]
      invariant i <= |running| && i <= |frames|
      invariant forall j :: 0 <= j < i ==> running[j]
      invariant out == Multipart.Sections(delim, frames[..i])
    {
      Multipart.SectionsAppend(delim, frames[..i], [frames[i]]);
      assert frames[..i + 1] == frames[..i] + [frames[i]];
      out := out + Multipart.Section(delim, frames[i]);
      i := i + 1;
    }
    ConsumedPrefix(running, frames, i);
  }

  /** A loop that stopped after `i` items consumed exactly `xs[..i]`. */
  lemma {:induction false} ConsumedPrefix<T>(running: seq<bool>, xs: seq<T>, i: nat)
    requires i <= |running| && i <= |xs|
    requires forall j :: 0 <= j < i ==> running[j]
    requires i == |running| || i == |xs| || !running[i]
    ensures WhileRunning(running, xs) == xs[..i]
    decreases i
  {
    if i > 0 {
      ConsumedPrefix(running[1..], xs[1..], i - 1);
      assert xs[..i] == [xs[0]] + xs[1..][..i - 1];
    }
  }

  /** A client's stream is the header block followed by an RFC 2046 body of
      the declared boundary, which reads back as every frame the loop
      consumed, empty ones included. */
  lemma ClientReadsBack(running: seq<bool>, frames: seq<seq<byte>>)
    ensures var s := ClientStream(running, frames);
      var head := Ascii(HeaderText());
      && StartsWith(s, head)
      && s[|head|..] == Multipart.Body(Multipart.Delimiter(Boundary), WhileRunning(running, frames))
      && Multipart.ReadBody(s[|head|..], Multipart.Delimiter(Boundary)) == Some(WhileRunning(running, frames))
  {
    ClientStreamSplit(running, frames);
    Multipart.ReadAfterHead(Ascii(HeaderText()), Boundary, WhileRunning(running, frames));
  }

  lemma ClientStreamSplit(running: seq<bool>, frames: seq<seq<byte>>)
    ensures ClientStream(running, frames)
         == Ascii(HeaderText()) + Multipart.Body(Multipart.Delimiter(Boundary), WhileRunning(running, frames))
  {
    var delim := Multipart.Delimiter(Boundary);
    var parts := Multipart.Sections(delim, WhileRunning(running, frames));
    assert Multipart.Body(delim, WhileRunning(running, frames)) == Ascii(delim + "\r\n") + parts;
  }

  /** Unlike the app's servers, an empty frame is not skipped: it is sent
      as a part with `Content-Length: 0` and read back as an empty frame. */
  lemma EmptyFrameSent(running: seq<bool>, frames: seq<seq<byte>>)
    requires |running| >= |frames|
    requires forall i :: 0 <= i < |running| ==> running[i]
    ensures Multipart.ReadBody(ClientStream(running, frames)[|Ascii(HeaderText())|..], Multipart.Delimiter(Boundary))
         == Some(frames)
  {
    AllWhileRunning(running, frames);
    ClientReadsBack(running, frames);
  }

  /* ---------- the accept loop ---------- */

  /** How one `accept` ended: a client, the five-second timeout, or
      another I/O error (including the one closing the socket causes). */
  datatype Accept = Connected | TimedOut | Failed

  /** One round of the accept loop: how `accept` ended, the port the
      socket then reports, and whether rebinding would succeed. */
  datatype Round = Round(accept: Accept, localPort: int, rebindOk: bool)

  /** What a round does that can be seen. */
  datatype Action = StartClient | LogError | Rebind

  /** A round: a thread per client, a log line for an I/O error but none
      for a timeout, and a new server socket when the old one is not on
      the server port (a failed rebind is logged too). */
  function RoundActions(r: Round): (a: seq<Action>)
    ensures StartClient in a <==> r.accept == Connected
    ensures Rebind in a <==> r.localPort != ServerPort
    ensures LogError in a <==> r.accept == Failed || (r.localPort != ServerPort && !r.rebindOk)
    ensures r.accept == TimedOut && r.localPort == ServerPort ==> a == []
  {
    (match r.accept
     case Connected => [StartClient]
     case TimedOut => []
     case Failed => [LogError])
    + (if r.localPort != ServerPort then [Rebind] + (if r.rebindOk then [] else [LogError]) else [])
  }

  function Actions(rounds: seq<Round>): seq<Action>
    decreases |rounds|
  {
    if |rounds| == 0 then [] else RoundActions(rounds[0]) + Actions(rounds[1..])
  }

  lemma {:induction false} ActionsAppend(a: seq<Round>, b: seq<Round>)
    ensures Actions(a + b) == Actions(a) + Actions(b)
    decreases |a|
  {
    if |a| == 0 {
      assert a + b == b;
    } else {
      assert (a + b)[1..] == a[1..] + b;
      ActionsAppend(a[1..], b);
    }
  }

  /** `run` after its loop has seen `running` and the rounds `rounds`. */
  function AcceptLoop(running: seq<bool>, rounds: seq<Round>): seq<Action> {
    Actions(WhileRunning(running, rounds))
  }

  /** How many rounds the loop runs depends only on the flag: no outcome of
      `accept`, timeout or error, ends it. */
  lemma {:induction false} RoundsIgnoreOutcomes(running: seq<bool>, rounds: seq<Round>, others: seq<Round>)
    requires |rounds| == |others|
    ensures |WhileRunning(running, rounds)| == |WhileRunning(running, others)|
    decreases |rounds|
  {
    if |running| > 0 && |rounds| > 0 && running[0] {
      RoundsIgnoreOutcomes(running[1..], rounds[1..], others[1..]);
    }
  }

  /** A timeout on the server port is swallowed: the round adds nothing and
      the loop goes on with the next round. */
  lemma TimeoutSwallowed(running: seq<bool>, rounds: seq<Round>, i: nat)
    requires i < |WhileRunning(running, rounds)|
    requires rounds[i].accept == TimedOut && rounds[i].localPort == ServerPort
    ensures AcceptLoop(running, rounds)
         == Actions(rounds[..i]) + Actions(WhileRunning(running[i + 1..], rounds[i + 1..]))
  {
    WhileRunningSplit(running, rounds, i);
    ActionsAround(rounds[..i], rounds[i], WhileRunning(running[i + 1..], rounds[i + 1..]));
  }

  /** The actions of rounds around one round `r`. */
  lemma ActionsAround(a: seq<Round>, r: Round, b: seq<Round>)
    ensures Actions(a + [r] + b) == Actions(a) + RoundActions(r) + Actions(b)
  {
    ActionsAppend(a + [r], b);
    ActionsAppend(a, [r]);
    ActionsOne(r);
  }

  lemma ActionsOne(r: Round)
    ensures Actions([r]) == RoundActions(r)
  {
    assert [r][1..] == [];
    assert Actions([r]) == RoundActions(r) + Actions([]);
  }

  /** A loop that got past item `i` consumed the items before it, item
      `i`, and then what a loop started at `i + 1` consumes. */
  lemma {:induction false} WhileRunningSplit<T>(running: seq<bool>, xs: seq<T>, i: nat)
    requires i < |WhileRunning(running, xs)|
    ensures WhileRunning(running, xs) == xs[..i] + [xs[i]] + WhileRunning(running[i + 1..], xs[i + 1..])
    decreases i
  {
    var tail := WhileRunning(running[1..], xs[1..]);
    assert WhileRunning(running, xs) == [xs[0]] + tail;
    if i == 0 {
      assert xs[..0] + [xs[0]] == [xs[0]];
    } else {
      WhileRunningSplit(running[1..], xs[1..], i - 1);
      assert running[1..][i..] == running[i + 1..];
      assert xs[1..][i..] == xs[i + 1..];
      assert xs[..i] == [xs[0]] + xs[1..][..i - 1];
    }
  }
}
