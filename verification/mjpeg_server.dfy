/** `MJpegServer.kt` of the app: a NanoHTTPD server with three routes, a
    JPEG snapshot, an MJPEG stream and an index page.

    The HTTP library, the coroutine and the pipe between them are not
    modelled; a response is its status line data and headers, and the
    stream is the bytes written into the pipe together with the calls on
    the frame provider, in order. */
module MjpegServer {
  import opened Wrappers
  import opened Text
  import Lists
  import Multipart
  import opened Streaming

  const Boundary: string := "frame"
  /** The delimiter the coroutine writes before and after every part. */
  const StreamDelimiter: string := "--frame"
  const CacheControl: string := "no-store, no-cache, must-revalidate, pre-check=0, post-check=0, max-age=0"
  const IndexPage: string :=
    "<html><body>"
    + "<h1>GET /snapshot</h1><p>GET a current JPEG image.</p>"
    + "<h1>GET /mjpeg</h1><p>GET MJPEG frames.</p>"
    + "</body></html>"

  /** What the server sends back for a request: the index route carries
      the fixed-length page it sends. */
  datatype Route = Snapshot | Stream | Index(page: string)

  datatype Response = Response(route: Route, mimeType: string, chunked: bool, headers: seq<(string, string)>)

  /** `serve`: routing on the request URI; a missing session or URI falls
      to the index page, which NanoHTTPD sends as `text/html`. */
  function Serve(uri: Option<string>): (r: Response)
    ensures r.route == Snapshot <==> uri == Some("/snapshot")
    ensures r.route == Stream <==> uri == Some("/mjpeg")
    ensures r.route == Snapshot ==> r.mimeType == "image/jpeg" && r.chunked && r.headers == []
    ensures r.route == Stream ==> r.mimeType == Multipart.ContentType(Boundary) && r.chunked
    ensures r.route == Stream ==> ("Connection", "close") in r.headers && ("Cache-Control", CacheControl) in r.headers
    ensures r.route.Index? <==> uri != Some("/snapshot") && uri != Some("/mjpeg")
    ensures r.route.Index? ==> r.mimeType == "text/html" && !r.chunked && r.route.page == IndexPage
  {
    match uri
    case Some("/snapshot") => Response(Snapshot, "image/jpeg", true, [])
    case Some("/mjpeg") =>
      Response(Stream, "multipart/x-mixed-replace; boundary=frame", true,
        [("Cache-Control", CacheControl), ("Max-Age", "0"), ("Connection", "close"),
         ("Expires", "0"), ("Pragma", "no-cache")])
    case _ => Response(Index(IndexPage), "text/html", false, [])
  }

  /** The snapshot route's body: the snapshot's bytes, or nothing when
      taking it failed (the failure is only logged). On success `use`
      closes the pipe after the bytes, which ends the chunked response;
      on failure the pipe is never closed, so the empty response never
      ends. The model gives only the bytes sent. */
  function SnapshotBody(snapshot: Option<seq<byte>>): (b: seq<byte>)
    ensures snapshot.Some? ==> b == snapshot.value
    ensures snapshot.None? ==> b == []
  {
    match snapshot
    case Some(data) => data
    case None => []
  }

  /* ---------- the stream ---------- */

  /** How far a stream got: still running, or failed (the `while (true)`
      loop ends only by an exception) either on the opening delimiter
      line or later. */
  datatype Ending = Running | FailedOpening | FailedStreaming

  /** The `/mjpeg` coroutine after the loop has seen `frames`. */
  function StreamSession(frames: seq<seq<byte>>, ending: Ending): seq<Event> {
    if ending == FailedOpening then [Unregister, Close]
    else
      [Write(Ascii(StreamDelimiter + "\r\n")), Register] + Passes(StreamDelimiter, frames)
      + (if ending == FailedStreaming then [Unregister, Close] else [])
  }

  /** The bytes of a stream that got past its opening line: that line,
      then what the passes wrote. */
  lemma SessionWritten(frames: seq<seq<byte>>, ending: Ending)
    requires ending != FailedOpening
    ensures Written(StreamSession(frames, ending)) == Ascii(StreamDelimiter + "\r\n") + Written(Passes(StreamDelimiter, frames))
  {
    var opening := [Write(Ascii(StreamDelimiter + "\r\n")), Register];
    var closing: seq<Event> := if ending == FailedStreaming then [Unregister, Close] else [];
    assert StreamSession(frames, ending) == opening + Passes(StreamDelimiter, frames) + closing;
    WrittenAppend(opening + Passes(StreamDelimiter, frames), closing);
    WrittenAppend(opening, Passes(StreamDelimiter, frames));
    CountPair(Write(Ascii(StreamDelimiter + "\r\n")), Register, Register);
    if ending == FailedStreaming {
      CountPair(Unregister, Close, Register);
    }
  }

  /** That is an RFC 2046 body: the opening delimiter line, then one part
      per non-empty frame. */
  lemma StreamWritten(frames: seq<seq<byte>>, ending: Ending)
    requires ending != FailedOpening
    ensures Written(StreamSession(frames, ending))
         == Multipart.Body(Multipart.Delimiter(Boundary), Lists.Filter(frames, NonEmpty))
  {
    SessionWritten(frames, ending);
    PassesWrite(StreamDelimiter, frames);
    assert Multipart.Delimiter(Boundary) == StreamDelimiter;
  }

  /** The stream is an RFC 2046 body of the boundary the response declares:
      a reader that takes the delimiter from the Content-Type gets back
      exactly the non-empty frames the loop saw, in order. */
  lemma StreamReadsBack(frames: seq<seq<byte>>, ending: Ending)
    requires ending != FailedOpening
    ensures Serve(Some("/mjpeg")).mimeType == Multipart.ContentType(Boundary)
    ensures Multipart.ReadBody(Written(StreamSession(frames, ending)), Multipart.Delimiter(Boundary))
         == Some(Lists.Filter(frames, NonEmpty))
  {
    StreamWritten(frames, ending);
    Multipart.ReadBodyOfBody(Boundary, Lists.Filter(frames, NonEmpty));
  }

  /** The listener is registered right after the opening line, before any
      frame is written, and unregistered when the stream fails; a failure
      on the opening line unregisters a listener that was never registered. */
  lemma ListenerCalls(frames: seq<seq<byte>>, ending: Ending)
    ensures var ev := StreamSession(frames, ending);
      && (ending != FailedOpening ==> ev[1] == Register && forall i :: 2 <= i < |ev| ==> ev[i] != Register)
      && (ending == Running ==> Count(ev, Register) == 1 && Count(ev, Unregister) == 0)
      && (ending == FailedStreaming ==> Count(ev, Register) == 1 && Count(ev, Unregister) == 1 && ev[|ev| - 2] == Unregister)
      && (ending == FailedOpening ==> Count(ev, Register) == 0 && Count(ev, Unregister) == 1)
  {
    if ending == FailedOpening {
      CountPair(Unregister, Close, Register);
      CountPair(Unregister, Close, Unregister);
    } else {
      SessionCounts(frames, ending);
      NoLaterRegister(frames, ending);
    }
  }

  lemma SessionCounts(frames: seq<seq<byte>>, ending: Ending)
    requires ending != FailedOpening
    ensures var ev := StreamSession(frames, ending);
      && Count(ev, Register) == 1
      && Count(ev, Unregister) == (if ending == FailedStreaming then 1 else 0)
      && (ending == FailedStreaming ==> ev[|ev| - 2] == Unregister)
  {
    var opening := [Write(Ascii(StreamDelimiter + "\r\n")), Register];
    var closing: seq<Event> := if ending == FailedStreaming then [Unregister, Close] else [];
    var passes := Passes(StreamDelimiter, frames);
    assert StreamSession(frames, ending) == opening + passes + closing;
    PassesWrite(StreamDelimiter, frames);
    WrittenAppend(opening + passes, closing);
    WrittenAppend(opening, passes);
    CountPair(Write(Ascii(StreamDelimiter + "\r\n")), Register, Register);
    CountPair(Write(Ascii(StreamDelimiter + "\r\n")), Register, Unregister);
    if ending == FailedStreaming {
      CountPair(Unregister, Close, Register);
      CountPair(Unregister, Close, Unregister);
    }
  }

  lemma NoLaterRegister(frames: seq<seq<byte>>, ending: Ending)
    requires ending != FailedOpening
    ensures var ev := StreamSession(frames, ending);
      ev[1] == Register && forall i :: 2 <= i < |ev| ==> ev[i] != Register
  {
    var opening := [Write(Ascii(StreamDelimiter + "\r\n")), Register];
    var closing: seq<Event> := if ending == FailedStreaming then [Unregister, Close] else [];
    var passes := Passes(StreamDelimiter, frames);
    var ev := StreamSession(frames, ending);
    assert ev == opening + passes + closing;
    PassesWrite(StreamDelimiter, frames);
    forall i | 2 <= i < |ev|
      ensures ev[i] != Register
    {
      if i < 2 + |passes| {
        assert ev[i] == passes[i - 2];
      } else {
        assert ev[i] == closing[i - 2 - |passes|];
      }
    }
  }
}
