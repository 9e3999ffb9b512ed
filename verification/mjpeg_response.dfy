/** `MjpegResponse.kt`: a NanoHTTPD response that writes its own HTTP
    header block and then MJPEG parts straight to the client's socket.

    The response is constructed with the media type
    `multipart/x-mixed-replace; boundary=--octo4a` and writes `--octo4a`
    as its delimiter line. By section 5.1.1 of RFC 2046 the delimiter of
    that boundary is `----octo4a`, so a conforming reader finds no part;
    `SendAsWritten` is the code as it stands, and `Send` declares the
    boundary `octo4a`, whose delimiter is the line actually written. */
module MjpegResponse {
  import opened Wrappers
  import opened Text
  import Lists
  import Multipart
  import opened Streaming

  /** The media type given to the constructor. */
  const DeclaredMime: string := "multipart/x-mixed-replace; boundary=--octo4a"
  /** The media type whose boundary matches the delimiter written. */
  const CorrectedMime: string := "multipart/x-mixed-replace; boundary=octo4a"
  const WrittenDelimiter: string := "--octo4a"
  /** NanoHTTPD's description of `Status.OK`. */
  const StatusOk: string := "200 OK"
  const CacheControl: string := "no-store, no-cache, must-revalidate, pre-check=0, post-check=0, max-age=0"

  /** The header lines and the blank line that ends them; `date` is the
      current time in RFC 1123 form, a parameter here. */
  function HeaderBlock(date: string, mime: string): string {
    HeaderFront(date) + "Content-Type: " + mime + "\r\n\r\n"
  }

  function HeaderFront(date: string): string {
    "HTTP/1.1 " + StatusOk + " \r\n"
    + "Date: " + date + "\r\n"
    + "Connection: close\r\n"
    + "Cache-Control: " + CacheControl + "\r\n"
    + "Expires: 0\r\n"
    + "Max-Age: 0\r\n"
    + "Pragma: no-cache\r\n"
  }

  lemma StatusLineFirst(date: string)
    ensures StartsWith(HeaderFront(date), "HTTP/1.1 200 OK \r\n")
  {
    var status := "HTTP/1.1 " + StatusOk + " \r\n";
    assert status == "HTTP/1.1 200 OK \r\n";
    var rest := "Date: " + date + "\r\n"
      + "Connection: close\r\n"
      + "Cache-Control: " + CacheControl + "\r\n"
      + "Expires: 0\r\n"
      + "Max-Age: 0\r\n"
      + "Pragma: no-cache\r\n";
    assert HeaderFront(date) == status + rest;
    PrefixThenRest(status, rest);
  }

  /** The block opens with the status line and its last header, right
      before the blank line, carries the media type the response was
      constructed with. */
  lemma HeaderBlockShape(date: string, mime: string)
    ensures StartsWith(HeaderBlock(date, mime), "HTTP/1.1 200 OK \r\n")
    ensures EndsWith(HeaderBlock(date, mime), "Content-Type: " + mime + "\r\n\r\n")
  {
    var front := HeaderFront(date);
    var back := "Content-Type: " + mime + "\r\n\r\n";
    assert HeaderBlock(date, mime) == front + back;
    PrefixThenRest(front, back);
    StatusLineFirst(date);
  }

  /** How far `send` got: still streaming, or ended by an exception (the
      loop has no other exit). */
  datatype Ending = Running | Failed

  /** `send` with the response's media type `mime`, after the loop has
      seen `frames`: register, the header block and the opening
      delimiter line, a part per non-empty frame; on failure the stream is
      closed and then the listener unregistered. */
  function SendWith(mime: string, date: string, frames: seq<seq<byte>>, ending: Ending): seq<Event> {
    Trace(Ascii(HeaderBlock(date, mime)), WrittenDelimiter, frames, ending)
  }

  /** The same trace for any header bytes and delimiter line. */
  function Trace(head: seq<byte>, delim: string, frames: seq<seq<byte>>, ending: Ending): seq<Event> {
    [Register, Write(head + Ascii(delim + "\r\n"))]
    + Passes(delim, frames)
    + (if ending == Failed then [Close, Unregister] else [])
  }

  function SendAsWritten(date: string, frames: seq<seq<byte>>, ending: Ending): seq<Event> {
    SendWith(DeclaredMime, date, frames, ending)
  }

  function Send(date: string, frames: seq<seq<byte>>, ending: Ending): seq<Event> {
    SendWith(CorrectedMime, date, frames, ending)
  }

  lemma TraceWritten(head: seq<byte>, delim: string, frames: seq<seq<byte>>, ending: Ending)
    ensures Written(Trace(head, delim, frames, ending)) == (head + Ascii(delim + "\r\n")) + Written(Passes(delim, frames))
  {
    var first := [Register, Write(head + Ascii(delim + "\r\n"))];
    var closing: seq<Event> := if ending == Failed then [Close, Unregister] else [];
    var passes := Passes(delim, frames);
    assert Trace(head, delim, frames, ending) == first + passes + closing;
    WrittenAppend(first + passes, closing);
    WrittenAppend(first, passes);
    CountPair(Register, Write(head + Ascii(delim + "\r\n")), Register);
    if ending == Failed {
      CountPair(Close, Unregister, Register);
    }
  }

  /** After the header bytes come the opening delimiter line and one part
      per non-empty frame: the head, then a multipart body. */
  lemma TraceBody(head: seq<byte>, delim: string, frames: seq<seq<byte>>, ending: Ending)
    ensures Written(Trace(head, delim, frames, ending)) == head + Multipart.Body(delim, Lists.Filter(frames, NonEmpty))
  {
    TraceWritten(head, delim, frames, ending);
    PassesWrite(delim, frames);
    Multipart.HeadThenBody(head, delim, Lists.Filter(frames, NonEmpty));
  }

  /** As written, the declared boundary is `--octo4a`, and a reader that
      takes the delimiter from it cannot read the body after the header
      block, whatever the frames. */
  lemma AsWrittenUnreadable(date: string, frames: seq<seq<byte>>, ending: Ending)
    ensures DeclaredMime == Multipart.ContentType(WrittenDelimiter)
    ensures var s := Written(SendAsWritten(date, frames, ending));
      var head := Ascii(HeaderBlock(date, DeclaredMime));
      && StartsWith(s, head)
      && Multipart.ReadBody(s[|head|..], Multipart.Delimiter(WrittenDelimiter)) == None
  {
    DeclaredBoundary();
    TraceBody(Ascii(HeaderBlock(date, DeclaredMime)), WrittenDelimiter, frames, ending);
    Multipart.UnreadableAfterHead(Ascii(HeaderBlock(date, DeclaredMime)), WrittenDelimiter, Lists.Filter(frames, NonEmpty));
  }

  lemma DeclaredBoundary()
    ensures DeclaredMime == Multipart.ContentType(WrittenDelimiter)
  {
  }

  /** With the corrected media type, the body after the header block reads
      back as exactly the non-empty frames, in order. */
  lemma SendReadsBack(date: string, frames: seq<seq<byte>>, ending: Ending)
    ensures CorrectedMime == Multipart.ContentType("octo4a")
    ensures Multipart.Delimiter("octo4a") == WrittenDelimiter
    ensures var s := Written(Send(date, frames, ending));
      var head := Ascii(HeaderBlock(date, CorrectedMime));
      && StartsWith(s, head)
      && Multipart.ReadBody(s[|head|..], Multipart.Delimiter("octo4a")) == Some(Lists.Filter(frames, NonEmpty))
  {
    TraceBody(Ascii(HeaderBlock(date, CorrectedMime)), WrittenDelimiter, frames, ending);
    CorrectedBoundary();
    Multipart.ReadAfterHead(Ascii(HeaderBlock(date, CorrectedMime)), "octo4a", Lists.Filter(frames, NonEmpty));
  }

  lemma CorrectedBoundary()
    ensures CorrectedMime == Multipart.ContentType("octo4a")
    ensures Multipart.Delimiter("octo4a") == WrittenDelimiter
  {
  }

  /** The listener is registered first, before anything is written, and on
      failure unregistered last, after the stream is closed: once each. */
  lemma ListenerBalanced(head: seq<byte>, delim: string, frames: seq<seq<byte>>, ending: Ending)
    ensures var ev := Trace(head, delim, frames, ending);
      && ev[0] == Register && Count(ev, Register) == 1
      && (ending == Failed ==> ev[|ev| - 1] == Unregister && ev[|ev| - 2] == Close && Count(ev, Unregister) == 1)
      && (ending == Running ==> Count(ev, Unregister) == 0)
  {
    var opening := [Register, Write(head + Ascii(delim + "\r\n"))];
    var closing: seq<Event> := if ending == Failed then [Close, Unregister] else [];
    var passes := Passes(delim, frames);
    assert Trace(head, delim, frames, ending) == opening + passes + closing;
    WrittenAppend(opening + passes, closing);
    WrittenAppend(opening, passes);
    PassesWrite(delim, frames);
    CountPair(Register, Write(head + Ascii(delim + "\r\n")), Register);
    CountPair(Register, Write(head + Ascii(delim + "\r\n")), Unregister);
    if ending == Failed {
      CountPair(Close, Unregister, Register);
      CountPair(Close, Unregister, Unregister);
    }
  }
}
