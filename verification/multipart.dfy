/** The `multipart/x-mixed-replace` framing the three MJPEG servers share:
    each JPEG frame becomes a body part with a `Content-type` and a
    `Content-Length` header, and parts are separated by delimiter lines.

    Section 5.1.1 of RFC 2046 fixes the delimiter: a line holding two
    hyphens followed by the `boundary` parameter of the Content-Type. The
    reader below is the partner of the writers: it takes the delimiter from
    the declared boundary and uses `Content-Length` to find the end of
    each frame, so frames may hold any bytes. */
module Multipart {
  import opened Wrappers
  import opened Text

  /** The declared media type for a boundary. */
  function ContentType(boundary: string): string {
    "multipart/x-mixed-replace; boundary=" + boundary
  }

  /** The delimiter of RFC 2046 section 5.1.1. */
  function Delimiter(boundary: string): (d: string)
    ensures |d| == |boundary| + 2 && d[..2] == "--" && d[2..] == boundary
  {
    "--" + boundary
  }

  const PartHead: string := "Content-type: image/jpeg\r\nContent-Length: "
  const HeadEnd: string := "\r\n\r\n"

  /** The bytes ending a part: the frame's CRLF, the delimiter line. */
  function Trailer(delim: string): seq<byte> {
    Ascii("\r\n" + delim + "\r\n")
  }

  /** One part: its headers, the frame, and the delimiter line after it. */
  function Section(delim: string, frame: seq<byte>): seq<byte> {
    Ascii(PartHead) + Ascii(NatToString(|frame|)) + Ascii(HeadEnd) + frame + Trailer(delim)
  }

  /** Parts for every frame, in order. */
  function Sections(delim: string, frames: seq<seq<byte>>): seq<byte>
    decreases |frames|
  {
    if |frames| == 0 then [] else Section(delim, frames[0]) + Sections(delim, frames[1..])
  }

  lemma {:induction false} SectionsAppend(delim: string, a: seq<seq<byte>>, b: seq<seq<byte>>)
    ensures Sections(delim, a + b) == Sections(delim, a) + Sections(delim, b)
    decreases |a|
  {
    if |a| == 0 {
      assert a + b == b;
    } else {
      assert (a + b)[1..] == a[1..] + b;
      SectionsAppend(delim, a[1..], b);
    }
  }

  /** The opening delimiter line followed by the parts. */
  function Body(delim: string, frames: seq<seq<byte>>): seq<byte> {
    Ascii(delim + "\r\n") + Sections(delim, frames)
  }

  lemma HeadThenBody(head: seq<byte>, delim: string, frames: seq<seq<byte>>)
    ensures (head + Ascii(delim + "\r\n")) + Sections(delim, frames) == head + Body(delim, frames)
  {
  }

  /* ---------- the reader ---------- */

  /** The ASCII codes of `0` to `9`. */
  predicate IsDigitByte(b: byte) {
    48 <= b <= 57
  }

  /** The length of the run of decimal digits at the front of `s`. */
  function DigitRun(s: seq<byte>): (k: nat)
    ensures k <= |s|
    ensures forall i :: 0 <= i < k ==> IsDigitByte(s[i])
    ensures k < |s| ==> !IsDigitByte(s[k])
    decreases |s|
  {
    if |s| == 0 || !IsDigitByte(s[0]) then 0 else 1 + DigitRun(s[1..])
  }

  /** The number a run of digit bytes spells. */
  function DecimalValue(d: seq<byte>): nat
    requires forall i :: 0 <= i < |d| ==> IsDigitByte(d[i])
    decreases |d|
  {
    if |d| == 0 then 0
    else
      var last := d[|d| - 1];
      assert IsDigitByte(last);
      DecimalValue(d[..|d| - 1]) * 10 + (last - 48)
  }

  /** One part at the front of `s`: the frame and what follows the part,
      or `None` if `s` does not start with a well-formed part. */
  function ReadSection(s: seq<byte>, delim: string): (r: Option<(seq<byte>, seq<byte>)>)
    ensures r.Some? ==> |r.value.1| < |s|
  {
    var head := Ascii(PartHead);
    if !StartsWith(s, head) then None
    else
      var t := s[|head|..];
      var k := DigitRun(t);
      if k == 0 then None
      else ReadPayload(t[k..], DecimalValue(t[..k]), delim)
  }

  /** After the `Content-Length` digits: the blank line, `n` bytes of
      frame, and the delimiter line. */
  function ReadPayload(rest: seq<byte>, n: nat, delim: string): (r: Option<(seq<byte>, seq<byte>)>)
    ensures r.Some? ==> |r.value.1| < |rest|
  {
    if !StartsWith(rest, Ascii(HeadEnd)) then None
    else
      var body := rest[|HeadEnd|..];
      if |body| < n then None
      else
        var after := body[n..];
        if !StartsWith(after, Trailer(delim)) then None
        else Some((body[..n], after[|Trailer(delim)|..]))
  }

  /** Parts until the stream runs out. */
  function ReadSections(s: seq<byte>, delim: string): Option<seq<seq<byte>>>
    decreases |s|
  {
    if |s| == 0 then Some([])
    else
      match ReadSection(s, delim)
      case None => None
      case Some((frame, rest)) =>
        match ReadSections(rest, delim)
        case None => None
        case Some(frames) => Some([frame] + frames)
  }

  /** A whole body: the opening delimiter line, then parts. */
  function ReadBody(s: seq<byte>, delim: string): Option<seq<seq<byte>>> {
    var open := Ascii(delim + "\r\n");
    if StartsWith(s, open) then ReadSections(s[|open|..], delim) else None
  }

  /* ---------- round trip ---------- */

  lemma {:induction false} DigitRunStops(d: seq<byte>, t: seq<byte>)
    requires forall i :: 0 <= i < |d| ==> IsDigitByte(d[i])
    requires |t| > 0 && !IsDigitByte(t[0])
    ensures DigitRun(d + t) == |d|
    decreases |d|
  {
    if |d| > 0 {
      assert (d + t)[1..] == d[1..] + t;
      DigitRunStops(d[1..], t);
    }
  }

  lemma {:induction false} DecimalValueOfAscii(s: string)
    requires forall i :: 0 <= i < |s| ==> IsDigit(s[i])
    ensures forall i :: 0 <= i < |s| ==> IsDigitByte(Ascii(s)[i])
    ensures DecimalValue(Ascii(s)) == DigitsValue(s)
    decreases |s|
  {
    if |s| > 0 {
      var init := s[..|s| - 1];
      assert Ascii(s)[..|s| - 1] == Ascii(init);
      DecimalValueOfAscii(init);
    }
  }

  lemma ReadPayloadOf(delim: string, frame: seq<byte>, rest: seq<byte>)
    ensures ReadPayload(Ascii(HeadEnd) + frame + Trailer(delim) + rest, |frame|, delim) == Some((frame, rest))
  {
    var tail := Ascii(HeadEnd) + frame + Trailer(delim) + rest;
    var body := tail[|HeadEnd|..];
    assert body == frame + (Trailer(delim) + rest);
    assert body[..|frame|] == frame;
    assert body[|frame|..] == Trailer(delim) + rest;
  }

  /** A part is read back as its frame, leaving what followed it. */
  lemma ReadSectionOfSection(delim: string, frame: seq<byte>, rest: seq<byte>)
    ensures ReadSection(Section(delim, frame) + rest, delim) == Some((frame, rest))
  {
    var s := Section(delim, frame) + rest;
    var digits := Ascii(NatToString(|frame|));
    var tail := Ascii(HeadEnd) + frame + Trailer(delim) + rest;
    assert s == Ascii(PartHead) + (digits + tail);
    var t := s[|Ascii(PartHead)|..];
    assert t == digits + tail;
    DecimalValueOfAscii(NatToString(|frame|));
    DigitsValueOfNatToString(|frame|);
    DigitRunStops(digits, tail);
    assert t[..|digits|] == digits;
    assert t[|digits|..] == tail;
    ReadPayloadOf(delim, frame, rest);
  }

  /** The parts of any list of frames are read back as those frames. */
  lemma {:induction false} ReadSectionsOfSections(delim: string, frames: seq<seq<byte>>)
    ensures ReadSections(Sections(delim, frames), delim) == Some(frames)
    decreases |frames|
  {
    if |frames| > 0 {
      var rest := Sections(delim, frames[1..]);
      assert Sections(delim, frames) == Section(delim, frames[0]) + rest;
      ReadSectionOfSection(delim, frames[0], rest);
      SectionNonEmpty(delim, frames[0]);
      ReadSectionsOfSections(delim, frames[1..]);
      ReadSectionsCons(Sections(delim, frames), delim, frames[0], rest, frames[1..]);
      assert [frames[0]] + frames[1..] == frames;
    }
  }

  lemma SectionNonEmpty(delim: string, frame: seq<byte>)
    ensures |Section(delim, frame)| > 0
  {
    assert |Ascii(PartHead)| == |PartHead| > 0;
  }

  /** One step of the reader: a part, then the parts after it. */
  lemma ReadSectionsCons(s: seq<byte>, delim: string, frame: seq<byte>, rest: seq<byte>, frames: seq<seq<byte>>)
    requires |s| > 0 && ReadSection(s, delim) == Some((frame, rest))
    requires ReadSections(rest, delim) == Some(frames)
    ensures ReadSections(s, delim) == Some([frame] + frames)
  {
  }

  /** A body written with the delimiter a reader derives from the declared
      boundary is read back as exactly the frames written. */
  lemma ReadBodyOfBody(boundary: string, frames: seq<seq<byte>>)
    ensures ReadBody(Body(Delimiter(boundary), frames), Delimiter(boundary)) == Some(frames)
  {
    var delim := Delimiter(boundary);
    var open := Ascii(delim + "\r\n");
    assert Body(delim, frames)[|open|..] == Sections(delim, frames);
    ReadSectionsOfSections(delim, frames);
  }

  /** The same after any header bytes: the body starts right after them. */
  lemma ReadAfterHead(head: seq<byte>, boundary: string, frames: seq<seq<byte>>)
    ensures var s := head + Body(Delimiter(boundary), frames);
      && StartsWith(s, head)
      && s[|head|..] == Body(Delimiter(boundary), frames)
      && ReadBody(s[|head|..], Delimiter(boundary)) == Some(frames)
  {
    PrefixThenRest(head, Body(Delimiter(boundary), frames));
    ReadBodyOfBody(boundary, frames);
  }

  lemma BoundaryAsDelimiterUnreadable(boundary: string, frames: seq<seq<byte>>)
    ensures ReadBody(Body(boundary, frames), Delimiter(boundary)) == None
  {
    var s := Body(boundary, frames);
    assert s[..|boundary| + 2] == Ascii(boundary + "\r\n");
    NoOpeningLine(boundary, s);
  }

  /** The same after any header bytes. */
  lemma UnreadableAfterHead(head: seq<byte>, boundary: string, frames: seq<seq<byte>>)
    ensures var s := head + Body(boundary, frames);
      && StartsWith(s, head)
      && ReadBody(s[|head|..], Delimiter(boundary)) == None
  {
    PrefixThenRest(head, Body(boundary, frames));
    BoundaryAsDelimiterUnreadable(boundary, frames);
  }

  lemma NoOpeningLine(boundary: string, s: seq<byte>)
    requires |boundary| + 2 <= |s| && s[..|boundary| + 2] == Ascii(boundary + "\r\n")
    ensures !StartsWith(s, Ascii(Delimiter(boundary) + "\r\n"))
  {
    var n := |boundary|;
    var open := Ascii(Delimiter(boundary) + "\r\n");
    // The first boundary character that is not a hyphen, if any, is where
    // the body and the opening line part; otherwise they part at the CR.
    var k := HyphenRun(boundary, 0);
    var j := if k < n then k else n;
    assert s[j] == s[..n + 2][j];
    assert open[j] != s[j];
    if |open| <= |s| {
      assert s[..|open|][j] != open[j];
    }
  }

  /** The end of the run of hyphens in `b` from `i`. */
  function HyphenRun(b: string, i: nat): (k: nat)
    requires i <= |b|
    ensures i <= k <= |b|
    ensures forall j :: i <= j < k ==> (b[j] as int) % 256 == '-' as int
    ensures k < |b| ==> (b[k] as int) % 256 != '-' as int
    decreases |b| - i
  {
    if i == |b| || (b[i] as int) % 256 != '-' as int then i else HyphenRun(b, i + 1)
  }
}
