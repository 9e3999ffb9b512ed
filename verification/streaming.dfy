/** What the MJPEG servers do to a client connection, as a trace: the
    bytes they write, and the calls on the frame provider's listener
    count. The two app servers share the loop that writes one part per
    newest frame and skips a frame that is still empty. */
module Streaming {
  import opened Text
  import Lists
  import Multipart

  datatype Event = Write(bytes: seq<byte>) | Register | Unregister | Close

  /** The bytes that reach the client. */
  function Written(events: seq<Event>): seq<byte>
    decreases |events|
  {
    if |events| == 0 then []
    else (if events[0].Write? then events[0].bytes else []) + Written(events[1..])
  }

  /** How often `e` occurs in a trace. */
  function Count(events: seq<Event>, e: Event): nat
    decreases |events|
  {
    if |events| == 0 then 0 else (if events[0] == e then 1 else 0) + Count(events[1..], e)
  }

  lemma {:induction false} WrittenAppend(a: seq<Event>, b: seq<Event>)
    ensures Written(a + b) == Written(a) + Written(b)
    ensures Count(a + b, Register) == Count(a, Register) + Count(b, Register)
    ensures Count(a + b, Unregister) == Count(a, Unregister) + Count(b, Unregister)
    decreases |a|
  {
    if |a| == 0 {
      assert a + b == b;
    } else {
      assert (a + b)[1..] == a[1..] + b;
      WrittenAppend(a[1..], b);
    }
  }

  lemma CountPair(a: Event, b: Event, e: Event)
    ensures Count([a, b], e) == (if a == e then 1 else 0) + (if b == e then 1 else 0)
    ensures Written([a, b]) == (if a.Write? then a.bytes else []) + (if b.Write? then b.bytes else [])
  {
    assert [a, b][1..] == [b];
    assert [b][1..] == [];
    assert Count([b], e) == (if b == e then 1 else 0) + Count([], e);
    assert Written([b]) == (if b.Write? then b.bytes else []) + Written([]);
  }

  /* ---------- the frame loop ---------- */

  predicate NonEmpty(frame: seq<byte>) { |frame| > 0 }

  /** One pass of the loop with `frame` as the provider's newest frame:
      a part when it holds bytes, nothing when it is empty. */
  function Pass(delim: string, frame: seq<byte>): seq<Event> {
    if |frame| > 0 then [Write(Multipart.Section(delim, frame))] else []
  }

  function Passes(delim: string, frames: seq<seq<byte>>): seq<Event>
    decreases |frames|
  {
    if |frames| == 0 then [] else Pass(delim, frames[0]) + Passes(delim, frames[1..])
  }

  lemma {:induction false} PassesAppend(delim: string, a: seq<seq<byte>>, b: seq<seq<byte>>)
    ensures Passes(delim, a + b) == Passes(delim, a) + Passes(delim, b)
    decreases |a|
  {
    if |a| == 0 {
      assert a + b == b;
    } else {
      assert (a + b)[1..] == a[1..] + b;
      PassesAppend(delim, a[1..], b);
    }
  }

  /** The passes write one part per non-empty frame, in order, and never
      touch the listener. */
  lemma PassesWrite(delim: string, frames: seq<seq<byte>>)
    ensures Written(Passes(delim, frames)) == Multipart.Sections(delim, Lists.Filter(frames, NonEmpty))
    ensures Count(Passes(delim, frames), Register) == 0 && Count(Passes(delim, frames), Unregister) == 0
    ensures forall i :: 0 <= i < |Passes(delim, frames)| ==> Passes(delim, frames)[i].Write?
  {
    PassesBytes(delim, frames);
    PassesOnlyWrite(delim, frames);
  }

  lemma {:induction false} PassesBytes(delim: string, frames: seq<seq<byte>>)
    ensures Written(Passes(delim, frames)) == Multipart.Sections(delim, Lists.Filter(frames, NonEmpty))
    decreases |frames|
  {
    if |frames| > 0 {
      var first := Pass(delim, frames[0]);
      var rest := Passes(delim, frames[1..]);
      assert Passes(delim, frames) == first + rest;
      PassesBytes(delim, frames[1..]);
      WrittenAppend(first, rest);
      PassBytes(delim, frames);
    }
  }

  /** One pass writes the part of the first frame exactly when the filter
      keeps that frame. */
  lemma PassBytes(delim: string, frames: seq<seq<byte>>)
    requires |frames| > 0
    ensures Written(Pass(delim, frames[0])) + Multipart.Sections(delim, Lists.Filter(frames[1..], NonEmpty))
         == Multipart.Sections(delim, Lists.Filter(frames, NonEmpty))
  {
    WrittenPass(delim, frames[0]);
    FilterNonEmptyCons(frames);
    if |frames[0]| > 0 {
      SectionsCons(delim, frames[0], Lists.Filter(frames[1..], NonEmpty));
    }
  }

  lemma WrittenPass(delim: string, frame: seq<byte>)
    ensures Written(Pass(delim, frame)) == if |frame| > 0 then Multipart.Section(delim, frame) else []
  {
    if |frame| > 0 {
      var e := Write(Multipart.Section(delim, frame));
      assert [e][1..] == [];
      assert Written([e]) == e.bytes + Written([]);
    }
  }

  lemma FilterNonEmptyCons(frames: seq<seq<byte>>)
    requires |frames| > 0
    ensures Lists.Filter(frames, NonEmpty)
         == if |frames[0]| > 0 then [frames[0]] + Lists.Filter(frames[1..], NonEmpty) else Lists.Filter(frames[1..], NonEmpty)
  {
  }

  lemma SectionsCons(delim: string, frame: seq<byte>, rest: seq<seq<byte>>)
    ensures Multipart.Sections(delim, [frame] + rest) == Multipart.Section(delim, frame) + Multipart.Sections(delim, rest)
  {
    assert ([frame] + rest)[1..] == rest;
  }

  lemma {:induction false} PassesOnlyWrite(delim: string, frames: seq<seq<byte>>)
    ensures Count(Passes(delim, frames), Register) == 0 && Count(Passes(delim, frames), Unregister) == 0
    ensures forall i :: 0 <= i < |Passes(delim, frames)| ==> Passes(delim, frames)[i].Write?
    decreases |frames|
  {
    if |frames| > 0 {
      var first := Pass(delim, frames[0]);
      var rest := Passes(delim, frames[1..]);
      assert Passes(delim, frames) == first + rest;
      PassesOnlyWrite(delim, frames[1..]);
      WrittenAppend(first, rest);
      if |frames[0]| > 0 {
        assert first[1..] == [];
      }
    }
  }

  /** An empty newest frame adds nothing to the stream. */
  lemma EmptyFrameWritesNothing(delim: string, frames: seq<seq<byte>>)
    ensures Passes(delim, frames + [[]]) == Passes(delim, frames)
  {
    PassesAppend(delim, frames, [[]]);
    assert Passes(delim, [[]]) == [];
  }
}
