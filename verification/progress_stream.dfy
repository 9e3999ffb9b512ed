/** `ProgressTrackingInputStream.kt`: an input-stream filter that counts
    the bytes read through it and reports the running total to a listener.

    What the wrapped stream returns is a parameter of each read; the
    listener's calls are returned as the sequence of totals it was given. */
module ProgressStream {

  /** One call on the filter, with what the wrapped stream returned: the
      single-byte `read()` (a byte 0..255, or -1 at end of stream) or the
      bulk `read(b, off, len)` (a count, 0 for `len == 0`, or -1). */
  datatype ReadCall = Single(result: int) | Bulk(bytesRead: int)

  /** The number of bytes the wrapped stream delivered in one call. */
  function Delivered(c: ReadCall): (n: nat)
    ensures c.Single? ==> (n == 1 <==> c.result >= 0) && n <= 1
    ensures c.Bulk? && c.bytesRead > 0 ==> n == c.bytesRead
    ensures c.Bulk? && c.bytesRead <= 0 ==> n == 0
  {
    match c
    case Single(b) => if b >= 0 then 1 else 0
    case Bulk(k) => if k > 0 then k else 0
  }

  /** What one call leaves behind: the new total, the listener's calls, and
      the value handed back to the caller. */
  datatype Outcome = Outcome(total: int, reported: seq<int>, returned: int)

  /** Either `read` override, starting from `totalBytesRead == total`. */
  function Read(total: int, c: ReadCall): (o: Outcome)
    ensures o.returned == (if c.Single? then c.result else c.bytesRead)
    ensures o.total == total + Delivered(c)
    ensures o.total >= total
    ensures o.reported == (if o.total != total then [o.total] else [])
  {
    match c
    case Single(b) =>
      if b >= 0 then Outcome(total + 1, [total + 1], b) else Outcome(total, [], b)
    case Bulk(k) =>
      if k > 0 then Outcome(total + k, [total + k], k) else Outcome(total, [], k)
  }

  /** The counter's initial value. */
  const Initial: int := 0

  /** A run of calls on a fresh filter: the final total and every value the
      listener received, in order. */
  function Run(calls: seq<ReadCall>): (r: (int, seq<int>))
    decreases |calls|
  {
    if |calls| == 0 then (Initial, [])
    else
      var before := Run(calls[..|calls| - 1]);
      var o := Read(before.0, calls[|calls| - 1]);
      (o.total, before.1 + o.reported)
  }

  /** Bytes delivered over a run. */
  function TotalDelivered(calls: seq<ReadCall>): nat
    decreases |calls|
  {
    if |calls| == 0 then 0 else TotalDelivered(calls[..|calls| - 1]) + Delivered(calls[|calls| - 1])
  }

  /** The calls that delivered at least one byte. */
  function Productive(calls: seq<ReadCall>): nat
    decreases |calls|
  {
    if |calls| == 0 then 0
    else Productive(calls[..|calls| - 1]) + (if Delivered(calls[|calls| - 1]) > 0 then 1 else 0)
  }

  /** Over any run the total is the number of bytes delivered, the
      listener is called once per productive call with strictly increasing
      positive totals, and its last value is the current total. */
  lemma {:induction false} RunReportsProgress(calls: seq<ReadCall>)
    ensures Run(calls).0 == TotalDelivered(calls)
    ensures |Run(calls).1| == Productive(calls)
    ensures forall i, j :: 0 <= i < j < |Run(calls).1| ==> 0 < Run(calls).1[i] < Run(calls).1[j]
    ensures |Run(calls).1| > 0 ==> Run(calls).1[|Run(calls).1| - 1] == Run(calls).0
    ensures forall i :: 0 <= i < |Run(calls).1| ==> 0 < Run(calls).1[i] <= Run(calls).0
    decreases |calls|
  {
    if |calls| > 0 {
      var init := calls[..|calls| - 1];
      RunReportsProgress(init);
      var before := Run(init);
      var o := Read(before.0, calls[|calls| - 1]);
      assert Run(calls) == (o.total, before.1 + o.reported);
    }
  }
}
