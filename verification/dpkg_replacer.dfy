/** `bootstrap-builder/dpkg_replacer.go`: rewrites a Termux `.deb` for the
    `com.octo4a` prefix. Every occurrence of "com.termux" in the tar entry
    names and contents of the package's `data.tar.xz` becomes "com.octo4a";
    the data member is stored decompressed as `data.tar`, and every other
    `ar` member is copied verbatim.

    Archive parsing and serialisation are parameters: a reader is the
    sequence of records it yields followed by how it ended, `xz`
    decompression plus tar parsing is a function from the member's bytes
    to such a reader, and the tar writer's byte encoding is a function of
    the entries written. */
module DpkgReplacer {
  import opened Wrappers
  import opened Text

  /** `REPLACE_FROM` and `REPLACE_TO`, as text and as bytes. */
  const From: string := "com.termux"
  const To: string := "com.octo4a"

  function FromBytes(): seq<byte> { Ascii(From) }
  function ToBytes(): seq<byte> { Ascii(To) }

  /* ---------- replacement without overlaps ---------- */

  /** No proper suffix of `pat` is also a prefix of it, so two occurrences
      of `pat` can never overlap. */
  predicate BorderFree<T(==)>(pat: seq<T>) {
    forall d :: 0 < d < |pat| ==> pat[d..] != pat[..|pat| - d]
  }

  /** Position `k` of `s` lies inside some occurrence of `pat`. */
  ghost predicate Covered<T>(s: seq<T>, pat: seq<T>, k: int) {
    exists i :: 0 <= i <= k < i + |pat| && OccursAt(s, pat, i)
  }

  /** Two overlapping occurrences make the overlap a border. */
  lemma OverlapIsBorder<T>(s: seq<T>, pat: seq<T>, i: int, j: int)
    requires OccursAt(s, pat, i) && OccursAt(s, pat, j) && i < j < i + |pat|
    ensures pat[j - i..] == pat[..|pat| - (j - i)]
  {
    var d := j - i;
    assert pat[d..] == s[j..i + |pat|];
    assert pat[..|pat| - d] == s[j..i + |pat|];
  }

  lemma NoOverlap<T>(s: seq<T>, pat: seq<T>, i: int, j: int)
    requires BorderFree(pat)
    requires OccursAt(s, pat, i) && OccursAt(s, pat, j) && i < j
    ensures j >= i + |pat|
  {
    if j < i + |pat| {
      OverlapIsBorder(s, pat, i, j);
    }
  }

  /** What the replacement characterises: the output is as long as the
      input, holds `rep` wherever the input holds `pat`, and keeps every
      element outside the occurrences. */
  ghost predicate Characterised<T>(s: seq<T>, pat: seq<T>, rep: seq<T>, r: seq<T>) {
    && |r| == |s|
    && (forall i :: OccursAt(s, pat, i) ==> OccursAt(r, rep, i))
    && (forall k :: 0 <= k < |s| && !Covered(s, pat, k) ==> r[k] == s[k])
  }

  /** An occurrence in a suffix is an occurrence in the whole. */
  lemma OccursShift<T>(s: seq<T>, pat: seq<T>, d: nat, j: int)
    requires d <= |s| && OccursAt(s[d..], pat, j)
    ensures OccursAt(s, pat, j + d)
  {
    assert s[j + d..j + d + |pat|] == s[d..][j..j + |pat|];
  }

  /** An occurrence at or after `d` is one in the suffix from `d`. */
  lemma OccursDrop<T>(s: seq<T>, pat: seq<T>, d: nat, i: int)
    requires d <= i && OccursAt(s, pat, i)
    ensures OccursAt(s[d..], pat, i - d)
  {
    assert s[d..][i - d..i - d + |pat|] == s[i..i + |pat|];
  }

  /** An occurrence stays one behind a prefix. */
  lemma OccursPrepend<T>(front: seq<T>, rt: seq<T>, rep: seq<T>, i: int)
    requires OccursAt(rt, rep, i)
    ensures OccursAt(front + rt, rep, i + |front|)
  {
    assert (front + rt)[i + |front|..i + |front| + |rep|] == rt[i..i + |rep|];
  }

  /** A position covered in a suffix is covered in the whole. */
  lemma CoveredShift<T>(s: seq<T>, pat: seq<T>, d: nat, k: int)
    requires d <= k && d <= |s|
    ensures Covered(s[d..], pat, k - d) ==> Covered(s, pat, k)
  {
    if Covered(s[d..], pat, k - d) {
      var j :| 0 <= j <= k - d < j + |pat| && OccursAt(s[d..], pat, j);
      OccursShift(s, pat, d, j);
    }
  }

  /** The step where the input starts with `pat`. */
  lemma MatchStep<T>(s: seq<T>, pat: seq<T>, rep: seq<T>, rt: seq<T>)
    requires |pat| > 0 && |pat| == |rep| && BorderFree(pat)
    requires |s| >= |pat| && s[..|pat|] == pat
    requires Characterised(s[|pat|..], pat, rep, rt)
    ensures Characterised(s, pat, rep, rep + rt)
  {
    var n := |pat|;
    var t := s[n..];
    var r := rep + rt;
    assert OccursAt(s, pat, 0);
    forall i | OccursAt(s, pat, i) ensures OccursAt(r, rep, i) {
      if i > 0 {
        NoOverlap(s, pat, 0, i);
        OccursDrop(s, pat, n, i);
        OccursPrepend(rep, rt, rep, i - n);
      } else {
        assert r[..n] == rep;
      }
    }
    forall k | 0 <= k < |s| && !Covered(s, pat, k) ensures r[k] == s[k] {
      assert k >= n;
      CoveredShift(s, pat, n, k);
      assert r[k] == rt[k - n];
    }
  }

  /** The step where the input does not start with `pat`. */
  lemma SkipStep<T>(s: seq<T>, pat: seq<T>, rep: seq<T>, rt: seq<T>)
    requires |pat| > 0 && |pat| == |rep|
    requires |s| >= |pat| && s[..|pat|] != pat
    requires Characterised(s[1..], pat, rep, rt)
    ensures Characterised(s, pat, rep, [s[0]] + rt)
  {
    var r := [s[0]] + rt;
    forall i | OccursAt(s, pat, i) ensures OccursAt(r, rep, i) {
      assert i != 0;
      OccursDrop(s, pat, 1, i);
      OccursPrepend([s[0]], rt, rep, i - 1);
    }
    forall k | 0 <= k < |s| && !Covered(s, pat, k) ensures r[k] == s[k] {
      if k > 0 {
        CoveredShift(s, pat, 1, k);
        assert r[k] == rt[k - 1];
      }
    }
  }

  /** For a border-free pattern and an equally long replacement, the
      left-to-right replacement is characterised position by position:
      every occurrence of `pat` in the input holds `rep` in the output, and
      every position outside all occurrences keeps its element. */
  lemma {:induction false} ReplaceAllCharacterised<T>(s: seq<T>, pat: seq<T>, rep: seq<T>)
    requires |pat| > 0 && |pat| == |rep| && BorderFree(pat)
    ensures Characterised(s, pat, rep, ReplaceAll(s, pat, rep))
    decreases |s|
  {
    var n := |pat|;
    if |s| < n {
      forall i | OccursAt(s, pat, i) ensures false { }
      forall k | 0 <= k < |s| ensures ReplaceAll(s, pat, rep)[k] == s[k] { }
    } else if s[..n] == pat {
      ReplaceAllCharacterised(s[n..], pat, rep);
      MatchStep(s, pat, rep, ReplaceAll(s[n..], pat, rep));
    } else {
      ReplaceAllCharacterised(s[1..], pat, rep);
      SkipStep(s, pat, rep, ReplaceAll(s[1..], pat, rep));
    }
  }

  /** "com.termux" has a 'c' only in front, so it is border-free, as text
      and as bytes. */
  lemma FromIsBorderFree()
    ensures BorderFree(From) && BorderFree(FromBytes())
  {
    forall d | 0 < d < |From| ensures From[d..] != From[..|From| - d] {
      assert From[d..][0] != From[..|From| - d][0];
    }
    var b := FromBytes();
    forall d | 0 < d < |b| ensures b[d..] != b[..|b| - d] {
      assert b[d..][0] != b[..|b| - d][0];
    }
  }

  /* ---------- ReplaceInReader ---------- */

  /** `ReplaceInReader`: `bytes.Replace(data, REPLACE_FROM, REPLACE_TO, -1)`.
      The output is exactly as long as the input, every "com.termux" in
      the input reads "com.octo4a" at the same place in the output, and
      every other byte is unchanged. */
  function ReplaceInReader(data: seq<byte>): (out: seq<byte>)
    ensures |out| == |data|
    ensures forall i :: OccursAt(data, FromBytes(), i) ==> OccursAt(out, ToBytes(), i)
    ensures forall k :: 0 <= k < |data| && !Covered(data, FromBytes(), k) ==> out[k] == data[k]
  {
    FromIsBorderFree();
    ReplaceAllCharacterised(data, FromBytes(), ToBytes());
    ReplaceAll(data, FromBytes(), ToBytes())
  }

  /** The same replacement on an entry name (`strings.ReplaceAll`). */
  function ReplaceInName(name: string): (out: string)
    ensures |out| == |name|
    ensures forall i :: OccursAt(name, From, i) ==> OccursAt(out, To, i)
    ensures forall k :: 0 <= k < |name| && !Covered(name, From, k) ==> out[k] == name[k]
  {
    FromIsBorderFree();
    ReplaceAllCharacterised(name, From, To);
    ReplaceAll(name, From, To)
  }

  /* ---------- readers ---------- */

  /** How a reader's `Next` loop ended: `io.EOF`, or another error. */
  datatype End = Eof | Failed

  /** The records a reader yields, then how it ended. */
  datatype Stream<T> = Stream(items: seq<T>, end: End)

  /* ---------- ReplaceTarFile ---------- */

  datatype TarHeader = TarHeader(name: string, size: nat)

  /** A tar entry: its header and the bytes read from it. */
  datatype TarEntry = TarEntry(header: TarHeader, data: seq<byte>)

  /** A tar reader yields exactly `size` bytes for each entry. */
  predicate WellFormed(e: TarEntry) {
    |e.data| == e.header.size
  }

  const TarReadFailed: string := "failed to read from tar file"
  const TarHeaderFailed: string := "failed to write header to tar file"
  const TarContentFailed: string := "failed to replace in reader in tar"

  /** One loop iteration's output entry: the name rewritten, the size
      kept, and the contents rewritten when the size is not zero. */
  function RewriteEntry(e: TarEntry): (r: TarEntry)
    ensures r.header.name == ReplaceInName(e.header.name) && r.header.size == e.header.size
    ensures e.header.size == 0 ==> r.data == []
    ensures e.header.size != 0 ==> r.data == ReplaceInReader(e.data)
  {
    TarEntry(TarHeader(ReplaceInName(e.header.name), e.header.size),
             if e.header.size != 0 then ReplaceInReader(e.data) else [])
  }

  /** The loop from the entry `entries[0]` on, with `owed` bytes of the
      previous entry not yet written. The tar writer refuses a header
      while bytes are owed and a write beyond the declared size; `Close`'s
      error is ignored, so bytes owed at the end go unreported. */
  function TarLoop(entries: seq<TarEntry>, end: End, owed: nat): (r: Result<seq<TarEntry>, string>)
    ensures r.Ok? ==> end == Eof && r.value == RewriteAll(entries)
    ensures r.Err? ==> r.error in {TarReadFailed, TarHeaderFailed, TarContentFailed}
    decreases |entries|
  {
    if |entries| == 0 then
      if end.Failed? then Err(TarReadFailed) else Ok([])
    else if owed > 0 then Err(TarHeaderFailed)
    else
      var e := RewriteEntry(entries[0]);
      if |e.data| > e.header.size then Err(TarContentFailed)
      else
        match TarLoop(entries[1..], end, e.header.size - |e.data|)
        case Err(m) => Err(m)
        case Ok(rest) =>
          RewriteAllCons(entries);
          Ok([e] + rest)
  }

  /** Every entry rewritten. */
  function RewriteAll(entries: seq<TarEntry>): (r: seq<TarEntry>)
    ensures |r| == |entries|
    ensures forall i :: 0 <= i < |entries| ==> r[i] == RewriteEntry(entries[i])
  {
    seq(|entries|, i requires 0 <= i < |entries| => RewriteEntry(entries[i]))
  }

  lemma RewriteAllCons(entries: seq<TarEntry>)
    requires |entries| > 0
    ensures RewriteAll(entries) == [RewriteEntry(entries[0])] + RewriteAll(entries[1..])
  {
    var a := RewriteAll(entries);
    var b := [RewriteEntry(entries[0])] + RewriteAll(entries[1..]);
    assert forall i :: 0 <= i < |a| ==> a[i] == b[i] by {
      forall i | 0 <= i < |a| ensures a[i] == b[i] {
        if i > 0 {
          assert entries[1..][i - 1] == entries[i];
        }
      }
    }
  }

  /** `ReplaceTarFile`: the entries written to the output tar. */
  function ReplaceTarFile(input: Stream<TarEntry>): (r: Result<seq<TarEntry>, string>)
    ensures r.Ok? ==> input.end == Eof && |r.value| == |input.items|
    ensures r.Ok? ==> forall i :: 0 <= i < |input.items| ==> r.value[i] == RewriteEntry(input.items[i])
    ensures input.end == Failed ==> r.Err?
  {
    TarLoop(input.items, input.end, 0)
  }

  /** Because both patterns are ten bytes long, a well-formed tar is never
      refused by the writer: it is rewritten entry by entry, the result is
      well-formed again, and only a read failure makes the call fail. */
  lemma {:induction false} WellFormedTarRewrites(entries: seq<TarEntry>, end: End)
    requires forall i :: 0 <= i < |entries| ==> WellFormed(entries[i])
    ensures TarLoop(entries, end, 0).Ok? <==> end == Eof
    ensures TarLoop(entries, end, 0).Ok? ==>
      forall i :: 0 <= i < |entries| ==> WellFormed(TarLoop(entries, end, 0).value[i])
    decreases |entries|
  {
    if |entries| > 0 {
      var e := RewriteEntry(entries[0]);
      assert WellFormed(entries[0]);
      assert |e.data| == e.header.size;
      WellFormedTarRewrites(entries[1..], end);
      assert forall i :: 1 <= i < |entries| ==> entries[1..][i - 1] == entries[i];
    }
  }

  /* ---------- ReplaceInArFile ---------- */

  /** The `ar` header fields the program touches; the others are copied. */
  datatype ArHeader = ArHeader(name: string, size: nat)

  datatype ArMember = ArMember(header: ArHeader, data: seq<byte>)

  /** The members written after the global header, and the error that
      stopped the loop, if any. Members written before an error stay in
      the output file, and so does the header of a member whose data could
      not be written (`orphan`). */
  datatype ArOutcome = ArOutcome(written: seq<ArMember>, orphan: Option<ArHeader>, error: Option<string>)

  /** The I/O failures of the loop body, given per member: `io.Copy` of a
      member's data out of the reader, and the writer's `WriteHeader` and
      `Write`. */
  datatype ArFaults = ArFaults(
    copyFails: ArMember -> bool,
    headerFails: ArHeader -> bool,
    dataFails: ArMember -> bool)

  const DataTarXz: string := "data.tar.xz/"
  const DataTar: string := "data.tar/"

  const ArReadFailed: string := "failed to read heade from ar file"
  const XzFailed: string := "failed to create xzReader"
  const XzTarFailed: string := "failed to replace xz compressed tar file"
  const HeaderWriteFailed: string := "failed to write ar header"
  const DataWriteFailed: string := "failed to write ar data"

  function CopyFailed(name: string): string {
    "failed to copy file " + name + " inside of ar archive"
  }

  /** What one member becomes: the rewritten data tar, or the member as it
      is; either way the header's size is set to the output's length.
      `copyFails` says whether copying the member's data fails. */
  function ReplaceMember(
    m: ArMember,
    unxz: seq<byte> -> Option<Stream<TarEntry>>,
    tarBytes: seq<TarEntry> -> seq<byte>,
    copyFails: bool): (r: Result<ArMember, string>)
    ensures r.Ok? ==> r.value.header.size == |r.value.data|
    ensures m.header.name != DataTarXz && !copyFails ==> r == Ok(ArMember(ArHeader(m.header.name, |m.data|), m.data))
    ensures m.header.name != DataTarXz && copyFails ==> r == Err(CopyFailed(m.header.name))
    ensures m.header.name == DataTarXz ==> (r.Ok? <==>
      && unxz(m.data).Some?
      && ReplaceTarFile(unxz(m.data).value).Ok?)
    ensures m.header.name == DataTarXz && r.Ok? ==>
      && r.value.header.name == DataTar
      && r.value.data == tarBytes(ReplaceTarFile(unxz(m.data).value).value)
  {
    if m.header.name == DataTarXz then
      match unxz(m.data)
      case None => Err(XzFailed)
      case Some(tar) =>
        match ReplaceTarFile(tar)
        case Err(_) => Err(XzTarFailed)
        case Ok(entries) =>
          var buf := tarBytes(entries);
          Ok(ArMember(ArHeader(DataTar, |buf|), buf))
    else if copyFails then Err(CopyFailed(m.header.name))
    else Ok(ArMember(ArHeader(m.header.name, |m.data|), m.data))
  }

  /** One pass of the loop body on a member that was read: the member
      written, or where the pass stopped. */
  datatype MemberStep = Written(member: ArMember) | Halted(orphan: Option<ArHeader>, error: string)

  function StepMember(
    m: ArMember,
    unxz: seq<byte> -> Option<Stream<TarEntry>>,
    tarBytes: seq<TarEntry> -> seq<byte>,
    faults: ArFaults): (r: MemberStep)
    ensures r.Written? <==>
      && ReplaceMember(m, unxz, tarBytes, faults.copyFails(m)).Ok?
      && !faults.headerFails(ReplaceMember(m, unxz, tarBytes, faults.copyFails(m)).value.header)
      && !faults.dataFails(ReplaceMember(m, unxz, tarBytes, faults.copyFails(m)).value)
    ensures r.Written? ==> Ok(r.member) == ReplaceMember(m, unxz, tarBytes, faults.copyFails(m))
    ensures r.Halted? && ReplaceMember(m, unxz, tarBytes, faults.copyFails(m)).Err? ==>
      r == Halted(None, ReplaceMember(m, unxz, tarBytes, faults.copyFails(m)).error)
    ensures r.Halted? && ReplaceMember(m, unxz, tarBytes, faults.copyFails(m)).Ok? ==>
      var out := ReplaceMember(m, unxz, tarBytes, faults.copyFails(m)).value;
      || (r == Halted(None, HeaderWriteFailed) && faults.headerFails(out.header))
      || (r == Halted(Some(out.header), DataWriteFailed) && !faults.headerFails(out.header) && faults.dataFails(out))
  {
    match ReplaceMember(m, unxz, tarBytes, faults.copyFails(m))
    case Err(e) => Halted(None, e)
    case Ok(out) =>
      if faults.headerFails(out.header) then Halted(None, HeaderWriteFailed)
      else if faults.dataFails(out) then Halted(Some(out.header), DataWriteFailed)
      else Written(out)
  }

  /** `ReplaceInArFile`: the members are processed in order; the first
      error ends the loop with what was written so far. */
  function ReplaceInArFile(
    input: Stream<ArMember>,
    unxz: seq<byte> -> Option<Stream<TarEntry>>,
    tarBytes: seq<TarEntry> -> seq<byte>,
    faults: ArFaults): (r: ArOutcome)
    ensures |r.written| <= |input.items|
    ensures forall i :: 0 <= i < |r.written| ==> StepMember(input.items[i], unxz, tarBytes, faults) == Written(r.written[i])
    ensures forall i :: 0 <= i < |r.written| ==> r.written[i].header.size == |r.written[i].data|
    ensures r.error.None? <==>
      && input.end == Eof
      && forall i :: 0 <= i < |input.items| ==> StepMember(input.items[i], unxz, tarBytes, faults).Written?
    ensures r.error.None? ==> |r.written| == |input.items| && r.orphan.None?
    ensures |r.written| < |input.items| ==>
      var stop := StepMember(input.items[|r.written|], unxz, tarBytes, faults);
      stop.Halted? && r.error == Some(stop.error) && r.orphan == stop.orphan
    ensures |r.written| == |input.items| ==> r.orphan.None? && (r.error.Some? <==> input.end == Failed)
    decreases |input.items|
  {
    if |input.items| == 0 then
      ArOutcome([], None, if input.end == Failed then Some(ArReadFailed) else None)
    else
      var rest := Stream(input.items[1..], input.end);
      assert forall i :: 1 <= i < |input.items| ==> rest.items[i - 1] == input.items[i];
      match StepMember(input.items[0], unxz, tarBytes, faults)
      case Halted(orphan, e) => ArOutcome([], orphan, Some(e))
      case Written(m) =>
        var tail := ReplaceInArFile(rest, unxz, tarBytes, faults);
        ArOutcome([m] + tail.written, tail.orphan, tail.error)
  }

  /** No I/O failure. */
  function NoFaults(): ArFaults {
    ArFaults(m => false, h => false, m => false)
  }

  /** A package without a `data.tar.xz/` member that reads to the end is
      copied member by member when no copy or write fails, only the
      recorded sizes being set to the data lengths. */
  lemma NoDataTarCopied(
    input: Stream<ArMember>,
    unxz: seq<byte> -> Option<Stream<TarEntry>>,
    tarBytes: seq<TarEntry> -> seq<byte>)
    requires input.end == Eof
    requires forall i :: 0 <= i < |input.items| ==> input.items[i].header.name != DataTarXz
    ensures ReplaceInArFile(input, unxz, tarBytes, NoFaults()).error.None?
    ensures ReplaceInArFile(input, unxz, tarBytes, NoFaults()).written ==
      seq(|input.items|, i requires 0 <= i < |input.items| =>
        ArMember(ArHeader(input.items[i].header.name, |input.items[i].data|), input.items[i].data))
  {
    var r := ReplaceInArFile(input, unxz, tarBytes, NoFaults());
    forall i | 0 <= i < |input.items|
      ensures StepMember(input.items[i], unxz, tarBytes, NoFaults()).Written?
    {
      assert ReplaceMember(input.items[i], unxz, tarBytes, false).Ok?;
    }
    forall i | 0 <= i < |input.items|
      ensures r.written[i] == ArMember(ArHeader(input.items[i].header.name, |input.items[i].data|), input.items[i].data)
    {
      assert Written(r.written[i]) == StepMember(input.items[i], unxz, tarBytes, NoFaults());
      assert Ok(r.written[i]) == ReplaceMember(input.items[i], unxz, tarBytes, false);
    }
  }

  /** A failed data write leaves the member's header in the output with no
      data after it, and ends the loop with that error. */
  lemma DataWriteLeavesHeader(
    m: ArMember,
    rest: seq<ArMember>,
    end: End,
    unxz: seq<byte> -> Option<Stream<TarEntry>>,
    tarBytes: seq<TarEntry> -> seq<byte>,
    faults: ArFaults)
    requires m.header.name != DataTarXz && !faults.copyFails(m)
    requires !faults.headerFails(ArHeader(m.header.name, |m.data|))
    requires faults.dataFails(ArMember(ArHeader(m.header.name, |m.data|), m.data))
    ensures var r := ReplaceInArFile(Stream([m] + rest, end), unxz, tarBytes, faults);
      r == ArOutcome([], Some(ArHeader(m.header.name, |m.data|)), Some(DataWriteFailed))
  {
    var input := Stream([m] + rest, end);
    assert input.items[0] == m;
  }

  /** For a package whose data member decompresses to a well-formed tar
      read to the end, that member comes out as `data.tar/` holding the
      encoding of the entry-by-entry rewritten tar. */
  lemma DataTarRewritten(m: ArMember, unxz: seq<byte> -> Option<Stream<TarEntry>>, tarBytes: seq<TarEntry> -> seq<byte>)
    requires m.header.name == DataTarXz && unxz(m.data).Some?
    requires unxz(m.data).value.end == Eof
    requires forall i :: 0 <= i < |unxz(m.data).value.items| ==> WellFormed(unxz(m.data).value.items[i])
    ensures forall copyFails :: ReplaceMember(m, unxz, tarBytes, copyFails).Ok?
    ensures
      var out := RewriteAll(unxz(m.data).value.items);
      forall copyFails :: ReplaceMember(m, unxz, tarBytes, copyFails) == Ok(ArMember(ArHeader(DataTar, |tarBytes(out)|), tarBytes(out)))
  {
    var tar := unxz(m.data).value;
    WellFormedTarRewrites(tar.items, tar.end);
    var out := RewriteAll(tar.items);
    var written := ReplaceTarFile(tar).value;
    assert |written| == |out|;
    assert forall i :: 0 <= i < |out| ==> written[i] == out[i];
    assert written == out;
  }
}
