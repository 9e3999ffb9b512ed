/** The camera descriptions of `CameraEnumerationRepository.kt` and
    `CameraEnumeration.kt`: size labels, the recommended capture size, the
    "Back/Front camera, N MP" label, look-up by id, and the repository's
    enumerate-once guard.

    The Android camera services are parameters: what the Camera2 manager
    reports per camera id, or what the Camera1 API reports per camera
    index. */
module Camera {
  import opened Wrappers
  import opened Text
  import opened Lists

  datatype CameraSize = CameraSize(width: nat, height: nat)

  datatype CameraDescription = CameraDescription(id: string, megapixels: nat, lensFacing: int, sizes: seq<CameraSize>)

  /** `CameraSelector.LENS_FACING_FRONT` and `LENS_FACING_BACK`. */
  const LensFacingFront: int := 0
  const LensFacingBack: int := 1
  /** `Camera.CameraInfo.CAMERA_FACING_BACK` of the Camera1 API. */
  const CameraFacingBack: int := 0
  /** `Build.VERSION_CODES.LOLLIPOP`. */
  const Lollipop: int := 21

  /* ---------- readableString ---------- */

  /** `readableString`: "{width}x{height}". */
  function ReadableString(s: CameraSize): (r: string)
    ensures Split(r, 'x') == [NatToString(s.width), NatToString(s.height)]
  {
    var w := NatToString(s.width);
    var h := NatToString(s.height);
    assert 'x' !in w && 'x' !in h by {
      assert forall i :: 0 <= i < |w| ==> IsDigit(w[i]);
      assert forall i :: 0 <= i < |h| ==> IsDigit(h[i]);
    }
    SplitAt(w, 'x', h);
    SplitNoSep(h, 'x');
    w + "x" + h
  }

  /** The label gives the size back. */
  lemma ReadableStringRoundTrip(s: CameraSize)
    ensures
      var parts := Split(ReadableString(s), 'x');
      && |parts| == 2 && IsDigits(parts[0]) && IsDigits(parts[1])
      && DigitsValue(parts[0]) == s.width && DigitsValue(parts[1]) == s.height
  {
    DigitsValueOfNatToString(s.width);
    DigitsValueOfNatToString(s.height);
  }

  /* ---------- getRecommendedSize ---------- */

  predicate WidthLe(a: CameraSize, b: CameraSize) { a.width <= b.width }

  predicate Wide(s: CameraSize) { s.width >= 1000 }

  /** The position of the narrowest size at least 1000 pixels wide, the
      earliest among equally narrow ones: a single pass that takes a size
      only when it is strictly narrower than the best so far. */
  function NarrowestWide(sizes: seq<CameraSize>): (r: Option<nat>)
    ensures r.None? <==> forall j :: 0 <= j < |sizes| ==> !Wide(sizes[j])
    ensures r.Some? ==>
      && r.value < |sizes| && Wide(sizes[r.value])
      && (forall j :: 0 <= j < |sizes| && Wide(sizes[j]) ==> sizes[r.value].width <= sizes[j].width)
      && (forall j :: 0 <= j < r.value && Wide(sizes[j]) ==> sizes[j].width > sizes[r.value].width)
    decreases |sizes|
  {
    if |sizes| == 0 then None
    else
      var n := |sizes| - 1;
      var best := NarrowestWide(sizes[..n]);
      assert forall j :: 0 <= j < n ==> sizes[..n][j] == sizes[j];
      if Wide(sizes[n]) && (best.None? || sizes[n].width < sizes[best.value].width) then Some(n)
      else best
  }

  function Pick(sizes: seq<CameraSize>, k: Option<nat>): Option<CameraSize>
    requires k.Some? ==> k.value < |sizes|
  {
    if k.Some? then Some(sizes[k.value]) else None
  }

  /** `getRecommendedSize`: `sizes.sortedBy { it.width }.firstOrNull { it.width >= 1000 }`. */
  function GetRecommendedSize(sizes: seq<CameraSize>): (r: Option<CameraSize>)
    ensures r == Pick(sizes, NarrowestWide(sizes))
  {
    FirstSortedMatch(sizes);
    FirstMatch(SortBy(sizes, WidthLe), Wide)
  }

  /** `firstOrNull` on a list that starts with `a`. */
  lemma FirstMatchCons(a: CameraSize, t: seq<CameraSize>)
    ensures FirstMatch([a] + t, Wide) == if Wide(a) then Some(a) else FirstMatch(t, Wide)
  {
    var s := [a] + t;
    assert s[1..] == t;
    if !Wide(a) {
      match FirstIndex(t, Wide)
      case None =>
      case Some(k) => assert s[k + 1] == t[k];
    }
  }

  /** The best-so-far step of `NarrowestWide`, on values. */
  function Better(best: Option<CameraSize>, x: CameraSize): Option<CameraSize> {
    if Wide(x) && (best.None? || x.width < best.value.width) then Some(x) else best
  }

  /** The first wide entry of a width-sorted list is its narrowest wide
      entry, so it bounds every later one. */
  lemma FirstMatchIsNarrowest(t: seq<CameraSize>)
    requires Sorted(t, WidthLe)
    ensures FirstMatch(t, Wide).Some? ==> forall y :: y in t && Wide(y) ==> FirstMatch(t, Wide).value.width <= y.width
  {
    match FirstIndex(t, Wide)
    case None =>
    case Some(k) =>
      forall y | y in t && Wide(y) ensures t[k].width <= y.width {
        var j :| 0 <= j < |t| && t[j] == y;
        if j < k {
          assert !Wide(t[j]);
        }
      }
  }

  /** Inserting one size into a width-sorted list changes the first wide
      entry exactly as one step of the single pass does. */
  lemma {:induction false} InsertFirstMatch(x: CameraSize, t: seq<CameraSize>)
    requires Sorted(t, WidthLe)
    ensures FirstMatch(Insert(x, t, WidthLe), Wide) == Better(FirstMatch(t, Wide), x)
    decreases |t|
  {
    if |t| == 0 {
      FirstMatchCons(x, []);
      assert FirstMatch([], Wide) == None;
    } else if !WidthLe(t[0], x) {
      FirstMatchCons(x, t);
      FirstMatchIsNarrowest(t);
    } else {
      assert t == [t[0]] + t[1..];
      FirstMatchCons(t[0], t[1..]);
      InsertFirstMatch(x, t[1..]);
      FirstMatchCons(t[0], Insert(x, t[1..], WidthLe));
    }
  }

  /** The sort-then-search of the source equals the single pass. */
  lemma {:induction false} FirstSortedMatch(sizes: seq<CameraSize>)
    ensures FirstMatch(SortBy(sizes, WidthLe), Wide) == Pick(sizes, NarrowestWide(sizes))
    decreases |sizes|
  {
    if |sizes| > 0 {
      var n := |sizes| - 1;
      var init := sizes[..n];
      FirstSortedMatch(init);
      SortedStep(sizes);
      InsertFirstMatch(sizes[n], SortBy(init, WidthLe));
      PickStep(sizes);
    } else {
      assert SortBy(sizes, WidthLe) == [];
    }
  }

  /** Sorting a list inserts its last size into the sorted rest. */
  lemma SortedStep(sizes: seq<CameraSize>)
    requires |sizes| > 0
    ensures Sorted(SortBy(sizes[..|sizes| - 1], WidthLe), WidthLe)
    ensures SortBy(sizes, WidthLe) == Insert(sizes[|sizes| - 1], SortBy(sizes[..|sizes| - 1], WidthLe), WidthLe)
  {
    assert TotalPreorder(WidthLe);
    SortBySorted(sizes[..|sizes| - 1], WidthLe);
  }

  /** The single pass over a list is one `Better` step after the pass over
      all but its last size. */
  lemma PickStep(sizes: seq<CameraSize>)
    requires |sizes| > 0
    ensures Pick(sizes, NarrowestWide(sizes))
         == Better(Pick(sizes[..|sizes| - 1], NarrowestWide(sizes[..|sizes| - 1])), sizes[|sizes| - 1])
  {
    var n := |sizes| - 1;
    var best := NarrowestWide(sizes[..n]);
    if best.Some? {
      assert sizes[..n][best.value] == sizes[best.value];
    }
  }

  /* ---------- describeString ---------- */

  /** `isBackFacing` of the repository: the Camera2 constant from Lollipop
      on, the Camera1 constant before. */
  predicate IsBackFacing(d: CameraDescription, sdk: int) {
    if sdk >= Lollipop then d.lensFacing == LensFacingBack else d.lensFacing == CameraFacingBack
  }

  const CameraSuffix: string := " camera, "
  const MpSuffix: string := " MP"

  /** `describeString` of `CameraEnumerationRepository.kt`. */
  function DescribeRepository(d: CameraDescription, sdk: int): (r: string)
    ensures StartsWith(r, "Back") <==> IsBackFacing(d, sdk)
    ensures StartsWith(r, "Front") <==> !IsBackFacing(d, sdk)
    ensures EndsWith(r, " camera, " + NatToString(d.megapixels) + " MP")
    ensures r == (if IsBackFacing(d, sdk) then "Back" else "Front") + " camera, " + NatToString(d.megapixels) + " MP"
  {
    var side := if IsBackFacing(d, sdk) then "Back" else "Front";
    var r := side + CameraSuffix + NatToString(d.megapixels) + MpSuffix;
    assert r[..|side|] == side;
    assert r[0] == side[0];
    assert r[|r| - |CameraSuffix + NatToString(d.megapixels) + MpSuffix|..] == CameraSuffix + NatToString(d.megapixels) + MpSuffix;
    r
  }

  /** `describeString` of `CameraEnumeration.kt`: "Front" only for the
      front lens, "Back" for every other value. */
  function DescribeEnumeration(d: CameraDescription): (r: string)
    ensures StartsWith(r, "Front") <==> d.lensFacing == LensFacingFront
    ensures StartsWith(r, "Back") <==> d.lensFacing != LensFacingFront
    ensures EndsWith(r, " camera, " + NatToString(d.megapixels) + " MP")
    ensures r == (if d.lensFacing == LensFacingFront then "Front" else "Back") + " camera, " + NatToString(d.megapixels) + " MP"
  {
    var side := if d.lensFacing == LensFacingFront then "Front" else "Back";
    var r := side + CameraSuffix + NatToString(d.megapixels) + MpSuffix;
    assert r[..|side|] == side;
    assert r[0] == side[0];
    assert r[|r| - |CameraSuffix + NatToString(d.megapixels) + MpSuffix|..] == CameraSuffix + NatToString(d.megapixels) + MpSuffix;
    r
  }

  /** A label of the form "<side> camera, <n> MP" gives back its side and
      its number: two such labels are equal only when both are. */
  lemma {:induction false} LabelDetermines(side: string, n: nat, side': string, n': nat)
    requires side in {"Back", "Front"} && side' in {"Back", "Front"}
    requires side + CameraSuffix + NatToString(n) + MpSuffix == side' + CameraSuffix + NatToString(n') + MpSuffix
    ensures side == side' && n == n'
  {
    var r := side + CameraSuffix + NatToString(n) + MpSuffix;
    var r' := side' + CameraSuffix + NatToString(n') + MpSuffix;
    assert r[0] == side[0] && r'[0] == side'[0];
    assert side == side';
    assert r[|side| + |CameraSuffix|..|r| - |MpSuffix|] == NatToString(n);
    assert r'[|side'| + |CameraSuffix|..|r'| - |MpSuffix|] == NatToString(n');
    NatToStringInjective(n, n');
  }

  /** The repository's label is read back to the facing and the
      megapixels: cameras with the same label agree on both. */
  lemma RepositoryLabelDetermines(d: CameraDescription, e: CameraDescription, sdk: int)
    requires DescribeRepository(d, sdk) == DescribeRepository(e, sdk)
    ensures IsBackFacing(d, sdk) == IsBackFacing(e, sdk)
    ensures d.megapixels == e.megapixels
  {
    LabelDetermines(if IsBackFacing(d, sdk) then "Back" else "Front", d.megapixels,
                    if IsBackFacing(e, sdk) then "Back" else "Front", e.megapixels);
  }

  /** The same for the label of `CameraEnumeration.kt`. */
  lemma EnumerationLabelDetermines(d: CameraDescription, e: CameraDescription)
    requires DescribeEnumeration(d) == DescribeEnumeration(e)
    ensures (d.lensFacing == LensFacingFront) == (e.lensFacing == LensFacingFront)
    ensures d.megapixels == e.megapixels
  {
    LabelDetermines(if d.lensFacing == LensFacingFront then "Front" else "Back", d.megapixels,
                    if e.lensFacing == LensFacingFront then "Front" else "Back", e.megapixels);
  }

  /** On Lollipop and later the two labels agree for the front and back
      lenses and disagree for any other lens value (an external camera):
      the repository calls it "Front", the other file "Back". */
  lemma DescriptionsAgree(d: CameraDescription, sdk: int)
    requires sdk >= Lollipop
    ensures d.lensFacing in {LensFacingFront, LensFacingBack} ==> DescribeRepository(d, sdk) == DescribeEnumeration(d)
    ensures d.lensFacing !in {LensFacingFront, LensFacingBack} ==>
      StartsWith(DescribeRepository(d, sdk), "Front") && StartsWith(DescribeEnumeration(d), "Back")
  {
  }

  /* ---------- megapixels ---------- */

  /** `(width * height) / 1024000`: whole "megapixels" of 1024000 pixels,
      rounded down. */
  function Megapixels(s: CameraSize): (mp: nat)
    ensures mp * 1024000 <= s.width * s.height < (mp + 1) * 1024000
  {
    (s.width * s.height) / 1024000
  }

  /* ---------- enumeration ---------- */

  /** What the Camera2 manager reports for one camera id. */
  datatype Camera2Info = Camera2Info(id: string, pixelArray: CameraSize, facing: int, outputSizes: Option<seq<CameraSize>>)

  /** What the Camera1 API reports for camera index `i`. */
  datatype Camera1Info = Camera1Info(facing: int, pictureSize: CameraSize, previewSizes: seq<CameraSize>)

  function Describe2(c: Camera2Info): (d: CameraDescription)
    ensures d.id == c.id && d.megapixels == Megapixels(c.pixelArray) && d.lensFacing == c.facing
    ensures d.sizes == (if c.outputSizes.Some? then c.outputSizes.value else [])
  {
    CameraDescription(c.id, Megapixels(c.pixelArray), c.facing, if c.outputSizes.Some? then c.outputSizes.value else [])
  }

  /** `enumerateDevices` of `CameraEnumeration.kt`, and the Camera2 branch
      of the repository: one description per camera id, in order, with no
      sizes when the stream configuration map is missing. */
  function EnumerateDevices(cameras: seq<Camera2Info>): (r: seq<CameraDescription>)
    ensures |r| == |cameras|
    ensures forall i :: 0 <= i < |cameras| ==> r[i] == Describe2(cameras[i])
  {
    seq(|cameras|, i requires 0 <= i < |cameras| => Describe2(cameras[i]))
  }

  /** The Camera1 branch: camera `i` is called "i". */
  function EnumerateLegacy(cameras: seq<Camera1Info>): (r: seq<CameraDescription>)
    ensures |r| == |cameras|
    ensures forall i :: 0 <= i < |cameras| ==>
      r[i] == CameraDescription(NatToString(i), Megapixels(cameras[i].pictureSize), cameras[i].facing, cameras[i].previewSizes)
  {
    seq(|cameras|, i requires 0 <= i < |cameras| =>
      CameraDescription(NatToString(i), Megapixels(cameras[i].pictureSize), cameras[i].facing, cameras[i].previewSizes))
  }

  /** The legacy ids are distinct, so a look-up by id finds the camera of
      that index. */
  lemma LegacyIdsDistinct(cameras: seq<Camera1Info>, i: nat, j: nat)
    requires i < |cameras| && j < |cameras| && i != j
    ensures EnumerateLegacy(cameras)[i].id != EnumerateLegacy(cameras)[j].id
  {
    if NatToString(i) == NatToString(j) {
      NatToStringInjective(i, j);
    }
  }

  function HasId(id: string): CameraDescription -> bool {
    (d: CameraDescription) => d.id == id
  }

  /** `cameraWithId`: the first camera with that id, or null, also when
      nothing was posted yet. */
  function CameraWithId(enumerated: Option<seq<CameraDescription>>, id: string): (r: Option<CameraDescription>)
    ensures r.Some? ==> enumerated.Some? && r.value in enumerated.value && r.value.id == id
    ensures r.Some? ==>
      exists k ::
        && 0 <= k < |enumerated.value| && enumerated.value[k] == r.value
        && forall j :: 0 <= j < k ==> enumerated.value[j].id != id
    ensures r.None? ==> enumerated.None? || forall d :: d in enumerated.value ==> d.id != id
  {
    match enumerated
    case None => None
    case Some(cams) =>
      match FirstIndex(cams, HasId(id))
      case None => None
      case Some(k) => Some(cams[k])
  }

  /** The repository's state: the posted list and the done flag. */
  datatype Repository = Repository(enumeratedCameras: Option<seq<CameraDescription>>, camerasEnumerated: bool)

  /** What the legacy branch does around the Camera1 enumeration. */
  datatype Effect = StopLegacyService | OpenCamera(index: nat) | ReleaseCamera(index: nat) | StartLegacyService

  function LegacyEffects(n: nat, serviceRunning: bool): (r: seq<Effect>)
    ensures |r| == 2 * n + (if serviceRunning then 2 else 0)
    ensures serviceRunning ==> r[0] == StopLegacyService && r[|r| - 1] == StartLegacyService
  {
    var cams := Flatten(seq(n, i requires 0 <= i < n => [OpenCamera(i), ReleaseCamera(i)]));
    FlattenPairsLength(n);
    if serviceRunning then [StopLegacyService] + cams + [StartLegacyService] else cams
  }

  lemma FlattenPairsLength(n: nat)
    ensures |Flatten(seq(n, i requires 0 <= i < n => [OpenCamera(i), ReleaseCamera(i)]))| == 2 * n
  {
    FlattenLength(seq(n, i requires 0 <= i < n => [OpenCamera(i), ReleaseCamera(i)]));
  }

  lemma {:induction false} FlattenLength(parts: seq<seq<Effect>>)
    requires forall i :: 0 <= i < |parts| ==> |parts[i]| == 2
    ensures |Flatten(parts)| == 2 * |parts|
    decreases |parts|
  {
    if |parts| > 0 {
      FlattenLength(parts[1..]);
    }
  }

  /** `enumerateCameras`: nothing without the camera permission or once a
      list has been posted; otherwise the Camera2 list from Lollipop on,
      the Camera1 list before, posted and remembered. */
  function EnumerateCameras(
    repo: Repository, permitted: bool, sdk: int,
    camera2: seq<Camera2Info>, camera1: seq<Camera1Info>, legacyServiceRunning: bool): (r: (Repository, seq<Effect>))
    ensures !permitted || repo.camerasEnumerated ==> r == (repo, [])
    ensures permitted && !repo.camerasEnumerated ==>
      && r.0.camerasEnumerated
      && r.0.enumeratedCameras == Some(if sdk >= Lollipop then EnumerateDevices(camera2) else EnumerateLegacy(camera1))
      && (sdk >= Lollipop ==> r.1 == [])
  {
    if !permitted then (repo, [])
    else if repo.camerasEnumerated then (repo, [])
    else if sdk >= Lollipop then (Repository(Some(EnumerateDevices(camera2)), true), [])
    else (Repository(Some(EnumerateLegacy(camera1)), true), LegacyEffects(|camera1|, legacyServiceRunning))
  }

  /** Enumeration happens at most once: a second call, whatever the
      cameras report by then, leaves the repository as the first left it. */
  lemma EnumerateOnce(
    repo: Repository, permitted: bool, sdk: int,
    camera2: seq<Camera2Info>, camera1: seq<Camera1Info>, running: bool,
    permitted': bool, camera2': seq<Camera2Info>, camera1': seq<Camera1Info>, running': bool)
    requires permitted
    ensures
      var first := EnumerateCameras(repo, permitted, sdk, camera2, camera1, running).0;
      EnumerateCameras(first, permitted', sdk, camera2', camera1', running') == (first, [])
  {
  }

  /** `cameraWithId` of `CameraEnumeration.kt`: enumerates afresh and takes
      the first camera with that id. */
  function CameraWithIdFresh(cameras: seq<Camera2Info>, id: string): (r: Option<CameraDescription>)
    ensures r.Some? <==> exists i :: 0 <= i < |cameras| && cameras[i].id == id
    ensures r.Some? ==> r.value.id == id && r.value in EnumerateDevices(cameras)
    ensures r.Some? ==>
      exists k ::
        && 0 <= k < |cameras| && r.value == EnumerateDevices(cameras)[k]
        && forall j :: 0 <= j < k ==> cameras[j].id != id
  {
    var r := CameraWithId(Some(EnumerateDevices(cameras)), id);
    assert forall i :: 0 <= i < |cameras| ==> EnumerateDevices(cameras)[i].id == cameras[i].id;
    r
  }
}
