/** `SemVer.kt`: semantic version numbers (Semantic Versioning 2.0.0) with
    a parser built on one regular expression, a printer and the precedence
    order of section 11 of that standard.

    The regular expression is modelled by what `matchEntire` computes. Its
    numeric part `(0|[1-9]\d*)?\.?(0|[1-9]\d*)?\.?(0|[1-9]\d*)?` can only
    consume digits and dots, and everything after it starts with `-` or
    `+`, so the numeric part is always the longest prefix of digits and
    dots; that prefix is split by a backtracking search in the engine's
    priority order, and the rest is split at its first `+`. */
module SemVer {
  import opened Wrappers
  import opened Text
  import opened Lists
  import Platform

  const Int32Max := 0x7fff_ffff

  /* ---------- identifiers ---------- */

  /** The identifier character class. As written it is `[\dA-z\-]`, and
      `A-z` is the ASCII range 65..122, which also holds `[ \ ] ^ _` and
      the backquote; Semantic Versioning allows only `[0-9A-Za-z-]`. */
  datatype CharClass = AsWritten | Intended

  predicate InClass(cls: CharClass, c: char) {
    || IsDigit(c) || c == '-'
    || (cls.AsWritten? && 'A' <= c <= 'z')
    || (cls.Intended? && ('A' <= c <= 'Z' || 'a' <= c <= 'z'))
  }

  /** `C+(?:\.C+)*`: non-empty runs of class characters separated by single
      dots. */
  predicate IsIdentifiers(cls: CharClass, s: string) {
    && |s| > 0 && s[0] != '.' && s[|s| - 1] != '.'
    && (forall i :: 0 <= i < |s| ==> s[i] == '.' || InClass(cls, s[i]))
    && (forall i :: 0 <= i < |s| - 1 ==> !(s[i] == '.' && s[i + 1] == '.'))
  }

  /** Neither class holds `+`, so a `+` ends a pre-release. */
  lemma NoPlusInIdentifiers(cls: CharClass, s: string)
    requires IsIdentifiers(cls, s)
    ensures forall i :: 0 <= i < |s| ==> s[i] != '+'
  {
  }

  /* ---------- the data class ---------- */

  datatype SemVer = SemVer(
    major: Platform.int32,
    minor: Platform.int32,
    patch: Platform.int32,
    preRelease: Option<string>,
    buildMetadata: Option<string>)

  predicate ValidWith(cls: CharClass, v: SemVer) {
    && v.major >= 0 && v.minor >= 0 && v.patch >= 0
    && (v.preRelease.Some? ==> IsIdentifiers(cls, v.preRelease.value))
    && (v.buildMetadata.Some? ==> IsIdentifiers(cls, v.buildMetadata.value))
  }

  /** The constructor with its `init` checks, in order. */
  function MakeWith(cls: CharClass, major: Platform.int32, minor: Platform.int32, patch: Platform.int32,
                    preRelease: Option<string>, buildMetadata: Option<string>): (r: Result<SemVer, string>)
    ensures r.Ok? <==> ValidWith(cls, SemVer(major, minor, patch, preRelease, buildMetadata))
    ensures r.Ok? ==> r.value == SemVer(major, minor, patch, preRelease, buildMetadata)
    ensures major < 0 ==> r == Err("Major version must be a positive number")
  {
    if major < 0 then Err("Major version must be a positive number")
    else if minor < 0 then Err("Minor version must be a positive number")
    else if patch < 0 then Err("Patch version must be a positive number")
    else if preRelease.Some? && !IsIdentifiers(cls, preRelease.value) then Err("Pre-release version is not valid")
    else if buildMetadata.Some? && !IsIdentifiers(cls, buildMetadata.value) then Err("Build metadata is not valid")
    else Ok(SemVer(major, minor, patch, preRelease, buildMetadata))
  }

  /** The text after the numbers: `-pre` if present, then `+build` if
      present. */
  function Render(preRelease: Option<string>, buildMetadata: Option<string>): string {
    (if preRelease.Some? then "-" + preRelease.value else "") +
    (if buildMetadata.Some? then "+" + buildMetadata.value else "")
  }

  /** The three numbers joined by dots. */
  function NumericText(v: SemVer): string {
    IntToString(v.major) + "." + IntToString(v.minor) + "." + IntToString(v.patch)
  }

  /** `toString`. */
  function ToString(v: SemVer): string {
    NumericText(v) + Render(v.preRelease, v.buildMetadata)
  }

  /** `isInitialDevelopmentPhase`. */
  predicate IsInitialDevelopmentPhase(v: SemVer) {
    v.major == 0
  }

  /** A printed version is in initial development exactly when its text
      starts with "0.". */
  lemma InitialDevelopmentByText(v: SemVer)
    requires v.major >= 0
    ensures IsInitialDevelopmentPhase(v) <==> StartsWith(ToString(v), "0.")
  {
    var a := NatToString(v.major);
    var s := ToString(v);
    assert s[..|a|] == a;
    if v.major != 0 && StartsWith(s, "0.") {
      assert s[0] == a[0];
    }
  }

  /* ---------- the numeric part ---------- */

  /** The end of the longest prefix of `s[i..]` made of digits and dots. */
  function NumericPrefixEnd(s: string, i: nat): (k: nat)
    requires i <= |s|
    ensures i <= k <= |s|
    ensures forall j :: i <= j < k ==> IsDigit(s[j]) || s[j] == '.'
    ensures k < |s| ==> !(IsDigit(s[k]) || s[k] == '.')
    decreases |s| - i
  {
    if i == |s| || !(IsDigit(s[i]) || s[i] == '.') then i else NumericPrefixEnd(s, i + 1)
  }

  /** `(0|[1-9]\d*)?` consuming exactly `p[i..j]`. */
  predicate IsGroup(p: string, i: nat, j: nat) {
    && i <= j <= |p|
    && (|| j == i
        || (p[i] == '0' && j == i + 1)
        || ('1' <= p[i] <= '9' && forall k :: i < k < j ==> IsDigit(p[k])))
  }

  /** `(?:\.)?` consuming exactly `p[i..j]`. */
  predicate IsDot(p: string, i: nat, j: nat) {
    i <= j <= |p| && (j == i || (j == i + 1 && p[i] == '.'))
  }

  /** The end of the run of digits starting at `i`. */
  function RunEnd(p: string, i: nat): (j: nat)
    requires i <= |p|
    ensures i <= j <= |p|
    ensures forall k :: i <= k < j ==> IsDigit(p[k])
    ensures j < |p| ==> !IsDigit(p[j])
    decreases |p| - i
  {
    if i == |p| || !IsDigit(p[i]) then i else RunEnd(p, i + 1)
  }

  function Countdown(hi: nat, lo: nat): (r: seq<nat>)
    requires lo <= hi
    ensures |r| > 0 && r[0] == hi
    ensures forall j :: j in r <==> lo <= j <= hi
    decreases hi - lo
  {
    if hi == lo then [lo] else [hi] + Countdown(hi - 1, lo)
  }

  /** Where a group starting at `i` may end, in the order the engine tries
      them: "0" before the empty match, `[1-9]\d*` longest first, the empty
      match last. */
  function GroupEnds(p: string, i: nat): (r: seq<nat>)
    ensures |r| > 0 && r[|r| - 1] == i
    ensures i <= |p| ==> forall j :: j in r ==> j <= |p|
    ensures forall j: nat :: (j in r && j <= |p|) <==> IsGroup(p, i, j)
  {
    if i < |p| && p[i] == '0' then [i + 1, i]
    else if i < |p| && '1' <= p[i] <= '9' then
      var e := RunEnd(p, i + 1);
      assert forall j: nat :: IsGroup(p, i, j) && j > e ==> e == |p| || IsDigit(p[e]);
      Countdown(e, i + 1) + [i]
    else [i]
  }

  /** Where an optional dot at `i` may end: the dot first. */
  function DotEnds(p: string, i: nat): (r: seq<nat>)
    ensures |r| > 0 && r[|r| - 1] == i
    ensures i <= |p| ==> forall j :: j in r ==> j <= |p|
    ensures forall j: nat :: (j in r && j <= |p|) <==> IsDot(p, i, j)
  {
    if i < |p| && p[i] == '.' then [i + 1, i] else [i]
  }

  /** The five steps are group, dot, group, dot, group; a step starts where
      the previous one ended. */
  function StepStart(pos: seq<nat>, l: nat): nat
    requires l <= |pos|
  {
    if l == 0 then 0 else pos[l - 1]
  }

  predicate StepOk(p: string, l: nat, i: nat, j: nat) {
    if l % 2 == 0 then IsGroup(p, i, j) else IsDot(p, i, j)
  }

  function Options(p: string, i: nat, l: nat): (r: seq<nat>)
    ensures i <= |p| ==> forall j :: j in r ==> j <= |p|
    ensures forall j: nat :: (j in r && j <= |p|) <==> StepOk(p, l, i, j)
  {
    if l % 2 == 0 then GroupEnds(p, i) else DotEnds(p, i)
  }

  predicate Steps(p: string, pos: seq<nat>) {
    forall l {:trigger StepStart(pos, l)} :: 0 <= l < |pos| ==> StepOk(p, l, StepStart(pos, l), pos[l])
  }

  /** The five step ends of a decomposition of all of `p`. */
  predicate Covers(p: string, pos: seq<nat>) {
    |pos| == 5 && Steps(p, pos) && pos[4] == |p|
  }

  /** The backtracking search: the first decomposition extending `pos` in
      the engine's priority order. */
  function Search(p: string, pos: seq<nat>): Option<seq<nat>>
    requires |pos| <= 5
    decreases 5 - |pos|, 1, 0
  {
    if |pos| == 5 then (if pos[4] == |p| then Some(pos) else None)
    else TryOptions(p, pos, Options(p, StepStart(pos, |pos|), |pos|), 0)
  }

  function TryOptions(p: string, pos: seq<nat>, opts: seq<nat>, k: nat): Option<seq<nat>>
    requires |pos| < 5 && k <= |opts|
    decreases 5 - |pos|, 0, |opts| - k
  {
    if k == |opts| then None
    else
      match Search(p, pos + [opts[k]])
      case Some(c) => Some(c)
      case None => TryOptions(p, pos, opts, k + 1)
  }

  lemma StepsExtend(p: string, pos: seq<nat>, j: nat)
    requires Steps(p, pos) && StepOk(p, |pos|, StepStart(pos, |pos|), j)
    ensures Steps(p, pos + [j])
  {
    var q := pos + [j];
    forall l | 0 <= l < |q|
      ensures StepOk(p, l, StepStart(q, l), q[l])
    {
      if l < |pos| {
        assert q[l] == pos[l];
        assert StepStart(q, l) == StepStart(pos, l);
        assert StepOk(p, l, StepStart(pos, l), pos[l]);
      } else {
        assert q[l] == j;
        assert StepStart(q, l) == StepStart(pos, |pos|);
      }
    }
  }

  lemma StepsEnd(p: string, pos: seq<nat>)
    requires Steps(p, pos)
    ensures StepStart(pos, |pos|) <= |p|
  {
    if |pos| > 0 {
      assert StepOk(p, |pos| - 1, StepStart(pos, |pos| - 1), pos[|pos| - 1]);
    }
  }

  /** The search finds a decomposition exactly when one exists. */
  lemma {:induction false} SearchCorrect(p: string, pos: seq<nat>)
    requires |pos| <= 5 && Steps(p, pos)
    ensures Search(p, pos).Some? ==> Covers(p, Search(p, pos).value) && Search(p, pos).value[..|pos|] == pos
    ensures Search(p, pos).None? ==> forall c :: Covers(p, c) ==> c[..|pos|] != pos
    decreases 5 - |pos|, 1, 0
  {
    if |pos| == 5 {
      forall c | Covers(p, c) && c[..|pos|] == pos
        ensures c == pos
      {
        assert c == c[..5];
      }
    } else {
      var i := StepStart(pos, |pos|);
      StepsEnd(p, pos);
      var opts := Options(p, i, |pos|);
      TryOptionsCorrect(p, pos, opts, 0);
      forall c | Covers(p, c) && c[..|pos|] == pos
        ensures c[|pos|] in opts[0..]
      {
        var l := |pos|;
        assert StepOk(p, l, StepStart(c, l), c[l]);
        assert StepStart(c, l) == i by {
          if l > 0 {
            assert c[l - 1] == c[..l][l - 1];
          }
        }
        assert c[l] in opts;
        assert opts[0..] == opts;
      }
    }
  }

  lemma {:induction false} TryOptionsCorrect(p: string, pos: seq<nat>, opts: seq<nat>, k: nat)
    requires |pos| < 5 && k <= |opts| && Steps(p, pos)
    requires opts == Options(p, StepStart(pos, |pos|), |pos|)
    ensures TryOptions(p, pos, opts, k).Some? ==>
      Covers(p, TryOptions(p, pos, opts, k).value) && TryOptions(p, pos, opts, k).value[..|pos|] == pos
    ensures TryOptions(p, pos, opts, k).None? ==>
      forall c :: Covers(p, c) && c[..|pos|] == pos ==> c[|pos|] !in opts[k..]
    decreases 5 - |pos|, 0, |opts| - k
  {
    if k < |opts| {
      var j := opts[k];
      StepsEnd(p, pos);
      assert j in opts;
      StepsExtend(p, pos, j);
      var q := pos + [j];
      SearchCorrect(p, q);
      match Search(p, q)
      case Some(c) =>
        assert c[..|pos|] == c[..|q|][..|pos|];
      case None =>
        TryOptionsCorrect(p, pos, opts, k + 1);
        assert opts[k..] == [j] + opts[k + 1..];
        forall c | Covers(p, c) && c[..|pos|] == pos
          ensures c[|pos|] != j
        {
          NextDiffers(c, pos, j);
        }
    }
  }

  /** A decomposition that starts with `pos` but not with `pos + [j]` does
      not take `j` next. */
  lemma NextDiffers(c: seq<nat>, pos: seq<nat>, j: nat)
    requires |pos| < |c| && c[..|pos|] == pos && c[..|pos| + 1] != pos + [j]
    ensures c[|pos|] != j
  {
    assert c[..|pos| + 1] == c[..|pos|] + [c[|pos|]];
  }

  /** The numeric part's match: the first decomposition of `p` in priority
      order, if there is one. */
  function MatchNumeric(p: string): (r: Option<seq<nat>>)
    ensures r.Some? ==> Covers(p, r.value)
    ensures r.None? <==> forall c :: !Covers(p, c)
  {
    SearchCorrect(p, []);
    var r := Search(p, []);
    assert forall c: seq<nat> :: c[..0] == [];
    r
  }

  /** A group consumes only digits. */
  lemma GroupDigits(p: string, i: nat, j: nat)
    requires IsGroup(p, i, j)
    ensures forall k :: 0 <= k < |p[i..j]| ==> IsDigit(p[i..j][k])
  {
    forall k | 0 <= k < |p[i..j]|
      ensures IsDigit(p[i..j][k])
    {
      assert p[i..j][k] == p[i + k];
    }
  }

  /* ---------- the tail ---------- */

  predicate TailParts(cls: CharClass, preRelease: Option<string>, buildMetadata: Option<string>) {
    && (preRelease.Some? ==> IsIdentifiers(cls, preRelease.value))
    && (buildMetadata.Some? ==> IsIdentifiers(cls, buildMetadata.value))
  }

  predicate IsPlus(c: char) { c == '+' }

  /** `(?:-(X))?(?:\+(Y))?` over the text after the numbers: X runs up to
      the first `+`. */
  function SplitTail(cls: CharClass, t: string): (r: Option<(Option<string>, Option<string>)>)
    ensures r.Some? ==> TailParts(cls, r.value.0, r.value.1) && t == Render(r.value.0, r.value.1)
  {
    if |t| == 0 then Some((None, None))
    else if t[0] == '-' then
      var rest := t[1..];
      match FirstIndex(rest, IsPlus)
      case None =>
        if IsIdentifiers(cls, rest) then Some((Some(rest), None)) else None
      case Some(k) =>
        var x := rest[..k];
        var y := rest[k + 1..];
        assert rest == x + "+" + y;
        if IsIdentifiers(cls, x) && IsIdentifiers(cls, y) then Some((Some(x), Some(y))) else None
    else if t[0] == '+' then
      if IsIdentifiers(cls, t[1..]) then Some((None, Some(t[1..]))) else None
    else None
  }

  /** The tail split is the only one: any valid pre-release and build
      metadata are recovered from their rendering. */
  lemma SplitTailRender(cls: CharClass, preRelease: Option<string>, buildMetadata: Option<string>)
    requires TailParts(cls, preRelease, buildMetadata)
    ensures SplitTail(cls, Render(preRelease, buildMetadata)) == Some((preRelease, buildMetadata))
  {
    var t := Render(preRelease, buildMetadata);
    if preRelease.Some? {
      var x := preRelease.value;
      NoPlusInIdentifiers(cls, x);
      var rest := t[1..];
      if buildMetadata.Some? {
        var y := buildMetadata.value;
        assert rest == x + "+" + y;
        assert IsPlus(rest[|x|]);
        assert forall j :: 0 <= j < |x| ==> !IsPlus(rest[j]) by {
          forall j | 0 <= j < |x|
            ensures !IsPlus(rest[j])
          {
            assert rest[j] == x[j];
          }
        }
        assert FirstIndex(rest, IsPlus) == Some(|x|);
        assert rest[..|x|] == x;
        assert rest[|x| + 1..] == y;
      } else {
        assert rest == x;
        assert forall j :: 0 <= j < |rest| ==> !IsPlus(rest[j]);
      }
    } else if buildMetadata.Some? {
      assert t[1..] == buildMetadata.value;
    }
  }

  /* ---------- parse ---------- */

  /** `toInt` of a group or numeric identifier: `NumberFormatException`
      beyond `Int.MAX_VALUE`. */
  function DecimalToInt(s: string): (r: Result<Platform.int32, string>)
    requires forall i :: 0 <= i < |s| ==> IsDigit(s[i])
    ensures r.Ok? <==> DigitsValue(s) <= Int32Max
    ensures r.Ok? ==> r.value == DigitsValue(s)
  {
    if DigitsValue(s) > Int32Max then Err("NumberFormatException") else Ok(DigitsValue(s))
  }

  /** An empty group reads as 0. */
  function GroupValue(g: string): (r: Result<Platform.int32, string>)
    requires forall i :: 0 <= i < |g| ==> IsDigit(g[i])
    ensures |g| == 0 ==> r == Ok(0)
    ensures |g| > 0 ==> r == DecimalToInt(g)
  {
    if |g| == 0 then Ok(0) else DecimalToInt(g)
  }

  /** The three numbers read from a decomposition of the numeric part,
      passed with the tail to the constructor. */
  function Assemble(cls: CharClass, p: string, c: seq<nat>, pre: Option<string>, build: Option<string>)
    : (r: Result<SemVer, string>)
    requires Covers(p, c)
    ensures r.Ok? ==> ValidWith(cls, r.value) && r.value.preRelease == pre && r.value.buildMetadata == build
  {
    assert StepOk(p, 0, StepStart(c, 0), c[0]);
    assert StepOk(p, 1, StepStart(c, 1), c[1]);
    assert StepOk(p, 2, StepStart(c, 2), c[2]);
    assert StepOk(p, 3, StepStart(c, 3), c[3]);
    assert StepOk(p, 4, StepStart(c, 4), c[4]);
    GroupDigits(p, 0, c[0]);
    GroupDigits(p, c[1], c[2]);
    GroupDigits(p, c[3], c[4]);
    var major :- GroupValue(p[0..c[0]]);
    var minor :- GroupValue(p[c[1]..c[2]]);
    var patch :- GroupValue(p[c[3]..c[4]]);
    MakeWith(cls, major, minor, patch, pre, build)
  }

  /** `SemVer.parse` with the given identifier class. */
  function ParseWith(cls: CharClass, version: string): (r: Result<SemVer, string>)
    ensures r.Ok? ==> ValidWith(cls, r.value)
    ensures r.Ok? ==> exists c :: Covers(version[..NumericPrefixEnd(version, 0)], c)
    ensures r.Ok? ==>
      version[NumericPrefixEnd(version, 0)..] == Render(r.value.preRelease, r.value.buildMetadata)
    ensures (forall c :: !Covers(version[..NumericPrefixEnd(version, 0)], c)) ==> r.Err?
  {
    var k := NumericPrefixEnd(version, 0);
    var p := version[..k];
    match MatchNumeric(p)
    case None => Err("IllegalArgumentException")
    case Some(c) =>
      match SplitTail(cls, version[k..])
      case None => Err("IllegalArgumentException")
      case Some((pre, build)) => Assemble(cls, p, c, pre, build)
  }

  /* ---------- parse and print ---------- */

  /** A group never consumes a dot. */
  lemma GroupNoDot(p: string, i: nat, j: nat)
    requires IsGroup(p, i, j)
    ensures forall k :: i <= k < j ==> p[k] != '.'
  {
  }

  /** Text with dots at `x` and `y` has one decomposition: the two optional
      dots must take the two dots. */
  lemma UniqueCover(p: string, x: nat, y: nat, cut: seq<nat>)
    requires x < y < |p| && p[x] == '.' && p[y] == '.'
    requires Covers(p, cut)
    ensures cut == [x, x + 1, y, y + 1, |p|]
  {
    var c0, c1, c2, c3, c4 := cut[0], cut[1], cut[2], cut[3], cut[4];
    assert StepOk(p, 0, StepStart(cut, 0), c0);
    assert StepOk(p, 1, StepStart(cut, 1), c1);
    assert StepOk(p, 2, StepStart(cut, 2), c2);
    assert StepOk(p, 3, StepStart(cut, 3), c3);
    assert StepOk(p, 4, StepStart(cut, 4), c4);
    GroupNoDot(p, 0, c0);
    GroupNoDot(p, c1, c2);
    GroupNoDot(p, c3, c4);
    assert c0 == x && c1 == x + 1;
    assert c2 == y && c3 == y + 1;
  }

  /** The longest digits-and-dots prefix ends where the tail's `-` or `+`
      begins. */
  lemma NumericPrefixOfConcat(p: string, t: string)
    requires forall j :: 0 <= j < |p| ==> IsDigit(p[j]) || p[j] == '.'
    requires |t| > 0 ==> t[0] == '-' || t[0] == '+'
    ensures NumericPrefixEnd(p + t, 0) == |p|
  {
    var s := p + t;
    assert forall j :: 0 <= j < |p| ==> s[j] == p[j];
    assert |t| > 0 ==> s[|p|] == t[0];
  }

  /** Where the printed numbers sit in the numeric text. */
  function Cut(v: SemVer): seq<nat>
    requires v.major >= 0 && v.minor >= 0
  {
    var x := |NatToString(v.major)|;
    var y := x + 1 + |NatToString(v.minor)|;
    [x, x + 1, y, y + 1, |NumericText(v)|]
  }

  /** Three groups joined by dots: where the parts sit. */
  lemma JoinedParts(a: string, b: string, c: string)
    requires IsDigits(a) && IsDigits(b) && IsDigits(c)
    ensures var p := a + "." + b + "." + c; var x := |a|; var y := |a| + 1 + |b|;
      && y < |p| && p[x] == '.' && p[y] == '.'
      && (forall j :: 0 <= j < |p| ==> IsDigit(p[j]) || p[j] == '.')
      && p[0..x] == a && p[x + 1..y] == b && p[y + 1..|p|] == c
  {
    var p := a + "." + b + "." + c;
    var x, y := |a|, |a| + 1 + |b|;
    assert forall k :: 0 <= k < x ==> p[k] == a[k];
    assert forall k :: x + 1 <= k < y ==> p[k] == b[k - x - 1];
    assert forall k :: y + 1 <= k < |p| ==> p[k] == c[k - y - 1];
    assert p[0..x] == a && p[x + 1..y] == b && p[y + 1..|p|] == c;
  }

  /** A canonical decimal is one whole group. */
  lemma NatToStringGroup(p: string, i: nat, j: nat, n: nat)
    requires i <= j <= |p| && p[i..j] == NatToString(n)
    ensures IsGroup(p, i, j)
  {
    var a := NatToString(n);
    assert forall k :: i <= k < j ==> p[k] == a[k - i];
  }

  /** The printed numbers form a decomposition of the numeric text, and its
      only dots are the two separators. */
  lemma NumericTextCovered(v: SemVer)
    requires v.major >= 0 && v.minor >= 0 && v.patch >= 0
    ensures var p := NumericText(v); var c := Cut(v);
      && c[2] < |p| && p[c[0]] == '.' && p[c[2]] == '.'
      && (forall j :: 0 <= j < |p| ==> IsDigit(p[j]) || p[j] == '.')
      && p[0..c[0]] == NatToString(v.major)
      && p[c[1]..c[2]] == NatToString(v.minor)
      && p[c[3]..c[4]] == NatToString(v.patch)
      && Covers(p, c)
  {
    var a, b, c := NatToString(v.major), NatToString(v.minor), NatToString(v.patch);
    var p := NumericText(v);
    assert p == a + "." + b + "." + c;
    JoinedParts(a, b, c);
    var cut := Cut(v);
    assert cut == [|a|, |a| + 1, |a| + 1 + |b|, |a| + 2 + |b|, |p|];
    CoversOfParts(p, cut, v.major, v.minor, v.patch);
  }

  /** Three canonical decimals at the step ends, separated by the dots. */
  lemma CoversOfParts(p: string, cut: seq<nat>, n0: nat, n1: nat, n2: nat)
    requires |cut| == 5 && cut[0] < cut[1] == cut[0] + 1 <= cut[2] < cut[3] == cut[2] + 1 <= cut[4] == |p|
    requires p[cut[0]] == '.' && p[cut[2]] == '.'
    requires p[0..cut[0]] == NatToString(n0)
    requires p[cut[1]..cut[2]] == NatToString(n1)
    requires p[cut[3]..cut[4]] == NatToString(n2)
    ensures Covers(p, cut)
  {
    assert StepOk(p, 0, StepStart(cut, 0), cut[0]) by {
      NatToStringGroup(p, 0, cut[0], n0);
    }
    assert StepOk(p, 1, StepStart(cut, 1), cut[1]);
    assert StepOk(p, 2, StepStart(cut, 2), cut[2]) by {
      NatToStringGroup(p, cut[1], cut[2], n1);
    }
    assert StepOk(p, 3, StepStart(cut, 3), cut[3]);
    assert StepOk(p, 4, StepStart(cut, 4), cut[4]) by {
      NatToStringGroup(p, cut[3], cut[4], n2);
    }
  }

  /** The numeric part of a printed version is matched at the printed
      numbers. */
  lemma MatchNumericText(v: SemVer)
    requires v.major >= 0 && v.minor >= 0 && v.patch >= 0
    ensures MatchNumeric(NumericText(v)) == Some(Cut(v))
  {
    var p := NumericText(v);
    NumericTextCovered(v);
    var m := MatchNumeric(p);
    UniqueCover(p, Cut(v)[0], Cut(v)[2], m.value);
  }

  /** Parsing a printed version splits it at the end of its numbers. */
  lemma ToStringSplit(v: SemVer)
    requires v.major >= 0 && v.minor >= 0 && v.patch >= 0
    ensures var s := ToString(v); var k := |NumericText(v)|;
      NumericPrefixEnd(s, 0) == k && s[..k] == NumericText(v)
      && s[k..] == Render(v.preRelease, v.buildMetadata)
  {
    NumericTextCovered(v);
    NumericPrefixOfConcat(NumericText(v), Render(v.preRelease, v.buildMetadata));
  }

  /** The group values of a printed version are its numbers. */
  lemma AssembleText(cls: CharClass, v: SemVer)
    requires ValidWith(cls, v)
    ensures Covers(NumericText(v), Cut(v))
    ensures Assemble(cls, NumericText(v), Cut(v), v.preRelease, v.buildMetadata) == Ok(v)
  {
    NumericTextCovered(v);
    DigitsValueOfNatToString(v.major);
    DigitsValueOfNatToString(v.minor);
    DigitsValueOfNatToString(v.patch);
  }

  /** Printing then parsing gives back every valid version. */
  lemma ParseToString(cls: CharClass, v: SemVer)
    requires ValidWith(cls, v)
    ensures ParseWith(cls, ToString(v)) == Ok(v)
  {
    ToStringSplit(v);
    MatchNumericText(v);
    SplitTailRender(cls, v.preRelease, v.buildMetadata);
    AssembleText(cls, v);
  }

  /** An empty string matches with every group empty: version 0.0.0. */
  lemma EmptyParsesAsZero(cls: CharClass)
    ensures ParseWith(cls, "") == Ok(SemVer(0, 0, 0, None, None))
  {
    var cut: seq<nat> := [0, 0, 0, 0, 0];
    forall l | 0 <= l < 5
      ensures StepOk("", l, StepStart(cut, l), cut[l])
    {
    }
    assert Covers("", cut);
    var m := MatchNumeric("");
    var c := m.value;
    assert StepOk("", 0, StepStart(c, 0), c[0]);
    assert StepOk("", 1, StepStart(c, 1), c[1]);
    assert StepOk("", 2, StepStart(c, 2), c[2]);
    assert StepOk("", 3, StepStart(c, 3), c[3]);
    assert c == cut;
    assert ""[0..0] == [];
  }

  /** A missing patch number defaults to 0, and the engine's priority
      puts "2" in the minor group rather than the patch group. */
  lemma MissingPatchDefaults(cls: CharClass)
    ensures ParseWith(cls, "1.2") == Ok(SemVer(1, 2, 0, None, None))
  {
    var p := "1.2";
    assert NumericPrefixEnd(p, 0) == 3 by {
      NumericPrefixOfConcat(p, "");
      assert p + "" == p;
    }
    assert p[..3] == p && p[3..] == "";
    MissingPatchMatch();
    assert SplitTail(cls, "") == Some((None, None));
    MissingPatchAssemble(cls);
  }

  lemma MissingPatchAssemble(cls: CharClass)
    ensures Covers("1.2", [1, 2, 3, 3, 3])
    ensures Assemble(cls, "1.2", [1, 2, 3, 3, 3], None, None) == Ok(SemVer(1, 2, 0, None, None))
  {
    var p := "1.2";
    MissingPatchMatch();
    assert p[0..1] == "1" && p[2..3] == "2" && p[3..3] == "";
    assert DigitsValue("1") == 1 && DigitsValue("2") == 2;
  }

  /** The engine's first decomposition of "1.2": "1", the dot, "2", no
      second dot, an empty patch group. */
  lemma MissingPatchMatch()
    ensures MatchNumeric("1.2") == Some([1, 2, 3, 3, 3])
  {
    var p := "1.2";
    var cut: seq<nat> := [1, 2, 3, 3, 3];
    MissingPatchLate();
    var q1: seq<nat>, q0: seq<nat> := [1], [];
    assert q0 + [1] == q1 && q1 + [2] == [1, 2];
    assert RunEnd(p, 1) == 1;
    assert GroupEnds(p, 0) == [1, 0];
    assert DotEnds(p, 1) == [2, 1];
    assert Options(p, StepStart(q1, 1), 1) == [2, 1];
    assert TryOptions(p, q1, [2, 1], 0) == Some(cut);
    assert Search(p, q1) == Some(cut);
    assert Options(p, StepStart(q0, 0), 0) == [1, 0];
    assert TryOptions(p, q0, [1, 0], 0) == Some(cut);
    assert Search(p, q0) == Some(cut);
  }

  lemma MissingPatchLate()
    ensures Search("1.2", [1, 2]) == Some([1, 2, 3, 3, 3])
  {
    var p := "1.2";
    var cut: seq<nat> := [1, 2, 3, 3, 3];
    var q4: seq<nat>, q3: seq<nat>, q2: seq<nat> := [1, 2, 3, 3], [1, 2, 3], [1, 2];
    assert q4 + [3] == cut && q3 + [3] == q4 && q2 + [3] == q3;
    assert RunEnd(p, 3) == 3;
    assert GroupEnds(p, 2) == [3, 2];
    assert DotEnds(p, 3) == [3];
    assert GroupEnds(p, 3) == [3];
    assert Search(p, cut) == Some(cut);
    assert Options(p, StepStart(q4, 4), 4) == [3];
    assert TryOptions(p, q4, [3], 0) == Some(cut);
    assert Search(p, q4) == Some(cut);
    assert Options(p, StepStart(q3, 3), 3) == [3];
    assert TryOptions(p, q3, [3], 0) == Some(cut);
    assert Search(p, q3) == Some(cut);
    assert Options(p, StepStart(q2, 2), 2) == [3, 2];
    assert TryOptions(p, q2, [3, 2], 0) == Some(cut);
  }

  /** Finding: the class `A-z` lets `_` into identifiers, so "1.0.0-a_b"
      parses as written, while the class Semantic Versioning intends
      rejects it. */
  lemma UnderscoreAccepted()
    ensures ParseWith(AsWritten, "1.0.0-a_b") == Ok(SemVer(1, 0, 0, Some("a_b"), None))
    ensures ParseWith(Intended, "1.0.0-a_b").Err?
  {
    UnderscoreParsesAsWritten();
    UnderscoreNumericEnd();
    UnderscoreTail();
  }

  lemma UnderscoreParsesAsWritten()
    ensures ParseWith(AsWritten, "1.0.0-a_b") == Ok(SemVer(1, 0, 0, Some("a_b"), None))
  {
    var v := SemVer(1, 0, 0, Some("a_b"), None);
    assert NatToString(1) == "1" && NatToString(0) == "0";
    assert ToString(v) == "1.0.0-a_b";
    ParseToString(AsWritten, v);
  }

  lemma UnderscoreNumericEnd()
    ensures NumericPrefixEnd("1.0.0-a_b", 0) == 5 && "1.0.0-a_b"[5..] == "-a_b"
  {
    var p, t := "1.0.0", "-a_b";
    assert p + t == "1.0.0-a_b";
    NumericPrefixOfConcat(p, t);
  }

  lemma UnderscoreTail()
    ensures SplitTail(Intended, "-a_b").None?
  {
    var t := "-a_b";
    assert !InClass(Intended, t[1..][1]);
    assert forall j :: 0 <= j < |t[1..]| ==> !IsPlus(t[1..][j]);
  }

  /** With the intended class every accepted identifier character is an
      ASCII letter, digit, hyphen or dot. */
  lemma IntendedIdentifiers(version: string)
    requires ParseWith(Intended, version).Ok?
    ensures var v := ParseWith(Intended, version).value;
            forall s :: s in [v.preRelease, v.buildMetadata] && s.Some? ==>
              forall i :: 0 <= i < |s.value| ==>
                var ch := s.value[i];
                ch == '.' || ch == '-' || '0' <= ch <= '9' || 'A' <= ch <= 'Z' || 'a' <= ch <= 'z'
  {
  }

  /* ---------- precedence ---------- */

  /** `isNumeric`: `\d+`. */
  predicate IsNumeric(s: string) {
    IsDigits(s)
  }

  function Sign(d: int): int {
    if d > 0 then 1 else if d < 0 then -1 else 0
  }

  /** One step of the identifier loop: 0 means "look further". */
  function CompareIdentifier(x: string, y: string): (r: Result<int, string>)
    ensures r.Ok? ==> r.value in {-1, 0, 1}
    ensures r == Ok(0) ==> x == y || (IsNumeric(x) && IsNumeric(y) && DigitsValue(x) == DigitsValue(y))
    ensures IsNumeric(x) && !IsNumeric(y) ==> r == Ok(-1)
    ensures !IsNumeric(x) && IsNumeric(y) ==> r == Ok(1)
    ensures !IsNumeric(x) && !IsNumeric(y) ==>
      r.Ok? && (r.value == -1 <==> StrLe(x, y) && x != y) && (r.value == 1 <==> !StrLe(x, y))
    ensures IsNumeric(x) && IsNumeric(y) ==>
      (r.Err? <==> x != y && (DigitsValue(x) > Int32Max || DigitsValue(y) > Int32Max)) &&
      (r.Ok? ==> r.value == Sign(DigitsValue(x) - DigitsValue(y)))
  {
    if x == y then StrLeTotal(x, x); Ok(0)
    else if IsNumeric(x) && !IsNumeric(y) then Ok(-1)
    else if !IsNumeric(x) && IsNumeric(y) then Ok(1)
    else if !IsNumeric(x) && !IsNumeric(y) then
      if !StrLe(x, y) then Ok(1) else if StrLe(x, y) && x != y then Ok(-1) else Ok(0)
    else
      var xi :- DecimalToInt(x);
      var yi :- DecimalToInt(y);
      Ok(if xi > yi then 1 else if xi < yi then -1 else 0)
  }

  /** The loop over the common identifiers, then the length rule. */
  function CompareParts(xs: seq<string>, ys: seq<string>, i: nat): (r: Result<int, string>)
    requires i <= |xs| && i <= |ys|
    ensures r.Ok? ==> r.value in {-1, 0, 1}
    decreases |xs| - i
  {
    if i == |xs| || i == |ys| then Ok(if |xs| < |ys| then -1 else if |xs| > |ys| then 1 else 0)
    else
      match CompareIdentifier(xs[i], ys[i])
      case Err(e) => Err(e)
      case Ok(d) => if d != 0 then Ok(d) else CompareParts(xs, ys, i + 1)
  }

  predicate SameCore(a: SemVer, b: SemVer) {
    a.major == b.major && a.minor == b.minor && a.patch == b.patch
  }

  /** The order on (major, minor, patch), lexicographic. */
  predicate CoreLess(a: SemVer, b: SemVer) {
    || a.major < b.major
    || (a.major == b.major && a.minor < b.minor)
    || (a.major == b.major && a.minor == b.minor && a.patch < b.patch)
  }

  /** `compareTo`. It can throw: `toInt` on a numeric identifier beyond
      `Int.MAX_VALUE`. */
  function CompareTo(a: SemVer, b: SemVer): (r: Result<int, string>)
    ensures r.Ok? ==> r.value in {-1, 0, 1}
    ensures CoreLess(a, b) ==> r == Ok(-1)
    ensures CoreLess(b, a) ==> r == Ok(1)
    ensures SameCore(a, b) && a.preRelease.None? && b.preRelease.None? ==> r == Ok(0)
    ensures SameCore(a, b) && a.preRelease.Some? && b.preRelease.None? ==> r == Ok(-1)
    ensures SameCore(a, b) && a.preRelease.None? && b.preRelease.Some? ==> r == Ok(1)
    ensures r == Ok(0) ==> SameCore(a, b)
  {
    if a.major > b.major then Ok(1)
    else if a.major < b.major then Ok(-1)
    else if a.minor > b.minor then Ok(1)
    else if a.minor < b.minor then Ok(-1)
    else if a.patch > b.patch then Ok(1)
    else if a.patch < b.patch then Ok(-1)
    else if a.preRelease.None? && b.preRelease.None? then Ok(0)
    else if a.preRelease.Some? && b.preRelease.None? then Ok(-1)
    else if a.preRelease.None? && b.preRelease.Some? then Ok(1)
    else CompareParts(Split(a.preRelease.value, '.'), Split(b.preRelease.value, '.'), 0)
  }

  lemma CompareIdentifierAntisymmetric(x: string, y: string)
    ensures CompareIdentifier(x, y).Err? <==> CompareIdentifier(y, x).Err?
    ensures CompareIdentifier(x, y).Ok? ==> CompareIdentifier(y, x).value == -CompareIdentifier(x, y).value
  {
    if !IsNumeric(x) && !IsNumeric(y) && x != y {
      StrLeTotal(x, y);
      if StrLe(x, y) && StrLe(y, x) {
        StrLeAntisymmetric(x, y);
      }
    }
  }

  lemma {:induction false} ComparePartsAntisymmetric(xs: seq<string>, ys: seq<string>, i: nat)
    requires i <= |xs| && i <= |ys|
    ensures CompareParts(xs, ys, i).Err? <==> CompareParts(ys, xs, i).Err?
    ensures CompareParts(xs, ys, i).Ok? ==> CompareParts(ys, xs, i).value == -CompareParts(xs, ys, i).value
    decreases |xs| - i
  {
    if i < |xs| && i < |ys| {
      CompareIdentifierAntisymmetric(xs[i], ys[i]);
      ComparePartsAntisymmetric(xs, ys, i + 1);
    }
  }

  /** Swapping the operands negates the answer, and one direction throws
      exactly when the other does. */
  lemma CompareAntisymmetric(a: SemVer, b: SemVer)
    ensures CompareTo(a, b).Err? <==> CompareTo(b, a).Err?
    ensures CompareTo(a, b).Ok? ==> CompareTo(b, a).value == -CompareTo(a, b).value
  {
    if SameCore(a, b) && a.preRelease.Some? && b.preRelease.Some? {
      ComparePartsAntisymmetric(Split(a.preRelease.value, '.'), Split(b.preRelease.value, '.'), 0);
    }
  }

  lemma {:induction false} ComparePartsReflexive(xs: seq<string>, i: nat)
    requires i <= |xs|
    ensures CompareParts(xs, xs, i) == Ok(0)
    decreases |xs| - i
  {
    if i < |xs| {
      ComparePartsReflexive(xs, i + 1);
    }
  }

  /** Every version compares equal to itself, without throwing. */
  lemma CompareReflexive(a: SemVer)
    ensures CompareTo(a, a) == Ok(0)
  {
    if a.preRelease.Some? {
      ComparePartsReflexive(Split(a.preRelease.value, '.'), 0);
    }
  }

  /** Build metadata never takes part in the comparison. */
  lemma BuildMetadataIgnored(a: SemVer, b: SemVer, m: Option<string>, n: Option<string>)
    ensures CompareTo(a.(buildMetadata := m), b.(buildMetadata := n)) == CompareTo(a, b)
  {
  }

  /** The first differing identifier decides (sections 11.4.1 to 11.4.3). */
  lemma {:induction false} FirstDifferenceDecides(xs: seq<string>, ys: seq<string>, i: nat, k: nat)
    requires i <= k < |xs| && k < |ys|
    requires forall j :: i <= j < k ==> CompareIdentifier(xs[j], ys[j]) == Ok(0)
    requires CompareIdentifier(xs[k], ys[k]).Ok? && CompareIdentifier(xs[k], ys[k]).value != 0
    ensures CompareParts(xs, ys, i) == CompareIdentifier(xs[k], ys[k])
    decreases k - i
  {
    if i < k {
      FirstDifferenceDecides(xs, ys, i + 1, k);
    }
  }

  /** When one identifier list is a proper prefix of the other, the shorter
      list comes first (section 11.4.4). */
  lemma {:induction false} PrefixComesFirst(xs: seq<string>, ys: seq<string>, i: nat)
    requires i <= |xs| < |ys| && xs == ys[..|xs|]
    ensures CompareParts(xs, ys, i) == Ok(-1)
    decreases |xs| - i
  {
    if i < |xs| {
      assert xs[i] == ys[i];
      PrefixComesFirst(xs, ys, i + 1);
    }
  }
}
