/** `InstallationViewModel.kt`: the list of bootstrap releases offered for
    installation. Releases are sorted newest first, each release becomes an
    item when its name has the form "<bootstrap>-<octoprint>" and it carries
    an asset for the device architecture, and the first item that is not a
    pre-release is recommended and selected.

    Only the release fields the view model reads are kept. */
module Installation {
  import opened Wrappers
  import opened Text
  import opened Lists

  datatype GithubAsset = GithubAsset(name: string, browserDownloadUrl: string)

  datatype GithubRelease = GithubRelease(
    name: string,
    publishedAt: string,
    prerelease: bool,
    assets: seq<GithubAsset>)

  datatype BootstrapItem = BootstrapItem(
    title: string,
    bootstrapVersion: string,
    assetUrl: string,
    prerelease: bool,
    recommended: bool)

  /* ---------- newest first ---------- */

  /** The order `sortByDescending { it.publishedAt }` sorts by: `a` may come
      before `b` when its timestamp is not smaller. The timestamps are
      compared as strings. */
  predicate NewerOrSame(a: GithubRelease, b: GithubRelease) {
    StrLe(b.publishedAt, a.publishedAt)
  }

  lemma NewerOrSamePreorder()
    ensures TotalPreorder(NewerOrSame)
  {
    forall a: GithubRelease, b: GithubRelease
      ensures NewerOrSame(a, b) || NewerOrSame(b, a)
    {
      StrLeTotal(a.publishedAt, b.publishedAt);
    }
    forall a: GithubRelease, b: GithubRelease, c: GithubRelease | NewerOrSame(a, b) && NewerOrSame(b, c)
      ensures NewerOrSame(a, c)
    {
      StrLeTransitive(c.publishedAt, b.publishedAt, a.publishedAt);
    }
  }

  /** The stable descending sort of the fetched releases. */
  function NewestFirst(releases: seq<GithubRelease>): (r: seq<GithubRelease>)
    ensures multiset(r) == multiset(releases)
    ensures forall i, j :: 0 <= i < j < |r| ==> StrLe(r[j].publishedAt, r[i].publishedAt)
  {
    NewerOrSamePreorder();
    SortBySorted(releases, NewerOrSame);
    SortBy(releases, NewerOrSame)
  }

  /** Releases with equal timestamps keep their fetched order: a list
      already ordered by `le2` comes out ordered newest first, and by `le2`
      among equal timestamps. */
  lemma NewestFirstStable(releases: seq<GithubRelease>, le2: (GithubRelease, GithubRelease) -> bool)
    requires Sorted(releases, le2)
    ensures Sorted(NewestFirst(releases), Lex(NewerOrSame, le2))
  {
    NewerOrSamePreorder();
    SortByStable(releases, NewerOrSame, le2);
  }

  /* ---------- items ---------- */

  /** The asset test: the asset name contains the architecture string. */
  function ForArch(arch: string): GithubAsset -> bool {
    (a: GithubAsset) => Contains(a.name, arch)
  }

  /** One release as an item, or nothing when its name does not split on
      "-" into exactly two parts or it has no asset for `arch`. */
  function ItemOf(release: GithubRelease, arch: string): (r: Option<BootstrapItem>)
    ensures r.Some? <==> |Split(release.name, '-')| == 2 && exists a :: a in release.assets && ForArch(arch)(a)
    ensures r.Some? ==>
      var parts := Split(release.name, '-');
      && r.value.title == "OctoPrint " + parts[1]
      && r.value.bootstrapVersion == RemovePrefix(parts[0], "v")
      && r.value.prerelease == release.prerelease
      && !r.value.recommended
      && exists k :: 0 <= k < |release.assets| && ForArch(arch)(release.assets[k])
                     && r.value.assetUrl == release.assets[k].browserDownloadUrl
                     && forall j :: 0 <= j < k ==> !ForArch(arch)(release.assets[j])
  {
    var parts := Split(release.name, '-');
    match FirstIndex(release.assets, ForArch(arch))
    case None => None
    case Some(k) =>
      if |parts| != 2 then None
      else Some(BootstrapItem("OctoPrint " + parts[1], RemovePrefix(parts[0], "v"),
                              release.assets[k].browserDownloadUrl, release.prerelease, false))
  }

  /** `mapNotNull` of `ItemOf`. */
  function Items(releases: seq<GithubRelease>, arch: string): (r: seq<BootstrapItem>)
    ensures |r| <= |releases|
    decreases |releases|
  {
    if |releases| == 0 then []
    else
      match ItemOf(releases[0], arch)
      case None => Items(releases[1..], arch)
      case Some(x) => [x] + Items(releases[1..], arch)
  }

  /** The items are exactly what the releases map to. */
  lemma {:induction false} ItemsMembers(releases: seq<GithubRelease>, arch: string)
    ensures forall x :: x in Items(releases, arch) <==> exists i :: 0 <= i < |releases| && ItemOf(releases[i], arch) == Some(x)
    decreases |releases|
  {
    if |releases| > 0 {
      var tail := releases[1..];
      ItemsMembers(tail, arch);
      var head := match ItemOf(releases[0], arch) case None => [] case Some(y) => [y];
      assert Items(releases, arch) == head + Items(tail, arch);
      forall x
        ensures x in Items(releases, arch) <==> exists i :: 0 <= i < |releases| && ItemOf(releases[i], arch) == Some(x)
      {
        if exists i :: 0 <= i < |tail| && ItemOf(tail[i], arch) == Some(x) {
          var i :| 0 <= i < |tail| && ItemOf(tail[i], arch) == Some(x);
          assert releases[i + 1] == tail[i];
        }
        if exists i :: 0 <= i < |releases| && ItemOf(releases[i], arch) == Some(x) {
          var i :| 0 <= i < |releases| && ItemOf(releases[i], arch) == Some(x);
          if i > 0 {
            assert tail[i - 1] == releases[i];
          }
        }
      }
    }
  }

  /** Items keep the order of their releases: mapping a concatenation
      concatenates the mapped parts. */
  lemma {:induction false} ItemsAppend(a: seq<GithubRelease>, b: seq<GithubRelease>, arch: string)
    ensures Items(a + b, arch) == Items(a, arch) + Items(b, arch)
    decreases |a|
  {
    if |a| > 0 {
      assert (a + b)[0] == a[0];
      assert (a + b)[1..] == a[1..] + b;
      ItemsAppend(a[1..], b, arch);
    } else {
      assert a + b == b;
    }
  }

  /* ---------- recommendation ---------- */

  predicate IsRelease(item: BootstrapItem) { !item.prerelease }

  /** Marks the first item that is not a pre-release as recommended and
      returns it; the item in the list and the returned item are the same
      object in the source, so both carry the mark. */
  function Recommend(items: seq<BootstrapItem>): (r: (seq<BootstrapItem>, Option<BootstrapItem>))
    ensures |r.0| == |items|
    ensures r.1.None? <==> forall i :: 0 <= i < |items| ==> items[i].prerelease
    ensures r.1.Some? ==>
      exists k ::
        && 0 <= k < |items| && !items[k].prerelease
        && (forall j :: 0 <= j < k ==> items[j].prerelease)
        && r.1.value == items[k].(recommended := true)
        && r.0 == items[k := r.1.value]
    ensures r.1.None? ==> r.0 == items
  {
    match FirstIndex(items, IsRelease)
    case None => (items, None)
    case Some(k) =>
      var marked := items[k].(recommended := true);
      (items[k := marked], Some(marked))
  }

  /* ---------- the view model ---------- */

  /** The view model's two flows and what it last handed to the bootstrap
      repository for installation. */
  datatype ViewState = ViewState(
    releases: seq<BootstrapItem>,
    selected: Option<BootstrapItem>,
    forInstallation: Option<BootstrapItem>)

  /** `fetchBootstrapReleases`, given what the GitHub request and
      `getArchString` produced; either may throw, and an exception leaves
      the state as it was. */
  function FetchBootstrapReleases(st: ViewState, fetched: Result<seq<GithubRelease>, string>,
                                  arch: Result<string, string>): (r: ViewState)
    ensures fetched.Err? || arch.Err? ==> r == st
    ensures fetched.Ok? && arch.Ok? ==>
      && r.releases == Recommend(Items(NewestFirst(fetched.value), arch.value)).0
      && r.selected == Recommend(Items(NewestFirst(fetched.value), arch.value)).1
      && (r.selected.Some? ==> r.forInstallation == r.selected)
      && (r.selected.None? ==> r.forInstallation == st.forInstallation)
  {
    match fetched
    case Err(_) => st
    case Ok(releases) =>
      match arch
      case Err(_) => st
      case Ok(a) =>
        var (items, recommended) := Recommend(Items(NewestFirst(releases), a));
        ViewState(items, recommended, if recommended.Some? then recommended else st.forInstallation)
  }

  /** After a successful fetch at most one item is recommended, it is the
      selected one, and every item before it is a pre-release. */
  lemma FetchRecommendsFirstRelease(st: ViewState, releases: seq<GithubRelease>, arch: string)
    ensures var r := FetchBootstrapReleases(st, Ok(releases), Ok(arch));
      && (forall i, j :: 0 <= i < j < |r.releases| ==> !(r.releases[i].recommended && r.releases[j].recommended))
      && (r.selected.Some? <==> exists i :: 0 <= i < |r.releases| && r.releases[i].recommended)
      && (forall i :: 0 <= i < |r.releases| && r.releases[i].recommended ==>
            r.selected == Some(r.releases[i]) && !r.releases[i].prerelease
            && forall j :: 0 <= j < i ==> r.releases[j].prerelease)
  {
    var items := Items(NewestFirst(releases), arch);
    ItemsUnmarked(NewestFirst(releases), arch);
    RecommendMarksOne(items);
  }

  /** No item is recommended before `Recommend` runs. */
  lemma {:induction false} ItemsUnmarked(releases: seq<GithubRelease>, arch: string)
    ensures forall i :: 0 <= i < |Items(releases, arch)| ==> !Items(releases, arch)[i].recommended
    decreases |releases|
  {
    if |releases| > 0 {
      var tail := releases[1..];
      ItemsUnmarked(tail, arch);
      var head := match ItemOf(releases[0], arch) case None => [] case Some(y) => [y];
      assert Items(releases, arch) == head + Items(tail, arch);
    }
  }

  /** On an unmarked list, `Recommend` marks at most one item, the one it
      returns, and every item before it is a pre-release. */
  lemma RecommendMarksOne(items: seq<BootstrapItem>)
    requires forall i :: 0 <= i < |items| ==> !items[i].recommended
    ensures var r := Recommend(items);
      && (forall i, j :: 0 <= i < j < |r.0| ==> !(r.0[i].recommended && r.0[j].recommended))
      && (r.1.Some? <==> exists i :: 0 <= i < |r.0| && r.0[i].recommended)
      && (forall i :: 0 <= i < |r.0| && r.0[i].recommended ==>
            r.1 == Some(r.0[i]) && !r.0[i].prerelease
            && forall j :: 0 <= j < i ==> r.0[j].prerelease)
  {
    var rec := Recommend(items);
    if rec.1.Some? {
      var k :| && 0 <= k < |items| && !items[k].prerelease
               && (forall j :: 0 <= j < k ==> items[j].prerelease)
               && rec.1.value == items[k].(recommended := true)
               && rec.0 == items[k := rec.1.value];
      assert rec.0[k].recommended;
      assert forall i :: 0 <= i < |rec.0| && rec.0[i].recommended ==> i == k;
    }
  }

  /** `selectBootstrapRelease`: the chosen item becomes the selection and is
      handed over for installation; the list is untouched. */
  function SelectBootstrapRelease(st: ViewState, item: BootstrapItem): (r: ViewState)
    ensures r.releases == st.releases
    ensures r.selected == Some(item) && r.forInstallation == Some(item)
  {
    st.(selected := Some(item), forInstallation := Some(item))
  }

  /** A name with exactly one "-" yields an item title and version from
      the two halves. */
  lemma ItemOfDashedName(b: string, o: string, release: GithubRelease, arch: string)
    requires '-' !in b && '-' !in o && release.name == b + "-" + o
    requires exists a :: a in release.assets && ForArch(arch)(a)
    ensures ItemOf(release, arch).Some?
    ensures ItemOf(release, arch).value.title == "OctoPrint " + o
    ensures ItemOf(release, arch).value.bootstrapVersion == RemovePrefix(b, "v")
  {
    SplitAt(b, '-', o);
    SplitNoSep(o, '-');
    assert b + "-" + o == b + ['-'] + o;
  }
}
