/** Sources and checkouts for which `sync_wiki_docs` (scripts/sync_wiki_docs.py:157-220) does not do what it is for. */
module WikiSyncExamples {
  import opened Sorting
  import opened WikiPaths
  import opened WikiRemoval
  import opened WikiSync
  import opened WikiSyncLaws
  import opened Wrappers

  predicate IsLower(name: string) {
    forall i :: 0 <= i < |name| ==> 'a' <= name[i] <= 'z' || name[i] in "./-"
  }

  /** Case folding, as far as the names below need it. */
  ghost predicate FoldsCase(codec: Codec) {
    codec.fold("Home.md") == "home.md" && forall name {:trigger codec.fold(name)} :: IsLower(name) ==>
      codec.fold(name) == name
  }

  lemma {:induction false} SplitTwo(dir: string, name: string)
    requires '/' !in dir && '/' !in name
    ensures Split(dir + "/" + name) == [dir, name]
  {
    var all := dir + "/" + name;
    if dir == "" {
      assert all[0] == '/' && all[1..] == name;
      SplitPlain(name);
    } else {
      assert all[0] == dir[0] && all[1..] == dir[1..] + "/" + name;
      SplitTwo(dir[1..], name);
      assert [dir[0]] + dir[1..] == dir;
    }
  }

  lemma PngSuffix(name: string)
    requires |name| > 4 && name[|name| - 4..] == ".png"
    ensures Suffix(name) == ".png"
  {
    var n := |name|;
    assert name[n - 4] == name[n - 4..][0] && name[n - 3] == name[n - 4..][1];
    assert name[n - 2] == name[n - 4..][2] && name[n - 1] == name[n - 4..][3];
    assert SuffixFrom(name, n) == SuffixFrom(name, n - 1) == SuffixFrom(name, n - 2) == SuffixFrom(name, n - 3)
      == name[n - 4..];
  }

  /** Images in a directory are safe asset names. */
  lemma ImageIsSafe(codec: Codec, dir: string, name: string)
    requires FoldsCase(codec) && '/' !in dir && '/' !in name && IsLower(dir) && IsLower(name)
      && dir !in {"", ".", "..", ".git"}
    requires |name| > 4 && name[|name| - 4..] == ".png" && dir + "/" + name != MANIFEST
    ensures Safe(dir + "/" + name, codec) && Split(dir + "/" + name) == [dir, name] && IsLower(dir + "/" + name)
  {
    SplitTwo(dir, name);
    PngSuffix(name);
    hide Split, Suffix;
    assert |".git"| == 4 && |".png"| == 4 && IsLower(".png");
    assert name !in {"", ".", "..", ".git"};
  }

  lemma FoldingKeeps(codec: Codec)
    requires FoldsCase(codec)
    ensures codec.fold(MANIFEST) == MANIFEST && codec.fold("Home.md") == "home.md"
    ensures MANIFEST != "Home.md" && MANIFEST != "home.md" && IsLower(MANIFEST)
  {
    assert IsLower(MANIFEST);
    assert |MANIFEST| != 7;
  }

  /** A new checkout takes whatever is safe and does not collide. */
  lemma NewCheckout(s: Source, codec: Codec)
    requires forall a :: a in s.assets ==> Safe(a, codec)
    requires NoCollision(s.pages.Keys, s.assets.Keys, codec)
    ensures
      var t := Tree(map[], {});
      t.Valid() && Accepted(t, s, codec) && Previous(t, codec) == {} && Removable(t, s, {})
  {
    hide Safe, NoCollision, Split, Ascending;
    assert {} - s.assets.Keys == {} && s.assets.Keys + {} == s.assets.Keys;
  }

  // ----- an asset named as a page -----

  function DotMdSource(home: Bytes, page: Bytes, raw: Bytes): Source {
    Source(map["Home.md" := home, ".md" := page], map[".md" := raw])
  }

  lemma DotMdIsSafe(codec: Codec)
    requires FoldsCase(codec)
    ensures Safe(".md", codec) && IsPageName(".md") && Split(".md") == [".md"]
  {
    SplitPlain(".md");
    hide Split;
    assert IsLower(".md") && IsLower("");
    assert SuffixFrom(".md", 3) == SuffixFrom(".md", 2) == SuffixFrom(".md", 1) == "";
  }

  lemma DotMdDoesNotCollide(home: Bytes, page: Bytes, raw: Bytes, codec: Codec)
    requires FoldsCase(codec)
    ensures NoCollision(DotMdSource(home, page, raw).pages.Keys, DotMdSource(home, page, raw).assets.Keys, codec)
  {
    FoldingKeeps(codec);
    assert IsLower(".md");
    assert |".md"| == 3 && |"home.md"| == 7;
    hide MANIFEST;
  }

  lemma PageNames()
    ensures IsPageName("Home.md") && IsPageName(".md")
  {
  }

  lemma NothingAboveTop(name: string)
    ensures Above([name]) == {}
  {
  }

  lemma DotMdConflictsWithNothing(home: Bytes, page: Bytes, raw: Bytes)
    requires Split(".md") == [".md"]
    ensures FromTree(DotMdSource(home, page, raw)) && NoConflict(DotMdSource(home, page, raw))
  {
    hide Split, MANIFEST, AssetPaths, PagePaths, IsPageName, Above;
    assert IsPageName("Home.md") && IsPageName(".md") by {
      PageNames();
    }
    NothingAboveTop(".md");
  }

  /** A page may link to `.md`, which makes it an asset as well; when rewriting changes it, the asset overwrites the
    * page in every run, and every run reports it.
    */
  lemma DotMdIsNotMirrored(home: Bytes, page: Bytes, raw: Bytes, codec: Codec)
    requires FoldsCase(codec) && page != raw
    ensures
      var t, s := Tree(map[], {}), DotMdSource(home, page, raw);
      && t.Valid() && FromTree(s) && Succeeds(t, s, codec) && !Quiet(s)
      && !PageMirrored(Mirrored(t.files, s, Previous(t, codec), codec), s.pages, ".md")
  {
    hide Split, Safe, NoCollision, Accepted, Mirrored, PageMirrored, Removable, FromTree, NoConflict, PreviousAssets,
      FoldsCase;
    var t, s := Tree(map[], {}), DotMdSource(home, page, raw);
    DotMdIsSafe(codec);
    DotMdDoesNotCollide(home, page, raw, codec);
    NewCheckout(s, codec);
    DotMdConflictsWithNothing(home, page, raw);
    PageMirroredAt(t, s, codec, ".md");
  }

  // ----- a directory named as the manifest -----

  function ManifestSource(home: Bytes, image: Bytes): Source {
    Source(map["Home.md" := home], map[MANIFEST + "/a.png" := image])
  }

  lemma ImageDoesNotCollide(home: Bytes, image: Bytes, codec: Codec)
    requires FoldsCase(codec)
    ensures NoCollision(ManifestSource(home, image).pages.Keys, ManifestSource(home, image).assets.Keys, codec)
  {
    FoldingKeeps(codec);
    var name := MANIFEST + "/a.png";
    assert IsLower("/a.png") && IsLower(name);
    assert |name| == |MANIFEST| + 6 && |MANIFEST| > 7;
    hide MANIFEST;
  }

  lemma OneAbove(dir: string, file: string)
    ensures Above([dir, file]) == {[dir]}
  {
    assert [dir, file][..1] == [dir];
  }

  lemma NoPageBelow(name: string)
    requires '/' in name
    ensures !IsPageName(name)
  {
  }

  lemma OneAssetPath(name: string)
    ensures AssetPaths({name}) == {Split(name)}
  {
    hide Split;
  }

  /** A source with one asset in a directory that is neither a page nor the asset. */
  lemma OneAssetFromTree(s: Source, name: string, dir: string, file: string)
    requires s.assets.Keys == {name} && Split(name) == [dir, file] && '/' in name
    requires !IsPageName(dir) && forall p :: p in s.pages ==> IsPageName(p)
    ensures FromTree(s) && [dir] in Above(Split(name))
  {
    NoPageBelow(name);
    hide Split, IsPageName, AssetPaths, Above;
    OneAbove(dir, file);
    OneAssetPath(name);
    assert |[dir]| != |[dir, file]|;
  }

  lemma BelowManifestConflicts(s: Source, a: string)
    requires a in s.assets && [MANIFEST] in Above(Split(a))
    ensures !NoConflict(s)
  {
    hide Split, MANIFEST, Above, Apart;
  }

  lemma ImageBelowManifest(home: Bytes, image: Bytes)
    requires Split(MANIFEST + "/a.png") == [MANIFEST, "a.png"]
    ensures FromTree(ManifestSource(home, image)) && !NoConflict(ManifestSource(home, image))
  {
    hide Split, MANIFEST, IsPageName, Above, FromTree, NoConflict;
    ManifestIsPlain();
    PageNames();
    var s, name := ManifestSource(home, image), MANIFEST + "/a.png";
    assert name[|MANIFEST|] == '/';
    OneAssetFromTree(s, name, MANIFEST, "a.png");
    BelowManifestConflicts(s, name);
  }

  /** An image in a directory with the name of the manifest is accepted and written, and then the manifest cannot be. */
  lemma ManifestIsInTheWay(home: Bytes, image: Bytes, codec: Codec)
    requires FoldsCase(codec)
    ensures
      var t, s := Tree(map[], {}), ManifestSource(home, image);
      t.Valid() && FromTree(s) && Accepted(t, s, codec) && Removable(t, s, Previous(t, codec)) && !NoConflict(s)
  {
    hide Split, Safe, NoCollision, Accepted, Removable, FromTree, NoConflict, PreviousAssets, FoldsCase, MANIFEST;
    var s := ManifestSource(home, image);
    ImageOfManifestIsSafe(codec);
    ImageDoesNotCollide(home, image, codec);
    NewCheckout(s, codec);
    ImageBelowManifest(home, image);
  }

  lemma ImageOfManifestIsSafe(codec: Codec)
    requires FoldsCase(codec)
    ensures Safe(MANIFEST + "/a.png", codec) && Split(MANIFEST + "/a.png") == [MANIFEST, "a.png"]
  {
    hide Split, Safe;
    FoldingKeeps(codec);
    ManifestHasNoSlash();
    assert IsLower("a.png") && '/' !in "a.png" && "a.png"[1..] == ".png";
    assert |MANIFEST| > 7;
    assert MANIFEST + "/a.png" == MANIFEST + "/" + "a.png";
    hide MANIFEST;
    ImageIsSafe(codec, MANIFEST, "a.png");
  }

  lemma ManifestHasNoSlash()
    ensures '/' !in MANIFEST
  {
  }

  // ----- a recorded asset in a directory that another one empties -----

  const FIRST := "img/a.png"
  const SECOND := "img/b.png"

  function HalfCheckout(image: Bytes, codec: Codec): Tree {
    Tree(map[["img", "a.png"] := image, [MANIFEST] := codec.render({FIRST, SECOND})], {["img"]})
  }

  lemma TwoSorted(a: string, b: string)
    requires StringLe(a, b) && a != b
    ensures SortedStrings({a, b}) == [a, b]
  {
    var r := SortedStrings({a, b});
    StringLeTotal2(a, b);
    hide StringLe;
    assert a in r && b in r;
    var i :| 0 <= i < |r| && r[i] == a;
    var j :| 0 <= j < |r| && r[j] == b;
    forall k | 0 <= k < |r| ensures r[k] == r[i] || r[k] == r[j] {
      assert r[k] in r;
    }
    assert i < j;
    assert |r| == 2 && i == 0 && j == 1;
  }

  lemma ImagesAreSafe(codec: Codec)
    requires FoldsCase(codec)
    ensures Split(FIRST) == ["img", "a.png"] && Split(SECOND) == ["img", "b.png"] && Safe(FIRST, codec)
      && Safe(SECOND, codec)
    ensures codec.fold(FIRST) == FIRST && codec.fold(SECOND) == SECOND
  {
    hide Split, Safe, MANIFEST;
    FoldingKeeps(codec);
    assert IsLower("img") && IsLower("a.png") && IsLower("b.png") && "a.png"[1..] == ".png" && "b.png"[1..] == ".png";
    assert FIRST == "img" + "/" + "a.png" && SECOND == "img" + "/" + "b.png";
    ManifestIsLong();
    ImageIsSafe(codec, "img", "a.png");
    ImageIsSafe(codec, "img", "b.png");
  }

  lemma ManifestIsLong()
    ensures |MANIFEST| > 9
  {
  }

  lemma ImagesSorted()
    ensures SortedStrings({FIRST, SECOND}) == [FIRST, SECOND]
  {
    hide SortedStrings;
    assert FIRST[1..][1..][1..][1..] == "a.png" && SECOND[1..][1..][1..][1..] == "b.png";
    assert StringLe("a.png", "b.png");
    assert StringLe(FIRST[1..][1..][1..], SECOND[1..][1..][1..]);
    assert StringLe(FIRST[1..][1..], SECOND[1..][1..]);
    assert StringLe(FIRST[1..], SECOND[1..]);
    assert FIRST[4] != SECOND[4];
    TwoSorted(FIRST, SECOND);
  }

  lemma HalfCheckoutRecords(image: Bytes, codec: Codec)
    requires FoldsCase(codec) && codec.RoundTrips()
    ensures PreviousAssets(HalfCheckout(image, codec), codec) == Some({FIRST, SECOND})
  {
    hide Split, Safe, SortedStrings, FoldsCase, MANIFEST, PreviousAssets;
    ImagesAreSafe(codec);
    ImagesSorted();
    var t, stale := HalfCheckout(image, codec), [FIRST, SECOND];
    ManifestIsLong();
    assert "img" != MANIFEST;
    assert codec.read(codec.render({FIRST, SECOND})) == Some(stale);
    ManifestReads(t, codec, stale);
    assert SetOf(stale) == {FIRST, SECOND};
  }

  lemma HalfCheckoutValid(image: Bytes, codec: Codec)
    ensures HalfCheckout(image, codec).Valid()
  {
    hide MANIFEST;
    ManifestIsLong();
    assert [MANIFEST] != ["img"];
    assert Parent(["img"]) == [] && Parent([MANIFEST]) == [] && Parent(["img", "a.png"]) == ["img"];
  }

  lemma ImagePlaceFine(image: Bytes, codec: Codec, name: string, file: string)
    requires Split(name) == ["img", file]
    ensures AssetPlaceFine(HalfCheckout(image, codec), name)
  {
    hide Split, MANIFEST;
    ManifestIsLong();
    assert [MANIFEST] != ["img"];
    assert |["img", file]| == 2 && |["img"]| == 1;
    assert forall q :: q in Above(["img", file]) ==> q == ["img"];
  }

  lemma ImagesDoNotCollide(codec: Codec)
    requires FoldsCase(codec)
    ensures NoCollision({"Home.md"}, {FIRST, SECOND}, codec)
  {
    hide MANIFEST, Split, Safe;
    FoldingKeeps(codec);
    ImagesAreSafe(codec);
    ManifestIsLong();
    assert |FIRST| == 9 && |SECOND| == 9 && |"home.md"| == 7 && FIRST[4] != SECOND[4];
  }

  lemma ImageClears(image: Bytes, codec: Codec)
    ensures Cleared(HalfCheckout(image, codec), {["img", "a.png"]}, ["img"])
  {
    hide MANIFEST;
    assert Over(["img"], ["img", "a.png"]);
  }
  lemma HalfCheckoutAccepted(home: Bytes, image: Bytes, codec: Codec)
    requires FoldsCase(codec) && codec.RoundTrips()
    ensures Accepted(HalfCheckout(image, codec), Source(map["Home.md" := home], map[]), codec)
  {
    hide Split, Safe, PreviousAssets, NoCollision, AssetPlaceFine, FoldsCase, MANIFEST, Codec.RoundTrips;
    var t, s := HalfCheckout(image, codec), Source(map["Home.md" := home], map[]);
    HalfCheckoutRecords(image, codec);
    ImagesAreSafe(codec);
    ImagePlaceFine(image, codec, FIRST, "a.png");
    ImagePlaceFine(image, codec, SECOND, "b.png");
    ImagesDoNotCollide(codec);
    assert s.pages.Keys == {"Home.md"} && s.assets.Keys + {FIRST, SECOND} == {FIRST, SECOND};
    assert PagePath("Home.md") !in t.dirs;
  }

  lemma HalfCheckoutIsNotRemovable(home: Bytes, image: Bytes, codec: Codec)
    requires FoldsCase(codec)
    ensures !Removable(HalfCheckout(image, codec), Source(map["Home.md" := home], map[]), {FIRST, SECOND})
  {
    hide Split, SortedStrings, Safe, FoldsCase, MANIFEST, Cleared;
    var t, s, stale := HalfCheckout(image, codec), Source(map["Home.md" := home], map[]), [FIRST, SECOND];
    ImagesAreSafe(codec);
    ImagesSorted();
    ImageClears(image, codec);
    assert {FIRST, SECOND} - s.assets.Keys == {FIRST, SECOND};
    assert stale[..1] == [FIRST];
    assert SetOf([FIRST]) == {FIRST};
    assert AssetPaths({FIRST}) == {["img", "a.png"]};
    assert !DirectoryLasts(t, stale, 1);
  }

  lemma NoAssetsNoConflict(s: Source)
    requires s.assets == map[] && forall p :: p in s.pages ==> IsPageName(p)
    ensures FromTree(s) && NoConflict(s)
  {
    hide IsPageName, AssetPaths, PagePaths, Split;
  }

  /** Two recorded assets are no longer referenced, and one of them is no longer there. Its directory is, until the run
    * has removed the other one: then the run stops.
    */
  lemma EmptiedDirectoryStops(home: Bytes, image: Bytes, codec: Codec)
    requires FoldsCase(codec) && codec.RoundTrips()
    ensures
      var t, s := HalfCheckout(image, codec), Source(map["Home.md" := home], map[]);
      && t.Valid() && FromTree(s) && Accepted(t, s, codec) && NoConflict(s)
      && Parent(Split(SECOND)) in t.dirs && !Removable(t, s, Previous(t, codec))
  {
    hide Split, Safe, PreviousAssets, SortedStrings, DestinationFine, FoldsCase, MANIFEST, Removable, Codec.RoundTrips,
      IsPageName, FromTree, NoConflict, Accepted, HalfCheckout, Tree.Valid;
    PageNames();
    NoAssetsNoConflict(Source(map["Home.md" := home], map[]));
    HalfCheckoutValid(image, codec);
    HalfCheckoutRecords(image, codec);
    HalfCheckoutAccepted(home, image, codec);
    HalfCheckoutIsNotRemovable(home, image, codec);
    DirectoryIsThere(image, codec);
  }

  lemma DirectoryIsThere(image: Bytes, codec: Codec)
    requires FoldsCase(codec)
    ensures Parent(Split(SECOND)) in HalfCheckout(image, codec).dirs
  {
    hide Split, Safe, FoldsCase;
    ImagesAreSafe(codec);
    assert Parent(["img", "b.png"]) == ["img"];
  }
}
