/** What `sync_wiki_docs` (scripts/sync_wiki_docs.py:73-220) accepts and makes of a checkout, said of the characters of
  * the names, the entries of the manifest and the contents of each file.
  */
module WikiSyncMeaning {
  import opened WikiPaths
  import opened WikiSync
  import opened WikiSyncLaws
  import opened Wrappers

  // ----- places -----

  /** The parts of the path, with a slash between every two, are the name. */
  ghost predicate IsPlace(path: Path, name: string) {
    path != [] && (forall i :: 0 <= i < |path| ==> '/' !in path[i]) && Join(path) == name
  }

  lemma {:induction false} PartsHoldNoSlash(name: string)
    ensures forall i :: 0 <= i < |Split(name)| ==> '/' !in Split(name)[i]
  {
    if name != "" {
      PartsHoldNoSlash(name[1..]);
    }
  }

  lemma {:induction false} SplitAtSlash(first: string, rest: string)
    requires '/' !in first
    ensures Split(first + "/" + rest) == [first] + Split(rest)
  {
    var all := first + "/" + rest;
    if first == "" {
      assert all[1..] == rest;
    } else {
      assert all[1..] == first[1..] + "/" + rest;
      SplitAtSlash(first[1..], rest);
      assert [first[0]] + first[1..] == first;
    }
  }

  lemma {:induction false} SplitJoined(path: Path)
    requires path != [] && forall i :: 0 <= i < |path| ==> '/' !in path[i]
    ensures Split(Join(path)) == path
  {
    if |path| == 1 {
      SplitPlain(path[0]);
    } else {
      SplitAtSlash(path[0], Join(path[1..]));
      SplitJoined(path[1..]);
    }
  }

  lemma PlaceIff(path: Path, name: string)
    ensures IsPlace(path, name) <==> path == Split(name)
  {
    JoinSplit(name);
    PartsHoldNoSlash(name);
    if IsPlace(path, name) {
      SplitJoined(path);
    }
  }

  // ----- names -----

  /** A file at the top level whose name ends in `.md`. */
  ghost predicate IsPage(path: Path) {
    exists stem :: path == [stem + ".md"] && '/' !in stem
  }

  lemma PageIff(path: Path)
    ensures IsPage(path) <==> IsPagePath(path)
  {
    if IsPagePath(path) {
      var stem := path[0][..|path[0]| - 3];
      assert path[0] == stem + ".md";
      assert path == [stem + ".md"];
    }
  }

  /** The file name ends in this extension: a dot that is not its first character, and at least one other than a dot. */
  ghost predicate EndsIn(file: string, extension: string) {
    exists stem :: stem != "" && extension != "" && '.' !in extension && file == stem + "." + extension
  }

  /** The suffix is that extension with its dot, or empty when there is none. */
  ghost predicate HasSuffix(file: string, suffix: string) {
    if suffix == "" then forall extension :: !EndsIn(file, extension) else suffix[0] == '.' && EndsIn(file, suffix[1..])
  }

  lemma {:induction false} SuffixFromIs(name: string, end: nat)
    requires end <= |name| && '.' !in name[end..]
    ensures
      var r := SuffixFrom(name, end);
      if r == "" then forall i :: 0 < i < |name| - 1 && name[i] == '.' ==> '.' in name[i + 1..]
      else 1 < |r| < |name| && r[0] == '.' && name == name[..|name| - |r|] + r && '.' !in r[1..]
    decreases end
  {
    if end > 1 && name[end - 1] != '.' {
      SuffixFromIs(name, end - 1);
    } else if end > 1 && end == |name| {
      forall i | 0 < i < |name| - 1 && name[i] == '.' ensures '.' in name[i + 1..] {
        assert name[i + 1..][end - 1 - (i + 1)] == '.';
      }
    } else if end > 1 {
      assert name[end - 1..][1..] == name[end..];
    } else {
      assert forall i :: 0 < i < |name| - 1 ==> name[i] == name[end..][i - end];
    }
  }

  lemma OneLastDot(file: string, i: nat, j: nat)
    requires i < |file| && j < |file| && file[i] == '.' && file[j] == '.' && '.' !in file[i + 1..]
      && '.' !in file[j + 1..]
    ensures i == j
  {
    assert forall k :: i < k < |file| ==> file[k] == file[i + 1..][k - i - 1];
    assert forall k :: j < k < |file| ==> file[k] == file[j + 1..][k - j - 1];
  }

  lemma SuffixIff(file: string, extension: string)
    ensures EndsIn(file, extension) <==> extension != "" && Suffix(file) == "." + extension
  {
    hide SuffixFrom;
    var r, n := Suffix(file), |file|;
    SuffixFromIs(file, n);
    if stem :| stem != "" && extension != "" && '.' !in extension && file == stem + "." + extension {
      var i := |stem|;
      assert file[i] == '.' && file[i + 1..] == extension;
      assert r != "";
      var j := n - |r|;
      assert file[j] == '.' && file[j + 1..] == r[1..];
      OneLastDot(file, i, j);
    }
    if extension != "" && r == "." + extension {
      assert r[1..] == extension;
      assert file == file[..n - |r|] + "." + extension;
    }
  }

  /** A name that may be written below the checkout: no empty or special part, nothing of the repository itself, no
    * backslash, neither the manifest nor a Markdown file.
    */
  ghost predicate MayBeAsset(name: string, codec: Codec) {
    && (forall path, i :: IsPlace(path, name) && 0 <= i < |path| ==>
          path[i] != "" && path[i] != "." && path[i] != ".." && codec.fold(path[i]) != ".git")
    && (forall path :: IsPlace(path, name) ==> forall suffix :: HasSuffix(path[|path| - 1], suffix) ==>
      codec.fold(suffix) != ".md")
    && '\\' !in name && name != ".ancestryllm-managed-assets.json"
  }

  lemma HasSuffixIff(file: string, suffix: string)
    ensures HasSuffix(file, suffix) <==> suffix == Suffix(file)
  {
    hide Suffix, EndsIn;
    SuffixShape(file);
    forall extension ensures EndsIn(file, extension) <==> extension != "" && Suffix(file) == "." + extension {
      SuffixIff(file, extension);
    }
    if suffix != "" && suffix[0] == '.' {
      assert suffix == "." + suffix[1..];
    }
    if Suffix(file) != "" {
      assert Suffix(file) == "." + Suffix(file)[1..];
      assert EndsIn(file, Suffix(file)[1..]);
    }
  }

  lemma SuffixShape(file: string)
    ensures Suffix(file) == "" || (|Suffix(file)| > 1 && Suffix(file)[0] == '.')
  {
    SuffixFromIs(file, |file|);
  }

  lemma MayBeAssetIff(name: string, codec: Codec)
    ensures MayBeAsset(name, codec) <==> Safe(name, codec)
  {
    hide Suffix, Split, HasSuffix, IsPlace;
    forall path ensures IsPlace(path, name) <==> path == Split(name) {
      PlaceIff(path, name);
    }
    var parts := Split(name);
    var file := parts[|parts| - 1];
    forall suffix ensures HasSuffix(file, suffix) <==> suffix == Suffix(file) {
      HasSuffixIff(file, suffix);
    }
    assert IsPlace(parts, name);
  }

  // ----- what is checked -----

  /** The manifest names the asset. */
  ghost predicate Records(t: Tree, codec: Codec, a: string) {
    var manifest := [".ancestryllm-managed-assets.json"];
    manifest in t.files && codec.read(t.files[manifest]).Some? && a in codec.read(t.files[manifest]).value
  }

  /** There is no manifest, or a file that names assets, each once. */
  ghost predicate ManifestFine(t: Tree, codec: Codec) {
    var manifest := [".ancestryllm-managed-assets.json"];
    && manifest !in t.dirs
    && (manifest in t.files ==>
          && codec.read(t.files[manifest]).Some?
          && (forall a :: Records(t, codec, a) ==> MayBeAsset(a, codec))
          && forall i, j :: 0 <= i < j < |codec.read(t.files[manifest]).value| ==>
            codec.read(t.files[manifest]).value[i] != codec.read(t.files[manifest]).value[j])
  }

  ghost predicate IsAsset(t: Tree, s: Source, codec: Codec, a: string) {
    a in s.assets || Records(t, codec, a)
  }

  /** There is room for the asset: no directory in its place, no file above it, and no file that is not recorded. */
  ghost predicate HasRoom(t: Tree, s: Source, codec: Codec, a: string) {
    forall path :: IsPlace(path, a) ==>
      && path !in t.dirs && (forall k :: 0 < k < |path| ==> path[..k] !in t.files)
      && (path in t.files ==> Records(t, codec, a))
  }

  /** What has to hold for a run to change anything. */
  ghost predicate Demands(t: Tree, s: Source, codec: Codec) {
    && ManifestFine(t, codec)
    && (forall p :: p in s.pages ==> [p] !in t.dirs)
    && (forall a :: IsAsset(t, s, codec, a) ==> MayBeAsset(a, codec) && HasRoom(t, s, codec, a))
    && (forall a, b ::
          IsAsset(t, s, codec, a) && codec.fold(a) == codec.fold(b)
            && (IsAsset(t, s, codec, b) || b in s.pages || b == ".ancestryllm-managed-assets.json") ==>
            a == b)
  }

  lemma PreviousIff(t: Tree, codec: Codec)
    ensures PreviousAssets(t, codec).Some? <==> ManifestFine(t, codec)
    ensures PreviousAssets(t, codec).Some? ==> forall a :: a in Previous(t, codec) <==> Records(t, codec, a)
  {
    hide MayBeAsset, Safe;
    if [MANIFEST] in t.files && codec.read(t.files[[MANIFEST]]).Some? {
      var values := codec.read(t.files[[MANIFEST]]).value;
      forall i | 0 <= i < |values| ensures values[i] in values {
      }
      forall a | a in values ensures MayBeAsset(a, codec) <==> Safe(a, codec) {
        MayBeAssetIff(a, codec);
      }
      AllIff(values, codec);
    }
  }

  lemma AllIff(values: seq<string>, codec: Codec)
    ensures (forall i :: 0 <= i < |values| ==> Safe(values[i], codec)) <==> forall a :: a in values ==> Safe(a, codec)
  {
    hide Safe;
    assert forall i :: 0 <= i < |values| ==> values[i] in values;
  }

  lemma HasRoomIff(t: Tree, s: Source, codec: Codec, a: string)
    requires PreviousAssets(t, codec).Some? && IsAsset(t, s, codec, a)
    requires forall x :: x in Previous(t, codec) <==> Records(t, codec, x)
    ensures HasRoom(t, s, codec, a) <==>
      AssetPlaceFine(t, a) && (a in s.assets && a !in Previous(t, codec) ==> Split(a) !in t.files)
  {
    hide Split, IsPlace, PreviousAssets, Records;
    forall path ensures IsPlace(path, a) <==> path == Split(a) {
      PlaceIff(path, a);
    }
    var path := Split(a);
    assert forall k :: 0 < k < |path| ==> path[..k] in Above(path);
  }

  lemma CollisionIff(pages: set<string>, names: set<string>, codec: Codec)
    ensures NoCollision(pages, names, codec) <==>
      forall a, b :: a in names && codec.fold(a) == codec.fold(b) && (b in names || b in pages || b == MANIFEST) ==>
        a == b
  {
  }

  /** A run goes ahead exactly when its demands are met. */
  lemma AcceptedIff(t: Tree, s: Source, codec: Codec)
    ensures Accepted(t, s, codec) <==> Demands(t, s, codec)
  {
    hide ManifestFine, PreviousAssets, MayBeAsset, Safe, HasRoom, AssetPlaceFine, Split, NoCollision, Records;
    PreviousIff(t, codec);
    if ManifestFine(t, codec) {
      var names := s.assets.Keys + Previous(t, codec);
      assert forall a :: a in names <==> IsAsset(t, s, codec, a);
      CollisionIff(s.pages.Keys, names, codec);
      forall a | a in names
        ensures MayBeAsset(a, codec) <==> Safe(a, codec)
        ensures HasRoom(t, s, codec, a) <==>
          AssetPlaceFine(t, a) && (a in s.assets && a !in Previous(t, codec) ==> Split(a) !in t.files)
      {
        MayBeAssetIff(a, codec);
        HasRoomIff(t, s, codec, a);
      }
    }
  }

  // ----- what a run makes of the files -----

  /** What a path holds, or that it holds nothing. */
  function At(files: map<Path, Bytes>, path: Path): Option<Bytes> {
    if path in files then Some(files[path]) else None
  }

  /** An asset of the source, or one recorded before, lies there. */
  ghost predicate HoldsAsset(assets: map<string, Bytes>, path: Path) {
    exists a :: a in assets && IsPlace(path, a)
  }

  ghost predicate HoldsRecorded(t: Tree, codec: Codec, path: Path) {
    exists a :: Records(t, codec, a) && IsPlace(path, a)
  }

  /** What the path holds after a run: an asset, a page, nothing where another page or a recorded asset was, or what it
    * was.
    */
  ghost predicate Becomes(t: Tree, s: Source, codec: Codec, after: map<Path, Bytes>, path: Path) {
    && (forall a :: a in s.assets && IsPlace(path, a) ==> At(after, path) == Some(s.assets[a]))
    && (!HoldsAsset(s.assets, path) ==>
          At(after, path) ==
            if |path| == 1 && path[0] in s.pages then Some(s.pages[path[0]])
            else if IsPage(path) || HoldsRecorded(t, codec, path) then None
            else At(t.files, path))
  }

  /** The files after a run: the manifest is there exactly when there are assets. */
  ghost predicate Mirrors(t: Tree, s: Source, codec: Codec, after: map<Path, Bytes>) {
    var manifest := [".ancestryllm-managed-assets.json"];
    && At(after, manifest) == (if s.assets == map[] then None else Some(codec.render(s.assets.Keys)))
    && !HoldsAsset(s.assets, manifest) && forall path :: path != manifest ==> Becomes(t, s, codec, after, path)
  }

  lemma AssetPlaceIff(assets: map<string, Bytes>, path: Path)
    ensures HoldsAsset(assets, path) <==> path in AssetFiles(assets, assets.Keys)
    ensures forall a :: a in assets && IsPlace(path, a) ==>
      path in AssetFiles(assets, assets.Keys) && AssetFiles(assets, assets.Keys)[path] == assets[a]
  {
    hide Split, IsPlace;
    SplitIsInjective();
    forall a ensures IsPlace(path, a) <==> path == Split(a) {
      PlaceIff(path, a);
    }
  }

  lemma PagePlaceIff(pages: map<string, Bytes>, path: Path)
    ensures path in PageFiles(pages, pages.Keys) <==> |path| == 1 && path[0] in pages
    ensures path in PageFiles(pages, pages.Keys) ==> PageFiles(pages, pages.Keys)[path] == pages[path[0]]
  {
    if |path| == 1 {
      assert path == PagePath(path[0]);
    }
  }

  lemma GoneIff(t: Tree, s: Source, codec: Codec, path: Path)
    requires PreviousAssets(t, codec).Some? && path in t.files
    requires !HoldsAsset(s.assets, path) && !(|path| == 1 && path[0] in s.pages)
    ensures path in PagePaths(StalePages(t.files, s.pages)) || path in AssetPaths(Previous(t, codec) - s.assets.Keys)
      <==> IsPage(path) || HoldsRecorded(t, codec, path)
  {
    hide Split, IsPlace, PreviousAssets, Records, IsPage, IsPageName;
    PageIff(path);
    PreviousIff(t, codec);
    forall a ensures IsPlace(path, a) <==> path == Split(a) {
      PlaceIff(path, a);
    }
    if IsPagePath(path) {
      assert path == PagePath(path[0]) && path[0] in StalePages(t.files, s.pages);
    }
  }

  lemma MirrorsAt(t: Tree, s: Source, codec: Codec, path: Path)
    requires Accepted(t, s, codec) && path != [MANIFEST]
    ensures Becomes(t, s, codec, Mirrored(t.files, s, Previous(t, codec), codec), path)
  {
    hide DestinationFine, PreviousAssets, Mirrored, AssetFiles, PageFiles, PagePaths, AssetPaths, StalePages, IsPage,
      IsPlace,
      HoldsRecorded, HoldsAsset;
    MirroredAt(t.files, s, Previous(t, codec), codec, path);
    AssetPlaceIff(s.assets, path);
    PagePlaceIff(s.pages, path);
    if path in t.files && !HoldsAsset(s.assets, path) && !(|path| == 1 && path[0] in s.pages) {
      GoneIff(t, s, codec, path);
    }
  }

  /** What a successful run has made of every path. */
  lemma MirrorMeans(t: Tree, s: Source, codec: Codec)
    requires Accepted(t, s, codec)
    ensures Mirrors(t, s, codec, Mirrored(t.files, s, Previous(t, codec), codec))
  {
    hide DestinationFine, PreviousAssets, Mirrored, Becomes, IsPlace, Split;
    forall path | path != [MANIFEST] ensures Becomes(t, s, codec, Mirrored(t.files, s, Previous(t, codec), codec),
      path) {
      MirrorsAt(t, s, codec, path);
    }
    MirroredAt(t.files, s, Previous(t, codec), codec, [MANIFEST]);
    forall a | a in s.assets ensures !IsPlace([MANIFEST], a) {
      AssetsAreSafe(t, s, codec, a);
      SafeAssetIsNotManifest(a, codec);
      PlaceIff([MANIFEST], a);
    }
  }

  /** A file that is no page at the top level, not the manifest and not recorded in it keeps its contents in every run,
    * even at the place of an asset.
    */
  lemma OthersKept(before: Tree, after: Tree, codec: Codec, path: Path)
    requires UnrecordedKept(before, after, codec) && path in before.files
    requires !IsPage(path) && path != [".ancestryllm-managed-assets.json"] && !HoldsRecorded(before, codec, path)
    ensures At(after.files, path) == At(before.files, path)
  {
    hide Split, IsPlace, PreviousAssets, Records, IsPage, IsPageName;
    PageIff(path);
    PreviousIff(before, codec);
    forall a ensures IsPlace(path, a) <==> path == Split(a) {
      PlaceIff(path, a);
    }
  }
}
