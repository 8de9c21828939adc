/** What a successful run of `sync_wiki_docs` (scripts/sync_wiki_docs.py:157-220) has achieved, and what the next one
  * does.
  */
module WikiSyncLaws {
  import opened Sorting
  import opened WikiPaths
  import opened WikiSync
  import opened Wrappers

  // ----- the mirror, path by path -----

  lemma {:induction false} SplitPlain(name: string)
    requires '/' !in name
    ensures Split(name) == [name]
  {
    if name != "" {
      assert '/' !in name[1..];
      SplitPlain(name[1..]);
      assert [name[0]] + name[1..] == name;
    }
  }

  lemma ManifestIsPlain()
    ensures Split(MANIFEST) == [MANIFEST] && !IsPageName(MANIFEST)
  {
    hide Split;
    SplitPlain(MANIFEST);
    assert MANIFEST[|MANIFEST| - 3..][2] == 'n' && ".md"[2] == 'd';
  }

  /** What a path holds after a run. */
  function Expected(files: map<Path, Bytes>, s: Source, previous: set<string>, codec: Codec,
                    path: Path): Option<Bytes> {
    if path == [MANIFEST] then (if s.assets == map[] then None else Some(codec.render(s.assets.Keys)))
    else if path in AssetFiles(s.assets, s.assets.Keys) then Some(AssetFiles(s.assets, s.assets.Keys)[path])
    else if path in PageFiles(s.pages, s.pages.Keys) then Some(PageFiles(s.pages, s.pages.Keys)[path])
    else if path in PagePaths(StalePages(files, s.pages)) || path in AssetPaths(previous - s.assets.Keys) then None
    else if path in files then Some(files[path])
    else None
  }

  lemma MirroredAt(files: map<Path, Bytes>, s: Source, previous: set<string>, codec: Codec, path: Path)
    ensures
      var m := Mirrored(files, s, previous, codec);
      (if path in m then Some(m[path]) else None) == Expected(files, s, previous, codec, path)
  {
    hide Split, AssetFiles, PageFiles, PagePaths, AssetPaths, StalePages;
  }

  lemma AssetPlaces(assets: map<string, Bytes>, a: string)
    requires a in assets
    ensures Split(a) in AssetFiles(assets, assets.Keys) && AssetFiles(assets, assets.Keys)[Split(a)] == assets[a]
  {
    SplitIsInjective();
    hide Split;
  }

  lemma PagePlaces(pages: map<string, Bytes>, p: string)
    requires p in pages
    ensures PagePath(p) in PageFiles(pages, pages.Keys) && PageFiles(pages, pages.Keys)[PagePath(p)] == pages[p]
  {
  }

  lemma SafeAssetIsNotManifest(a: string, codec: Codec)
    requires Safe(a, codec)
    ensures Split(a) != [MANIFEST]
  {
    ManifestIsPlain();
    if Split(a) == [MANIFEST] {
      SplitInjective(a, MANIFEST);
    }
  }

  lemma AssetsAreSafe(t: Tree, s: Source, codec: Codec, a: string)
    requires Accepted(t, s, codec) && a in s.assets
    ensures Safe(a, codec)
  {
    hide PreviousAssets, Split, NoCollision;
    assert a in s.assets.Keys + Previous(t, codec);
  }

  /** An asset with the name of a page, which only `.md` itself can have, is a page with the same content. */
  ghost predicate Quiet(s: Source) {
    forall a :: a in s.assets && IsPageName(a) ==> a in s.pages && s.pages[a] == s.assets[a]
  }

  lemma PageNamedPlace(s: Source, n: string)
    requires IsPageName(n)
    ensures PagePath(n) in AssetFiles(s.assets, s.assets.Keys) <==> n in s.assets
    ensures n in s.assets ==> Split(n) == PagePath(n)
  {
    SplitPlain(n);
    hide IsPageName, Split;
    if PagePath(n) in AssetFiles(s.assets, s.assets.Keys) {
      var a :| a in s.assets && Split(a) == PagePath(n);
      SplitInjective(a, n);
    }
    if n in s.assets {
      AssetPlaces(s.assets, n);
    }
  }

  /** The top-level Markdown file of this name is the page, and there is none where there is no page. */
  predicate PageMirrored(files: map<Path, Bytes>, pages: map<string, Bytes>, n: string) {
    (if PagePath(n) in files then Some(files[PagePath(n)]) else None) == (if n in pages then Some(pages[n]) else None)
  }

  lemma PageMirroredAt(t: Tree, s: Source, codec: Codec, n: string)
    requires Accepted(t, s, codec) && IsPageName(n)
    ensures PageMirrored(Mirrored(t.files, s, Previous(t, codec), codec), s.pages, n)
      <==> (n in s.assets ==> n in s.pages && s.pages[n] == s.assets[n])
  {
    var previous := Previous(t, codec);
    hide AssetFiles, Mirrored, PreviousAssets, Accepted;
    MirroredAt(t.files, s, previous, codec, PagePath(n));
    ManifestIsPlain();
    assert PagePath(n)[0] == n;
    PageNamedPlace(s, n);
    if n in s.assets {
      AssetPlaces(s.assets, n);
    } else if n in s.pages {
      PagePlaces(s.pages, n);
    } else {
      assert forall p :: p in s.pages ==> PagePath(p)[0] == p;
      assert PagePath(n) !in PageFiles(s.pages, s.pages.Keys);
      if PagePath(n) in t.files {
        assert n in StalePages(t.files, s.pages);
        assert PagePath(n) in PagePaths(StalePages(t.files, s.pages));
      }
    }
  }

  /** The top-level Markdown files are exactly the pages, with their contents, if and only if the source is quiet. */
  lemma PagesMirrored(t: Tree, s: Source, codec: Codec)
    requires Accepted(t, s, codec)
    ensures Quiet(s) <==>
      forall n :: IsPageName(n) ==> PageMirrored(Mirrored(t.files, s, Previous(t, codec), codec), s.pages, n)
  {
    var after := Mirrored(t.files, s, Previous(t, codec), codec);
    hide Accepted, PreviousAssets, Mirrored, PageMirrored, IsPageName;
    forall n | IsPageName(n)
      ensures PageMirrored(after, s.pages, n)
        <==> (n in s.assets ==> n in s.pages && s.pages[n] == s.assets[n])
    {
      PageMirroredAt(t, s, codec, n);
    }
  }

  /** Every asset is there with its contents. */
  lemma AssetsMirrored(t: Tree, s: Source, codec: Codec, a: string)
    requires Accepted(t, s, codec) && a in s.assets
    ensures
      var m := Mirrored(t.files, s, Previous(t, codec), codec);
      Split(a) in m && m[Split(a)] == s.assets[a]
  {
    hide PreviousAssets, DestinationFine, Split, AssetFiles, PageFiles, Mirrored;
    MirroredAt(t.files, s, Previous(t, codec), codec, Split(a));
    AssetsAreSafe(t, s, codec, a);
    SafeAssetIsNotManifest(a, codec);
    AssetPlaces(s.assets, a);
  }

  /** Every asset of the last run that is no longer referenced is gone, unless a page has taken its place. */
  lemma StaleAssetsGone(t: Tree, s: Source, codec: Codec, a: string)
    requires Accepted(t, s, codec) && a in Previous(t, codec) && a !in s.assets
      && Split(a) !in PageFiles(s.pages, s.pages.Keys)
    ensures Split(a) !in Mirrored(t.files, s, Previous(t, codec), codec)
  {
    hide PreviousAssets, Split, PageFiles, NoCollision, Mirrored;
    var previous := Previous(t, codec);
    MirroredAt(t.files, s, previous, codec, Split(a));
    assert a in s.assets.Keys + previous;
    SafeAssetIsNotManifest(a, codec);
    SplitIsInjective();
    assert Split(a) !in AssetFiles(s.assets, s.assets.Keys);
    assert Split(a) in AssetPaths(previous - s.assets.Keys);
  }

  lemma ManifestReads(t: Tree, codec: Codec, values: seq<string>)
    requires [MANIFEST] !in t.dirs && [MANIFEST] in t.files && codec.read(t.files[[MANIFEST]]) == Some(values)
    requires !Repeats(values) && forall i :: 0 <= i < |values| ==> Safe(values[i], codec)
    ensures PreviousAssets(t, codec) == Some(SetOf(values))
  {
    hide Safe, Repeats;
  }

  /** The manifest of the result lists exactly the assets. */
  lemma ManifestMirrored(t: Tree, s: Source, codec: Codec, after: Tree)
    requires Accepted(t, s, codec) && codec.RoundTrips() && [MANIFEST] !in after.dirs
    requires after.files == Mirrored(t.files, s, Previous(t, codec), codec)
    ensures PreviousAssets(after, codec) == Some(s.assets.Keys)
    ensures [MANIFEST] in after.files <==> s.assets != map[]
  {
    hide Safe, DestinationFine, WithAssets, Repeats, SetOf, Ascending, Accepted;
    if s.assets != map[] {
      var values := SortedStrings(s.assets.Keys);
      assert codec.read(codec.render(s.assets.Keys)) == Some(values);
      SortedDistinct(values);
      SortedMembers(values, s.assets.Keys);
      forall i | 0 <= i < |values| ensures Safe(values[i], codec) {
        assert values[i] in values;
        AssetsAreSafe(t, s, codec, values[i]);
      }
      ManifestReads(after, codec, values);
    } else {
      assert s.assets.Keys == {};
    }
  }

  // ----- the next run -----

  /** What a run that succeeded has left behind. */
  ghost predicate Left(t: Tree, s: Source, codec: Codec, after: Tree) {
    && Accepted(t, s, codec) && (forall p :: p in s.pages ==> IsPageName(p))
    && after.Valid() && [MANIFEST] !in after.dirs && after.files == Mirrored(t.files, s, Previous(t, codec), codec)
  }

  lemma PageIsNotManifest(p: string)
    requires IsPageName(p)
    ensures PagePath(p) != [MANIFEST]
  {
    ManifestIsPlain();
    assert PagePath(p)[0] == p;
  }

  /** Some file lies at the place of every page. */
  lemma PagePlaceTaken(t: Tree, s: Source, codec: Codec, after: Tree, p: string)
    requires Left(t, s, codec, after) && p in s.pages
    ensures PagePath(p) in after.files
    ensures PagePath(p) !in AssetFiles(s.assets, s.assets.Keys) ==> after.files[PagePath(p)] == s.pages[p]
  {
    MirroredAt(t.files, s, Previous(t, codec), codec, PagePath(p));
    PagePlaces(s.pages, p);
    PageIsNotManifest(p);
    hide Accepted, PreviousAssets, AssetFiles, PageFiles, Mirrored, Tree.Valid, IsPageName;
  }

  lemma AssetPlaceAgain(t: Tree, s: Source, codec: Codec, after: Tree, a: string)
    requires Left(t, s, codec, after) && a in s.assets
    ensures Safe(a, codec) && AssetPlaceFine(after, a) && Split(a) in after.files
      && after.files[Split(a)] == s.assets[a]
  {
    AssetsAreSafe(t, s, codec, a);
    AssetsMirrored(t, s, codec, a);
    DirectoriesExist(after, Split(a));
    hide Accepted, PreviousAssets, Mirrored, Safe, Above, Split;
  }

  lemma CollisionsAgain(t: Tree, s: Source, codec: Codec)
    requires Accepted(t, s, codec)
    ensures NoCollision(s.pages.Keys, s.assets.Keys + s.assets.Keys, codec)
  {
    hide PreviousAssets, Safe, AssetPlaceFine;
  }

  lemma LeftIsAccepted(t: Tree, s: Source, codec: Codec, after: Tree)
    requires Left(t, s, codec, after)
    ensures Accepted(t, s, codec)
  {
  }

  lemma DestinationAgain(t: Tree, s: Source, codec: Codec, after: Tree)
    requires Left(t, s, codec, after)
    ensures DestinationFine(after, s, s.assets.Keys, codec)
  {
    hide Mirrored, NoCollision, Safe, AssetPlaceFine, Split, Left, PagePath, Accepted, PreviousAssets;
    LeftIsAccepted(t, s, codec, after);
    CollisionsAgain(t, s, codec);
    forall p | p in s.pages ensures PagePath(p) !in after.dirs {
      PagePlaceFree(t, s, codec, after, p);
    }
    forall a | a in s.assets.Keys + s.assets.Keys ensures Safe(a, codec) && AssetPlaceFine(after, a) {
      AssetPlaceAgain(t, s, codec, after, a);
    }
  }

  lemma PagePlaceFree(t: Tree, s: Source, codec: Codec, after: Tree, p: string)
    requires Left(t, s, codec, after) && p in s.pages
    ensures PagePath(p) !in after.dirs
  {
    PagePlaceTaken(t, s, codec, after, p);
    NotBoth(after, PagePath(p));
  }

  /** The next run with the same source succeeds as well. */
  lemma SucceedsAgain(t: Tree, s: Source, codec: Codec, after: Tree)
    requires Left(t, s, codec, after) && codec.RoundTrips() && t.Valid() && Succeeds(t, s, codec)
    ensures PreviousAssets(after, codec) == Some(s.assets.Keys) && Succeeds(after, s, codec)
  {
    assert NoConflict(s) && Accepted(t, s, codec);
    assert after.Valid() && [MANIFEST] !in after.dirs && after.files == Mirrored(t.files, s, Previous(t, codec), codec);
    hide Mirrored, PreviousAssets, NoConflict, IsPageName, Tree.Valid, Left, DestinationFine, Removable,
      Codec.RoundTrips;
    ManifestMirrored(t, s, codec, after);
    DestinationAgain(t, s, codec, after);
    NothingStale(after, s);
  }

  lemma NotBoth(t: Tree, path: Path)
    requires t.Valid() && path in t.files
    ensures path !in t.dirs
  {
  }

  lemma NothingStale(t: Tree, s: Source)
    ensures Removable(t, s, s.assets.Keys)
    ensures SortedStrings(s.assets.Keys - s.assets.Keys) == []
  {
    assert s.assets.Keys - s.assets.Keys == {};
    hide Tree.Valid, Ascending;
  }

  lemma NextRunAt(t: Tree, s: Source, codec: Codec, after: Tree, path: Path)
    requires Left(t, s, codec, after)
    ensures SameAt(after.files, Mirrored(after.files, s, s.assets.Keys, codec), path)
  {
    hide PreviousAssets, Mirrored, Tree.Valid, AssetFiles, PageFiles, StalePages, PagePaths, AssetPaths, IsPageName,
      Split, DestinationFine;
    MirroredAt(t.files, s, Previous(t, codec), codec, path);
    MirroredAt(after.files, s, s.assets.Keys, codec, path);
    NoneStale(s.assets.Keys);
    if path in PagePaths(StalePages(after.files, s.pages)) {
      StaleStaysStale(t, s, codec, after, path);
    }
  }

  lemma NoneStale(assets: set<string>)
    ensures AssetPaths(assets - assets) == {}
  {
  }

  lemma FilesEqual(f: map<Path, Bytes>, g: map<Path, Bytes>)
    requires forall path :: SameAt(f, g, path)
    ensures f == g
  {
    assert forall path :: path in f || path in g ==> SameAt(f, g, path);
  }

  /** The next run leaves every file as it is. */
  lemma NextRunKeepsFiles(t: Tree, s: Source, codec: Codec, after: Tree)
    requires Left(t, s, codec, after)
    ensures Mirrored(after.files, s, s.assets.Keys, codec) == after.files
  {
    hide Left, Mirrored, SameAt;
    var again := Mirrored(after.files, s, s.assets.Keys, codec);
    forall path ensures SameAt(after.files, again, path) {
      NextRunAt(t, s, codec, after, path);
    }
    FilesEqual(after.files, again);
  }

  lemma StaleStaysStale(t: Tree, s: Source, codec: Codec, after: Tree, path: Path)
    requires Left(t, s, codec, after) && path in PagePaths(StalePages(after.files, s.pages))
    ensures path in after.files
    ensures path in AssetFiles(s.assets, s.assets.Keys)
  {
    var n :| n in StalePages(after.files, s.pages) && path == PagePath(n);
    MirroredAt(t.files, s, Previous(t, codec), codec, path);
    PageIsNotManifest(n);
    assert path[0] == n;
    assert forall p :: p in s.pages ==> PagePath(p)[0] == p;
    assert path !in PageFiles(s.pages, s.pages.Keys);
    if path in t.files {
      assert n in StalePages(t.files, s.pages);
      assert path in PagePaths(StalePages(t.files, s.pages));
    }
    hide Accepted, PreviousAssets, Mirrored, Tree.Valid, AssetFiles, PageFiles;
  }

  lemma StaleAgain(t: Tree, s: Source, codec: Codec, after: Tree, n: string)
    requires Left(t, s, codec, after)
    ensures n in StalePages(after.files, s.pages) <==> n in s.assets && IsPageName(n) && n !in s.pages
  {
    hide Left, Split, IsPageName, AssetFiles, PagePath;
    if n in StalePages(after.files, s.pages) {
      assert PagePath(n) in PagePaths(StalePages(after.files, s.pages));
      StaleStaysStale(t, s, codec, after, PagePath(n));
      PageNamedPlace(s, n);
    } else if n in s.assets && IsPageName(n) && n !in s.pages {
      PageNamedPlace(s, n);
      AssetPlaceAgain(t, s, codec, after, n);
    }
  }

  lemma OutdatedAgain(t: Tree, s: Source, codec: Codec, after: Tree, p: string)
    requires Left(t, s, codec, after) && p in s.pages
    ensures PagePath(p) in after.files
    ensures after.files[PagePath(p)] == s.pages[p] <==> !(p in s.assets && s.assets[p] != s.pages[p])
  {
    assert IsPageName(p);
    hide Left, Split, IsPageName, AssetFiles, PagePath;
    PagePlaceTaken(t, s, codec, after, p);
    PageNamedPlace(s, p);
    if p in s.assets {
      AssetPlaceAgain(t, s, codec, after, p);
    }
  }

  lemma ManifestAgain(t: Tree, s: Source, codec: Codec, after: Tree)
    requires Left(t, s, codec, after)
    ensures ManifestCopied(after.files, s.assets, codec) == {} && ManifestRemoved(after.files, s.assets) == {}
  {
    MirroredAt(t.files, s, Previous(t, codec), codec, [MANIFEST]);
    hide Mirrored, Accepted;
  }

  lemma NoStalePages(files: map<Path, Bytes>, s: Source)
    requires StalePages(files, s.pages) == {}
    ensures WithoutStalePages(files, s) == files
  {
    assert PagePaths({}) == {};
    hide StalePages;
  }

  lemma NoneToRemove(files: map<Path, Bytes>)
    ensures Present(SortedStrings({}), files) == {} && AssetPaths({}) == {}
  {
    assert SortedStrings({}) == [];
    hide Ascending, Split;
  }

  /** What a second run reports when nothing is stale for it. */
  lemma ReportsAgain(files: map<Path, Bytes>, s: Source)
    requires StalePages(files, s.pages) == {}
    ensures RemovedNames(files, s, s.assets.Keys) == ManifestRemoved(WithAssets(files, s, s.assets.Keys), s.assets)
    ensures WithoutStaleAssets(files, s, s.assets.Keys) == files
  {
    assert s.assets.Keys - s.assets.Keys == {};
    hide StalePages, WithAssets, Present, AssetPaths, WithoutStalePages, Ascending;
    NoStalePages(files, s);
    NoneToRemove(files);
  }

  lemma WrittenAgain(f: map<Path, Bytes>, g: map<Path, Bytes>)
    requires forall path :: path in g ==> path in f && f[path] == g[path]
    ensures f + g == f
  {
  }

  lemma PagesWrittenAgain(files: map<Path, Bytes>, pages: map<string, Bytes>)
    ensures OutdatedPages(files, pages, pages.Keys) == {} ==> files + PageFiles(pages, pages.Keys) == files
  {
    if OutdatedPages(files, pages, pages.Keys) == {} {
      forall n | n in pages ensures PagePath(n) in files && files[PagePath(n)] == pages[n] {
        assert n !in OutdatedPages(files, pages, pages.Keys);
      }
      WrittenAgain(files, PageFiles(pages, pages.Keys));
    }
  }

  lemma AssetsWrittenAgain(files: map<Path, Bytes>, assets: map<string, Bytes>)
    ensures OutdatedAssets(files, assets, assets.Keys) == {} ==> files + AssetFiles(assets, assets.Keys) == files
  {
    if OutdatedAssets(files, assets, assets.Keys) == {} {
      forall n | n in assets ensures Split(n) in files && files[Split(n)] == assets[n] {
        assert n !in OutdatedAssets(files, assets, assets.Keys);
      }
      hide Split;
      WrittenAgain(files, AssetFiles(assets, assets.Keys));
    }
  }

  lemma NothingPresent(names: seq<string>, files: map<Path, Bytes>)
    requires Present(names, files) == {}
    ensures files - AssetPaths(SetOf(names)) == files
  {
    forall path | path in AssetPaths(SetOf(names)) ensures path !in files {
      var n :| n in SetOf(names) && path == Split(n);
      assert n !in Present(names, files);
    }
    hide Split;
  }

  lemma EmptyReports(files: map<Path, Bytes>, s: Source, previous: set<string>, codec: Codec)
    requires Copied(files, s, previous, codec) == {} && RemovedNames(files, s, previous) == {}
    ensures StalePages(files, s.pages) == {}
    ensures Present(SortedStrings(previous - s.assets.Keys), WithoutStalePages(files, s)) == {}
    ensures OutdatedPages(WithoutStaleAssets(files, s, previous), s.pages, s.pages.Keys) == {}
    ensures OutdatedAssets(WithPages(files, s, previous), s.assets, s.assets.Keys) == {}
    ensures ManifestCopied(WithAssets(files, s, previous), s.assets, codec) == {}
      && ManifestRemoved(WithAssets(files, s, previous), s.assets) == {}
  {
    hide StalePages, Present, OutdatedPages, OutdatedAssets, ManifestCopied, ManifestRemoved, WithAssets, WithPages,
      WithoutStaleAssets, WithoutStalePages, Ascending;
  }

  lemma QuietManifest(files: map<Path, Bytes>, assets: map<string, Bytes>, codec: Codec)
    requires ManifestCopied(files, assets, codec) == {} && ManifestRemoved(files, assets) == {}
    ensures (if assets == map[] then files - {[MANIFEST]} else files[[MANIFEST] := codec.render(assets.Keys)]) == files
  {
  }

  /** A run that reports no change has changed no file. */
  lemma NoReportNoChange(files: map<Path, Bytes>, s: Source, previous: set<string>, codec: Codec)
    requires Copied(files, s, previous, codec) == {} && RemovedNames(files, s, previous) == {}
    ensures Mirrored(files, s, previous, codec) == files
  {
    var stale := SortedStrings(previous - s.assets.Keys);
    hide Split, AssetFiles, PageFiles, AssetPaths, StalePages, Present, OutdatedPages, OutdatedAssets, Ascending,
      PagePaths, Copied, RemovedNames, WithoutStalePages, ManifestCopied, ManifestRemoved;
    EmptyReports(files, s, previous, codec);
    NoStalePages(files, s);
    SortedMembers(stale, previous - s.assets.Keys);
    NothingPresent(stale, files);
    PagesWrittenAgain(files, s.pages);
    AssetsWrittenAgain(files, s.assets);
    QuietManifest(files, s.assets, codec);
  }

  lemma QuietReports(t: Tree, s: Source, codec: Codec, after: Tree)
    requires Left(t, s, codec, after) && Quiet(s)
    ensures Copied(after.files, s, s.assets.Keys, codec) == {} && RemovedNames(after.files, s, s.assets.Keys) == {}
  {
    var f := after.files;
    hide Left, Split, IsPageName, PageFiles, AssetFiles, StalePages, PagePath, RemovedNames, WithoutStaleAssets,
      ManifestCopied, ManifestRemoved;
    forall n ensures n !in StalePages(f, s.pages) {
      StaleAgain(t, s, codec, after, n);
    }
    assert StalePages(f, s.pages) == {};
    ReportsAgain(after.files, s);
    forall p | p in s.pages ensures PagePath(p) in f && f[PagePath(p)] == s.pages[p] {
      OutdatedAgain(t, s, codec, after, p);
      LeftPages(t, s, codec, after, p);
    }
    assert OutdatedPages(f, s.pages, s.pages.Keys) == {};
    PagesWrittenAgain(f, s.pages);
    forall a | a in s.assets ensures Split(a) in f && f[Split(a)] == s.assets[a] {
      AssetPlaceAgain(t, s, codec, after, a);
    }
    assert OutdatedAssets(f, s.assets, s.assets.Keys) == {};
    AssetsWrittenAgain(f, s.assets);
    ManifestAgain(t, s, codec, after);
  }

  lemma LeftPages(t: Tree, s: Source, codec: Codec, after: Tree, p: string)
    requires Left(t, s, codec, after) && p in s.pages
    ensures IsPageName(p)
  {
  }

  lemma NoisyReports(t: Tree, s: Source, codec: Codec, after: Tree)
    requires Left(t, s, codec, after) && !Quiet(s)
    ensures Copied(after.files, s, s.assets.Keys, codec) != {} || RemovedNames(after.files, s, s.assets.Keys) != {}
  {
    hide Left, Split, IsPageName, PageFiles, AssetFiles, StalePages, PagePath, ManifestCopied, ManifestRemoved,
      WithoutStaleAssets, WithAssets, WithPages;
    var a :| a in s.assets && IsPageName(a) && !(a in s.pages && s.pages[a] == s.assets[a]);
    StaleAgain(t, s, codec, after, a);
    if a in s.pages && StalePages(after.files, s.pages) == {} {
      ReportsAgain(after.files, s);
      OutdatedAgain(t, s, codec, after, a);
      assert a in OutdatedPages(after.files, s.pages, s.pages.Keys);
    } else {
      assert exists n :: n in StalePages(after.files, s.pages);
    }
  }

  /** The run after a successful one succeeds and changes no file. It reports no change exactly when no asset is a page
    * named `.md` with another content, or none at all.
    */
  lemma NextRun(t: Tree, s: Source, codec: Codec, after: Tree)
    requires Left(t, s, codec, after) && codec.RoundTrips() && t.Valid() && Succeeds(t, s, codec)
    ensures PreviousAssets(after, codec) == Some(s.assets.Keys) && Succeeds(after, s, codec)
    ensures Mirrored(after.files, s, s.assets.Keys, codec) == after.files
    ensures Copied(after.files, s, s.assets.Keys, codec) == {} && RemovedNames(after.files, s, s.assets.Keys) == {} <==>
      Quiet(s)
  {
    hide *;
    SucceedsAgain(t, s, codec, after);
    NextRunKeepsFiles(t, s, codec, after);
    if Quiet(s) {
      QuietReports(t, s, codec, after);
    } else {
      NoisyReports(t, s, codec, after);
    }
  }

  lemma SuffixOfPage(a: string)
    requires IsPageName(a) && |a| > 3
    ensures Suffix(a) == ".md"
  {
    var n := |a|;
    assert a[n - 3] == a[n - 3..][0] && a[n - 2] == a[n - 3..][1] && a[n - 1] == a[n - 3..][2];
    assert SuffixFrom(a, n) == SuffixFrom(a, n - 1) == SuffixFrom(a, n - 2) == a[n - 3..];
  }

  /** The only safe asset name that is the name of a page. */
  lemma OnlyDotMd(a: string, codec: Codec)
    requires Safe(a, codec) && IsPageName(a) && codec.fold(".md") == ".md"
    ensures a == ".md"
  {
    SplitPlain(a);
    hide Split, Suffix;
    if |a| > 3 {
      SuffixOfPage(a);
    }
  }

  // ----- what a source tree can come to -----

  /** `_source_content` reads both from one tree: nothing lies below a file, a directory with the name of a page cannot
    * be read, and a file at the top with the name of a page is one.
    */
  ghost predicate FromTree(s: Source) {
    && (forall p :: p in s.pages ==> IsPageName(p))
    && (forall a, q :: a in s.assets && q in Above(Split(a)) ==>
      q !in AssetPaths(s.assets.Keys) && !IsPageName(q[|q| - 1]))
    && (forall a :: a in s.assets && IsPageName(a) ==> a in s.pages)
  }

  /** Of such a source, the assets conflict with what is written only when one lies below the manifest. */
  lemma ConflictIffBelowManifest(s: Source)
    requires FromTree(s)
    ensures NoConflict(s) <==> forall a :: a in s.assets ==> [MANIFEST] !in Above(Split(a))
  {
    hide IsPageName, Split;
  }

  /** And it is quiet exactly when `.md`, if it is an asset, is a page with the same content. */
  lemma QuietIffDotMd(t: Tree, s: Source, codec: Codec)
    requires Accepted(t, s, codec) && codec.fold(".md") == ".md"
    ensures Quiet(s) <==> (".md" in s.assets ==> ".md" in s.pages && s.pages[".md"] == s.assets[".md"])
  {
    hide Accepted, Safe;
    assert IsPageName(".md");
    forall a | a in s.assets && IsPageName(a) ensures a == ".md" {
      AssetsAreSafe(t, s, codec, a);
      OnlyDotMd(a, codec);
    }
  }
}
