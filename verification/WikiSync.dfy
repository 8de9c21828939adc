/** `sync_wiki_docs` (scripts/sync_wiki_docs.py:55-220): a wiki checkout made to mirror pages and assets, with a
  * manifest that remembers which assets it manages.
  */
module WikiSync {
  import opened Sorting
  import opened WikiPaths
  import opened WikiRemoval
  import opened Wrappers

  const MANIFEST := ".ancestryllm-managed-assets.json"

  /** What the source tree comes to; None when its validation fails. */
  datatype Source = Source(pages: map<string, Bytes>, assets: map<string, Bytes>)

  /** JSON and case folding, which are not modelled: `read` is None for what is no manifest. */
  datatype Codec = Codec(read: Bytes -> Option<seq<string>>, render: set<string> -> Bytes, fold: string -> string) {
    /** What is rendered reads back. */
    ghost predicate RoundTrips() {
      forall s: set<string> {:trigger render(s)} :: read(render(s)) == Some(SortedStrings(s))
    }
  }

  // ----- names -----

  /** `PurePath.suffix` */
  function Suffix(name: string): string {
    SuffixFrom(name, |name|)
  }

  function SuffixFrom(name: string, end: nat): string
    requires end <= |name|
  {
    if end <= 1 then ""
    else if name[end - 1] == '.' then (if end == |name| then "" else name[end - 1..])
    else SuffixFrom(name, end - 1)
  }

  /** What `glob("*.md")` finds at the top level. */
  predicate IsPageName(name: string) {
    |name| >= 3 && name[|name| - 3..] == ".md" && '/' !in name
  }

  predicate IsPagePath(path: Path) {
    |path| == 1 && IsPageName(path[0])
  }

  /** `_safe_asset_name` */
  predicate Safe(name: string, codec: Codec) {
    && (forall i :: 0 <= i < |Split(name)| ==>
      Split(name)[i] !in {"", ".", ".."} && codec.fold(Split(name)[i]) != ".git")
    && '\\' !in name && name != MANIFEST
    && codec.fold(Suffix(Split(name)[|Split(name)| - 1])) != ".md"
  }

  // ----- what is checked before anything is changed -----

  /** `_previous_assets`: what the manifest lists, or None when it is refused. */
  function PreviousAssets(t: Tree, codec: Codec): Option<set<string>> {
    if [MANIFEST] in t.dirs then None
    else if [MANIFEST] !in t.files then Some({})
    else
      match codec.read(t.files[[MANIFEST]])
      case None => None
      case Some(values) =>
        if (forall i :: 0 <= i < |values| ==> Safe(values[i], codec)) && !Repeats(values) then Some(SetOf(values))
          else None
  }

  /** No two names that are managed differ only in case, pages and the manifest included. */
  predicate NoCollision(pages: set<string>, names: set<string>, codec: Codec) {
    && (forall a, b :: a in names && b in names && codec.fold(a) == codec.fold(b) ==> a == b)
    && (forall a, b :: a in names && b in pages + {MANIFEST} && codec.fold(a) == codec.fold(b) ==> a == b)
  }

  predicate AssetPlaceFine(t: Tree, name: string) {
    && (forall q :: q in Above(Split(name)) ==> q !in t.files)
    && Split(name) !in t.dirs
  }

  /** `_validate_destination` */
  predicate DestinationFine(t: Tree, s: Source, previous: set<string>, codec: Codec) {
    && (forall p :: p in s.pages ==> PagePath(p) !in t.dirs)
    && (forall a :: a in s.assets.Keys + previous ==> Safe(a, codec) && AssetPlaceFine(t, a))
    && NoCollision(s.pages.Keys, s.assets.Keys + previous, codec)
    && (forall a :: a in s.assets && a !in previous ==> Split(a) !in t.files)
  }

  // ----- what a run makes of the files -----

  function StalePages(files: map<Path, Bytes>, pages: map<string, Bytes>): (r: set<string>)
    ensures forall n :: n in r <==> PagePath(n) in files && IsPageName(n) && n !in pages
  {
    assert forall p :: p in files && IsPagePath(p) ==> p == PagePath(p[0]);
    set p | p in files && IsPagePath(p) && p[0] !in pages :: p[0]
  }

  function PageFiles(pages: map<string, Bytes>, names: set<string>): map<Path, Bytes>
    requires names <= pages.Keys
  {
    map n | n in names :: PagePath(n) := pages[n]
  }

  function AssetFiles(assets: map<string, Bytes>, names: set<string>): map<Path, Bytes>
    requires names <= assets.Keys
  {
    SplitIsInjective();
    map n | n in names :: Split(n) := assets[n]
  }

  function WithoutStalePages(files: map<Path, Bytes>, s: Source): map<Path, Bytes> {
    files - PagePaths(StalePages(files, s.pages))
  }

  function WithoutStaleAssets(files: map<Path, Bytes>, s: Source, previous: set<string>): map<Path, Bytes> {
    WithoutStalePages(files, s) - AssetPaths(previous - s.assets.Keys)
  }

  function WithPages(files: map<Path, Bytes>, s: Source, previous: set<string>): map<Path, Bytes> {
    WithoutStaleAssets(files, s, previous) + PageFiles(s.pages, s.pages.Keys)
  }

  function WithAssets(files: map<Path, Bytes>, s: Source, previous: set<string>): map<Path, Bytes> {
    WithPages(files, s, previous) + AssetFiles(s.assets, s.assets.Keys)
  }

  /** The files after a run: stale pages and assets gone, pages and assets written, the manifest up to date. */
  function Mirrored(files: map<Path, Bytes>, s: Source, previous: set<string>, codec: Codec): map<Path, Bytes> {
    var all := WithAssets(files, s, previous);
    if s.assets == map[] then all - {[MANIFEST]} else all[[MANIFEST] := codec.render(s.assets.Keys)]
  }

  /** No asset lies below a page or below another asset. */
  ghost predicate Apart(s: Source) {
    forall a, q :: a in s.assets && q in Above(Split(a)) ==>
      q !in PagePaths(s.pages.Keys) && q !in AssetPaths(s.assets.Keys)
  }

  /** No asset lies below a page, below another asset or below the manifest. */
  ghost predicate NoConflict(s: Source) {
    Apart(s) && forall a :: a in s.assets ==> [MANIFEST] !in Above(Split(a))
  }

  // ----- writing assets -----

  /** Whether `mkdir` or the write would fail. */
  predicate IsBlocked(t: Tree, name: string) {
    Split(name) in t.dirs || exists q :: q in Above(Split(name)) && q in t.files
  }

  /** `mkdir(parents=True)` and the write that follows it */
  function Placed(t: Tree, name: string, content: Bytes): Tree {
    Tree(t.files[Split(name) := content], t.dirs + Above(Split(name)))
  }

  lemma PlacedValid(t: Tree, name: string, content: Bytes)
    requires t.Valid() && !IsBlocked(t, name) && Split(name) != []
    ensures Placed(t, name, content).Valid()
  {
    var r, path := Placed(t, name, content), Split(name);
    forall d | d in r.dirs ensures Parent(d) == [] || Parent(d) in r.dirs {
      if d in Above(path) {
        var k :| 0 < k < |path| && d == path[..k];
        assert Parent(d) == path[..k - 1];
      }
    }
    assert Parent(path) == [] || Parent(path) in Above(path);
    assert path !in Above(path);
  }

  /** Those pages whose content is not there yet. */
  function OutdatedPages(files: map<Path, Bytes>, pages: map<string, Bytes>, names: set<string>): set<string>
    requires names <= pages.Keys
  {
    set n | n in names && !(PagePath(n) in files && files[PagePath(n)] == pages[n]) :: n
  }

  /** Those assets whose content is not there yet. */
  function OutdatedAssets(files: map<Path, Bytes>, assets: map<string, Bytes>, names: set<string>): set<string>
    requires names <= assets.Keys
  {
    set n | n in names && !(Split(n) in files && files[Split(n)] == assets[n]) :: n
  }

  /** All directories above the named assets. */
  function AllAbove(names: set<string>): set<Path> {
    set n, q | n in names && q in Above(Split(n)) :: q
  }

  /** Every asset finds a directory to be written into, and no directory in its own place. */
  ghost predicate AssetsFit(t: Tree, assets: set<string>) {
    forall a :: a in assets ==>
      Split(a) !in t.dirs && forall q :: q in Above(Split(a)) ==> q !in t.files && q !in AssetPaths(assets)
  }

  lemma FewerFiles(t: Tree, path: Path)
    requires t.Valid()
    ensures Tree(t.files - {path}, t.dirs).Valid()
  {
  }

  lemma PrefixSet(names: seq<string>, i: nat)
    requires i <= |names|
    ensures SetOf(names[..i]) <= SetOf(names)
  {
  }

  lemma EmptyPaths()
    ensures SetOf([]) == {} && PagePaths({}) == {} && AssetPaths({}) == {} && forall files :: Present([], files) == {}
  {
  }

  lemma SortedMembers(names: seq<string>, s: set<string>)
    requires forall x :: x in names <==> x in s
    ensures SetOf(names) == s
  {
  }

  /** The listed names whose file is there. */
  function Present(names: seq<string>, files: map<Path, Bytes>): set<string> {
    set n | n in names && Split(n) in files
  }

  lemma PresentStep(names: seq<string>, i: nat, files: map<Path, Bytes>)
    requires i < |names|
    ensures Present(names[..i + 1], files) == Present(names[..i], files) +
      (if Split(names[i]) in files then {names[i]} else {})
  {
    assert names[..i + 1] == names[..i] + [names[i]];
  }

  /** The file of a name is still there when only the files of other names have gone. */
  lemma StillThere(names: seq<string>, i: nat, files: map<Path, Bytes>)
    requires !Repeats(names) && i < |names|
    ensures Split(names[i]) in files - AssetPaths(SetOf(names[..i])) <==> Split(names[i]) in files
  {
    SplitIsInjective();
    assert names[i] !in names[..i];
  }

  // ----- what a run reports, and when it succeeds -----

  function ManifestCopied(files: map<Path, Bytes>, assets: map<string, Bytes>, codec: Codec): set<string> {
    if assets != map[] && !([MANIFEST] in files && files[[MANIFEST]] == codec.render(assets.Keys)) then {MANIFEST}
      else {}
  }

  function ManifestRemoved(files: map<Path, Bytes>, assets: map<string, Bytes>): set<string> {
    if assets == map[] && [MANIFEST] in files then {MANIFEST} else {}
  }

  function Copied(files: map<Path, Bytes>, s: Source, previous: set<string>, codec: Codec): set<string> {
    OutdatedPages(WithoutStaleAssets(files, s, previous), s.pages, s.pages.Keys)
    + OutdatedAssets(WithPages(files, s, previous), s.assets, s.assets.Keys)
    + ManifestCopied(WithAssets(files, s, previous), s.assets, codec)
  }

  function RemovedNames(files: map<Path, Bytes>, s: Source, previous: set<string>): set<string> {
    StalePages(files, s.pages)
    + Present(SortedStrings(previous - s.assets.Keys), WithoutStalePages(files, s))
    + ManifestRemoved(WithAssets(files, s, previous), s.assets)
  }

  predicate Accepted(t: Tree, s: Source, codec: Codec) {
    PreviousAssets(t, codec).Some? && DestinationFine(t, s, PreviousAssets(t, codec).value, codec)
  }

  function Previous(t: Tree, codec: Codec): set<string>
    requires PreviousAssets(t, codec).Some?
  {
    PreviousAssets(t, codec).value
  }

  /** The stale assets can be removed from the tree without its stale pages. */
  /** The directory of every stale asset is there, and the stale assets before it, in order, do not clear it. */
  ghost predicate Removable(t: Tree, s: Source, previous: set<string>) {
    DirectoriesLast(t, SortedStrings(previous - s.assets.Keys))
  }

  lemma RemovableThen(t: Tree, now: Tree, s: Source, previous: set<string>)
    requires now.Valid() && now == Tree(WithoutStalePages(t.files, s), t.dirs)
    ensures Removable(t, s, previous) <==> AllRemoved(now, SortedStrings(previous - s.assets.Keys)).Some?
  {
    hide DirectoriesLast, StalePages, Tree.Valid, Ascending, PagePaths;
    var stale := SortedStrings(previous - s.assets.Keys);
    RemovableIffDirectoriesLast(now, stale);
    PagesDoNotMatter(t, StalePages(t.files, s.pages), stale);
  }

  /** Exactly when a run ends normally. */
  ghost predicate Succeeds(t: Tree, s: Source, codec: Codec) {
    Accepted(t, s, codec) && Removable(t, s, Previous(t, codec)) && NoConflict(s)
  }

  /** A path that is none of a page, a managed asset or the manifest. */
  ghost predicate Unmanaged(path: Path, t: Tree, s: Source, codec: Codec) {
    && !IsPagePath(path) && path != [MANIFEST] && path !in AssetPaths(s.assets.Keys)
    && (PreviousAssets(t, codec).Some? ==> path !in AssetPaths(Previous(t, codec)))
  }

  /** No unmanaged file was touched. */
  ghost predicate Untouched(before: Tree, after: Tree, s: Source, codec: Codec) {
    forall path :: Unmanaged(path, before, s, codec) ==>
      (path in after.files <==> path in before.files)
        && (path in before.files ==> after.files[path] == before.files[path])
  }

  /** A path that is none of a page, a recorded asset or the manifest. */
  ghost predicate Unrecorded(path: Path, t: Tree, codec: Codec) {
    && !IsPagePath(path) && path != [MANIFEST]
    && (PreviousAssets(t, codec).Some? ==> path !in AssetPaths(Previous(t, codec)))
  }

  /** No unrecorded file was changed or removed, not even at the place of an asset. */
  ghost predicate UnrecordedKept(before: Tree, after: Tree, codec: Codec) {
    forall path :: path in before.files && Unrecorded(path, before, codec) ==>
      path in after.files && after.files[path] == before.files[path]
  }

  datatype Outcome = Refused | Broken | Synced(copied: seq<string>, removed: seq<string>)

  class Wiki {
    var files: map<Path, Bytes>
    var dirs: set<Path>

    function Now(): Tree
      reads this
    {
      Tree(files, dirs)
    }

    constructor (found: Tree)
      ensures Now() == found
    {
      files, dirs := found.files, found.dirs;
    }

    method RemovePages(names: seq<string>)
      requires Now().Valid()
      modifies this
      ensures Now().Valid() && dirs == old(dirs) && files == old(files) - PagePaths(SetOf(names))
    {
      hide SetOf, PagePaths;
      EmptyPaths();
      assert names[..0] == [];
      for i := 0 to |names|
        invariant Now().Valid() && dirs == old(dirs)
        invariant files == old(files) - PagePaths(SetOf(names[..i]))
      {
        PathsStep(names, i);
        FewerFiles(Now(), PagePath(names[i]));
        files := files - {PagePath(names[i])};
      }
      assert names[..|names|] == names;
    }

    method RemoveStalePages(pages: map<string, Bytes>) returns (removed: seq<string>)
      requires Now().Valid()
      modifies this
      ensures Now().Valid() && dirs == old(dirs) && files == old(files) - PagePaths(StalePages(old(files), pages))
      ensures SetOf(removed) == StalePages(old(files), pages)
    {
      removed := SortedStrings(StalePages(files, pages));
      SortedMembers(removed, StalePages(files, pages));
      RemovePages(removed);
    }

    /** One stale asset and the directories it leaves empty. */
    method RemoveAsset(name: string) returns (ok: bool, existed: bool)
      requires Now().Valid()
      modifies this
      ensures ok <==> Removed(old(Now()), name).Some?
      ensures ok ==> Now() == Removed(old(Now()), name).value
      ensures existed <==> Split(name) in old(files)
      ensures files == old(files) - {Split(name)}
    {
      var dir := Parent(Split(name));
      existed := Split(name) in files;
      files := files - {Split(name)};
      if dir != [] && dir !in dirs {
        return false, existed;
      }
      ghost var start := Now();
      while dir != [] && Now().Empty(dir)
        invariant Now().Valid() && (dir == [] || dir in dirs)
          && Pruned(Now(), dir) == Pruned(start, Parent(Split(name)))
        decreases |dir|
      {
        dirs := dirs - {dir};
        dir := Parent(dir);
      }
      ok := true;
    }

    method RemoveStaleAssets(names: seq<string>) returns (ok: bool, removed: seq<string>)
      requires Now().Valid() && !Repeats(names)
      modifies this
      ensures ok <==> AllRemoved(old(Now()), names).Some?
      ensures ok ==> Now() == AllRemoved(old(Now()), names).value
      ensures ok ==> SetOf(removed) == Present(names, old(files))
      ensures exists gone: set<string> :: gone <= SetOf(names) && files == old(files) - AssetPaths(gone)
    {
      hide AssetPaths, SetOf, Present, Removed, Repeats;
      removed := [];
      assert names[..0] == [];
      EmptyPaths();
      for i := 0 to |names|
        invariant Now().Valid() && AllRemoved(Now(), names[i..]) == AllRemoved(old(Now()), names)
        invariant files == old(files) - AssetPaths(SetOf(names[..i]))
        invariant SetOf(removed) == Present(names[..i], old(files))
      {
        assert names[i..][1..] == names[i + 1..];
        PathsStep(names, i);
        PresentStep(names, i, old(files));
        PrefixSet(names, i + 1);
        StillThere(names, i, old(files));
        var existed;
        ok, existed := RemoveAsset(names[i]);
        if !ok {
          return false, removed;
        }
        if existed {
          SetOfAppend(removed, names[i]);
          removed := removed + [names[i]];
        }
      }
      assert names[..|names|] == names;
      ok := true;
    }

    method WritePages(pages: map<string, Bytes>) returns (copied: seq<string>)
      requires Now().Valid() && forall p :: p in pages ==> PagePath(p) !in dirs
      modifies this
      ensures Now().Valid() && dirs == old(dirs) && files == old(files) + PageFiles(pages, pages.Keys)
      ensures SetOf(copied) == OutdatedPages(old(files), pages, pages.Keys)
    {
      var order := SortedStrings(pages.Keys);
      SortedMembers(order, pages.Keys);
      SortedDistinct(order);
      copied := WriteEachPage(pages, order);
    }

    method WriteEachPage(pages: map<string, Bytes>, order: seq<string>) returns (copied: seq<string>)
      requires Now().Valid() && SetOf(order) == pages.Keys && !Repeats(order)
      requires forall p :: p in pages ==> PagePath(p) !in dirs
      modifies this
      ensures Now().Valid() && dirs == old(dirs) && files == old(files) + PageFiles(pages, pages.Keys)
      ensures SetOf(copied) == OutdatedPages(old(files), pages, pages.Keys)
    {
      hide PageFiles, OutdatedPages, SetOf, Repeats, PagePath, Tree.Valid, PagePaths, AssetPaths;
      copied := [];
      NoFilesYet(old(files), pages);
      assert order[..0] == [];
      EmptyPaths();
      for i := 0 to |order|
        invariant Now().Valid() && dirs == old(dirs) && SetOf(order[..i]) <= pages.Keys
        invariant files == old(files) + PageFiles(pages, SetOf(order[..i]))
        invariant SetOf(copied) == OutdatedPages(old(files), pages, SetOf(order[..i]))
      {
        var n := order[i];
        PathsStep(order, i);
        NotBefore(order, i);
        PageStep(old(files), pages, SetOf(order[..i]), n);
        PlacedPage(Now(), n, pages[n]);
        if PagePath(n) in files && files[PagePath(n)] == pages[n] {
          assert files[PagePath(n) := pages[n]] == files;
          continue;
        }
        files := files[PagePath(n) := pages[n]];
        SetOfAppend(copied, n);
        copied := copied + [n];
      }
      assert order[..|order|] == order;
    }

    /** The loop over the assets; one that does not fit stops it with an error of the operating system. */
    method WriteEachAsset(assets: map<string, Bytes>, order: seq<string>) returns (ok: bool, copied: seq<string>)
      requires Now().Valid() && SetOf(order) == assets.Keys && !Repeats(order)
      modifies this
      ensures ok <==> AssetsFit(old(Now()), assets.Keys)
      ensures ok ==>
        && Now().Valid() && dirs == old(dirs) + AllAbove(assets.Keys)
          && files == old(files) + AssetFiles(assets, assets.Keys)
        && SetOf(copied) == OutdatedAssets(old(files), assets, assets.Keys)
      ensures exists done :: done <= assets.Keys && files == old(files) + AssetFiles(assets, done)
    {
      hide AssetFiles, OutdatedAssets, SetOf, Repeats, Split, Tree.Valid, PagePaths, AssetPaths, Above, AllAbove,
        AssetsFit;
      copied := [];
      NoFilesYet(old(files), assets);
      NothingAbove();
      assert order[..0] == [];
      EmptyPaths();
      for i := 0 to |order|
        invariant Now().Valid() && SetOf(order[..i]) <= assets.Keys
        invariant dirs == old(dirs) + AllAbove(SetOf(order[..i]))
        invariant files == old(files) + AssetFiles(assets, SetOf(order[..i]))
        invariant SetOf(copied) == OutdatedAssets(old(files), assets, SetOf(order[..i]))
      {
        var n := order[i];
        PathsStep(order, i);
        NotBefore(order, i);
        AssetStep(old(files), assets, SetOf(order[..i]), n);
        if IsBlocked(Now(), n) {
          BlockedDoesNotFit(old(Now()), assets, SetOf(order[..i]), n);
          return false, copied;
        }
        PlacedValid(Now(), n, assets[n]);
        dirs := dirs + Above(Split(n));
        if Split(n) in files && files[Split(n)] == assets[n] {
          assert files[Split(n) := assets[n]] == files;
          continue;
        }
        files := files[Split(n) := assets[n]];
        SetOfAppend(copied, n);
        copied := copied + [n];
      }
      assert order[..|order|] == order;
      WrittenFits(old(Now()), assets);
      ok := true;
    }

    method WriteAssets(assets: map<string, Bytes>) returns (ok: bool, copied: seq<string>)
      requires Now().Valid()
      modifies this
      ensures ok <==> AssetsFit(old(Now()), assets.Keys)
      ensures ok ==>
        && Now().Valid() && dirs == old(dirs) + AllAbove(assets.Keys)
          && files == old(files) + AssetFiles(assets, assets.Keys)
        && SetOf(copied) == OutdatedAssets(old(files), assets, assets.Keys)
      ensures exists done :: done <= assets.Keys && files == old(files) + AssetFiles(assets, done)
    {
      var order := SortedStrings(assets.Keys);
      SortedMembers(order, assets.Keys);
      SortedDistinct(order);
      ok, copied := WriteEachAsset(assets, order);
    }

    /** The manifest, written when it lists anything and removed when it does not. */
    method WriteManifest(assets: map<string, Bytes>, codec: Codec)
      returns (ok: bool, copied: seq<string>, removed: seq<string>)
      requires Now().Valid() && (assets == map[] ==> [MANIFEST] !in dirs)
      modifies this
      ensures ok <==> [MANIFEST] !in dirs
      ensures !ok ==> Now() == old(Now())
      ensures ok ==>
        && Now().Valid() && dirs == old(dirs)
        && files == (if assets == map[] then old(files) - {[MANIFEST]}
          else old(files)[[MANIFEST] := codec.render(assets.Keys)])
        && SetOf(copied) == ManifestCopied(old(files), assets, codec)
          && SetOf(removed) == ManifestRemoved(old(files), assets)
    {
      copied, removed := [], [];
      var place := [MANIFEST];
      if assets != map[] {
        if place in dirs {
          return false, copied, removed;
        }
        var content := codec.render(assets.Keys);
        if place !in files || files[place] != content {
          files := files[place := content];
          copied := [MANIFEST];
        }
      } else if place in files {
        files := files - {place};
        removed := [MANIFEST];
      }
      ok := true;
    }

    /** The part of `sync_wiki_docs` that changes the checkout. */
    method Apply(s: Source, previous: set<string>, codec: Codec) returns (r: Outcome)
      requires Now().Valid() && (forall p :: p in s.pages ==> IsPageName(p))
      requires Accepted(Now(), s, codec) && previous == Previous(Now(), codec)
      modifies this
      ensures r.Synced? <==> Removable(old(Now()), s, previous) && NoConflict(s)
      ensures !r.Refused?
      ensures r.Synced? ==>
        && Now().Valid() && [MANIFEST] !in dirs && files == Mirrored(old(files), s, previous, codec)
        && SetOf(r.copied) == Copied(old(files), s, previous, codec)
          && SetOf(r.removed) == RemovedNames(old(files), s, previous)
      ensures Untouched(old(Now()), Now(), s, codec)
    {
      hide Tree.Valid, DestinationFine, IsPageName, PageFiles, AssetFiles, PagePaths, AssetPaths, StalePages, Split,
        SetOf, AssetsFit, AllAbove, Above, AllRemoved, Removable, OutdatedPages, OutdatedAssets, Untouched, Present,
        PreviousAssets, NoConflict, Apart, Ascending, Repeats;
      var removedPages := RemoveStalePages(s.pages);
      var stale := SortedStrings(previous - s.assets.Keys);
      SortedDistinct(stale);
      SortedMembers(stale, previous - s.assets.Keys);
      RemovableThen(old(Now()), Now(), s, previous);
      var ok, removedAssets := RemoveStaleAssets(stale);
      if !ok {
        StaleTouched(old(Now()), Now(), s, codec, stale);
        return Broken;
      }
      PagesStayFree(old(Now()), dirs, s, previous, codec);
      var copiedPages := WritePages(s.pages);
      ghost var before := Now();
      FitIffNoConflict(old(Now()), before, s, previous, codec);
      var copiedAssets;
      ok, copiedAssets := WriteAssets(s.assets);
      AssetsTouched(old(Now()), Now(), s, codec);
      if !ok {
        ConflictsApart(s);
        return Broken;
      }
      ManifestPlace(old(Now()), before, s, previous, codec);
      var copiedManifest, removedManifest;
      ok, copiedManifest, removedManifest := WriteManifest(s.assets, codec);
      if !ok {
        return Broken;
      }
      MirrorTouched(old(Now()), Now(), s, codec);
      SetOfJoin(copiedPages, copiedAssets, copiedManifest);
      SetOfJoin(removedPages, removedAssets, removedManifest);
      r := Synced(copiedPages + copiedAssets + copiedManifest, removedPages + removedAssets + removedManifest);
    }

    /** `sync_wiki_docs`. Refused is the outcome of a WikiSyncError, which leaves everything as it was; Broken that of
      * an error of the operating system on the way. The root of the checkout is checked elsewhere.
      */
    method Sync(source: Option<Source>, rootFine: bool, codec: Codec) returns (r: Outcome)
      requires Now().Valid() && (source.Some? ==> forall p :: p in source.value.pages ==> IsPageName(p))
      modifies this
      ensures r.Refused? <==> source.None? || !rootFine || !Accepted(old(Now()), source.value, codec)
      ensures r.Refused? ==> Now() == old(Now())
      ensures r.Synced? <==> source.Some? && rootFine && Succeeds(old(Now()), source.value, codec)
      ensures r.Synced? ==>
        && Now().Valid() && [MANIFEST] !in dirs
        && files == Mirrored(old(files), source.value, Previous(old(Now()), codec), codec)
        && SetOf(r.copied) == Copied(old(files), source.value, Previous(old(Now()), codec), codec)
        && SetOf(r.removed) == RemovedNames(old(files), source.value, Previous(old(Now()), codec))
      ensures source.Some? ==> Untouched(old(Now()), Now(), source.value, codec)
      ensures UnrecordedKept(old(Now()), Now(), codec)
    {
      hide Tree.Valid, DestinationFine, IsPageName, Untouched, PreviousAssets, Mirrored, Copied, RemovedNames,
        Removable, NoConflict, SetOf, Unrecorded;
      if source.None? || !rootFine {
        if source.Some? {
          NothingTouched(Now(), source.value, codec);
        }
        return Refused;
      }
      var s := source.value;
      var previous := PreviousAssets(Now(), codec);
      if previous.None? || !DestinationFine(Now(), s, previous.value, codec) {
        NothingTouched(Now(), s, codec);
        return Refused;
      }
      r := Apply(s, previous.value, codec);
      UnrecordedStays(old(Now()), Now(), s, codec);
    }
  }

  lemma UnrecordedStays(before: Tree, after: Tree, s: Source, codec: Codec)
    requires Accepted(before, s, codec) && Untouched(before, after, s, codec)
    ensures UnrecordedKept(before, after, codec)
  {
    hide IsPagePath, Split, PreviousAssets, NoCollision, AssetPlaceFine, Safe;
    assert forall a :: a in s.assets && Split(a) in before.files ==> a in Previous(before, codec);
    assert forall path :: path in before.files && Unrecorded(path, before, codec) ==> Unmanaged(path, before, s, codec);
  }

  lemma NothingTouched(t: Tree, s: Source, codec: Codec)
    ensures Untouched(t, t, s, codec)
  {
  }

  lemma PagesArePages(s: Source, files: map<Path, Bytes>)
    requires forall p :: p in s.pages ==> IsPageName(p)
    ensures forall path :: path in PagePaths(s.pages.Keys) || path in PagePaths(StalePages(files, s.pages)) ==>
      IsPagePath(path)
  {
  }

  lemma StaleTouched(before: Tree, after: Tree, s: Source, codec: Codec, stale: seq<string>)
    requires Accepted(before, s, codec) && (forall p :: p in s.pages ==> IsPageName(p))
    requires SetOf(stale) == Previous(before, codec) - s.assets.Keys
    requires exists gone: set<string> ::
      && gone <= SetOf(stale)
      && after.files == WithoutStalePages(before.files, s) - AssetPaths(gone)
    ensures Untouched(before, after, s, codec)
  {
    PagesArePages(s, before.files);
    hide IsPageName, IsPagePath, Split, StalePages;
  }

  ghost predicate SameAt(f: map<Path, Bytes>, g: map<Path, Bytes>, path: Path) {
    (path in g <==> path in f) && (path in f ==> g[path] == f[path])
  }

  lemma Domains(s: Source, done: set<string>, path: Path)
    requires done <= s.assets.Keys
    ensures path in PageFiles(s.pages, s.pages.Keys) <==> path in PagePaths(s.pages.Keys)
    ensures path in AssetFiles(s.assets, done) ==> path in AssetPaths(s.assets.Keys)
  {
    hide Split;
  }

  lemma WithAssetsAt(files: map<Path, Bytes>, s: Source, previous: set<string>, done: set<string>, path: Path)
    requires done <= s.assets.Keys
    requires path !in PagePaths(s.pages.Keys) && path !in PagePaths(StalePages(files, s.pages))
    requires path !in AssetPaths(s.assets.Keys) && path !in AssetPaths(previous)
    ensures SameAt(files, WithPages(files, s, previous) + AssetFiles(s.assets, done), path)
  {
    Domains(s, done, path);
    StaleIncluded(previous, s.assets.Keys);
    hide Split, PagePaths, AssetPaths, StalePages, PageFiles, AssetFiles;
    assert SameAt(files, WithoutStalePages(files, s), path);
    assert SameAt(files, WithoutStaleAssets(files, s, previous), path);
    assert SameAt(files, WithPages(files, s, previous), path);
  }

  lemma StaleIncluded(previous: set<string>, assets: set<string>)
    ensures AssetPaths(previous - assets) <= AssetPaths(previous)
  {
    hide Split;
  }

  lemma UnmanagedNames(t: Tree, s: Source, codec: Codec, path: Path)
    requires Unmanaged(path, t, s, codec) && (forall p :: p in s.pages ==> IsPageName(p))
    ensures path !in PagePaths(s.pages.Keys) && path !in PagePaths(StalePages(t.files, s.pages))
  {
    PagesArePages(s, t.files);
    hide IsPageName, Split, StalePages;
  }

  lemma AssetsTouched(before: Tree, after: Tree, s: Source, codec: Codec)
    requires Accepted(before, s, codec) && (forall p :: p in s.pages ==> IsPageName(p))
    requires exists done ::
      && done <= s.assets.Keys
      && after.files == WithPages(before.files, s, Previous(before, codec)) + AssetFiles(s.assets, done)
    ensures Untouched(before, after, s, codec)
  {
    hide IsPageName, IsPagePath, Split, StalePages, PagePaths, AssetPaths, WithPages, AssetFiles, DestinationFine,
      PreviousAssets;
    var previous := Previous(before, codec);
    var done :| done <= s.assets.Keys && after.files == WithPages(before.files, s, previous) +
      AssetFiles(s.assets, done);
    forall path | Unmanaged(path, before, s, codec) ensures SameAt(before.files, after.files, path) {
      UnmanagedNames(before, s, codec, path);
      WithAssetsAt(before.files, s, previous, done, path);
    }
  }

  lemma MirrorTouched(before: Tree, after: Tree, s: Source, codec: Codec)
    requires Accepted(before, s, codec) && (forall p :: p in s.pages ==> IsPageName(p))
    requires after.files == Mirrored(before.files, s, Previous(before, codec), codec)
    ensures Untouched(before, after, s, codec)
  {
    hide IsPageName, IsPagePath, Split, StalePages, PagePaths, AssetPaths, WithPages, AssetFiles, DestinationFine,
      PreviousAssets;
    var previous := Previous(before, codec);
    forall path | Unmanaged(path, before, s, codec) ensures SameAt(before.files, after.files, path) {
      UnmanagedNames(before, s, codec, path);
      WithAssetsAt(before.files, s, previous, s.assets.Keys, path);
    }
  }

  lemma PagesStayFree(t: Tree, dirs: set<Path>, s: Source, previous: set<string>, codec: Codec)
    requires DestinationFine(t, s, previous, codec) && dirs <= t.dirs
    ensures forall p :: p in s.pages ==> PagePath(p) !in dirs
  {
  }

  lemma ConflictsApart(s: Source)
    ensures NoConflict(s) ==> Apart(s)
  {
    hide Split, Above, PagePaths, AssetPaths;
  }

  lemma NewFilesArePages(files: map<Path, Bytes>, s: Source, previous: set<string>, q: Path)
    requires q !in files
    ensures q in WithPages(files, s, previous) <==> q in PagePaths(s.pages.Keys)
  {
    Domains(s, {}, q);
    hide Split, PagePaths, AssetPaths, StalePages, PageFiles;
  }

  lemma FitIffNoConflict(t: Tree, now: Tree, s: Source, previous: set<string>, codec: Codec)
    requires DestinationFine(t, s, previous, codec) && now.files == WithPages(t.files, s, previous)
      && now.dirs <= t.dirs
    ensures AssetsFit(now, s.assets.Keys) <==> Apart(s)
  {
    forall a | a in s.assets ensures AssetPlaceFine(t, a) {
      assert a in s.assets.Keys + previous;
    }
    hide Split, Above, Safe, NoCollision, WithPages, PagePaths, AssetPaths, DestinationFine;
    forall a, q | a in s.assets && q in Above(Split(a)) ensures q in now.files <==> q in PagePaths(s.pages.Keys) {
      assert AssetPlaceFine(t, a);
      NewFilesArePages(t.files, s, previous, q);
    }
    forall a | a in s.assets ensures Split(a) !in now.dirs {
      assert AssetPlaceFine(t, a);
    }
  }

  lemma ManifestPlace(t: Tree, now: Tree, s: Source, previous: set<string>, codec: Codec)
    requires PreviousAssets(t, codec).Some? && now.dirs <= t.dirs && Apart(s)
    ensures [MANIFEST] !in now.dirs + AllAbove(s.assets.Keys) <==> NoConflict(s)
    ensures s.assets == map[] ==> [MANIFEST] !in now.dirs + AllAbove(s.assets.Keys)
  {
    hide Split, Above, PagePaths, AssetPaths, Safe;
    assert [MANIFEST] !in now.dirs;
    assert [MANIFEST] in AllAbove(s.assets.Keys) <==> exists a :: a in s.assets && [MANIFEST] in Above(Split(a));
  }

  lemma SetOfJoin(a: seq<string>, b: seq<string>, c: seq<string>)
    ensures SetOf(a + b + c) == SetOf(a) + SetOf(b) + SetOf(c)
  {
  }

  lemma NothingAbove()
    ensures AllAbove({}) == {}
  {
  }

  lemma BlockedDoesNotFit(t: Tree, assets: map<string, Bytes>, done: set<string>, n: string)
    requires t.Valid() && done <= assets.Keys && n in assets
    requires IsBlocked(Tree(t.files + AssetFiles(assets, done), t.dirs + AllAbove(done)), n)
    ensures !AssetsFit(t, assets.Keys)
  {
    hide Split, Above, Tree.Valid;
    var now := Tree(t.files + AssetFiles(assets, done), t.dirs + AllAbove(done));
    if Split(n) in now.dirs {
      if Split(n) !in t.dirs {
        var m :| m in done && Split(n) in Above(Split(m));
        assert Split(n) in AssetPaths(assets.Keys);
      }
    } else {
      var q :| q in Above(Split(n)) && q in now.files;
      if q !in t.files {
        assert q in AssetPaths(assets.Keys);
      }
    }
  }

  lemma WrittenFits(t: Tree, assets: map<string, Bytes>)
    requires Tree(t.files + AssetFiles(assets, assets.Keys), t.dirs + AllAbove(assets.Keys)).Valid()
    ensures AssetsFit(t, assets.Keys)
  {
    hide Split, Above;
    var now := Tree(t.files + AssetFiles(assets, assets.Keys), t.dirs + AllAbove(assets.Keys));
    forall a | a in assets.Keys ensures Split(a) !in t.dirs {
      assert Split(a) in now.files;
    }
    forall a, q | a in assets.Keys && q in Above(Split(a)) ensures q !in t.files && q !in AssetPaths(assets.Keys) {
      assert q in now.dirs;
      assert q !in now.files;
    }
  }

  lemma SortedDistinct(order: seq<string>)
    requires Ascending(StringLe, order)
    ensures !Repeats(order)
  {
  }

  lemma PlacedPage(t: Tree, n: string, content: Bytes)
    requires t.Valid() && PagePath(n) !in t.dirs
    ensures Tree(t.files[PagePath(n) := content], t.dirs).Valid()
  {
  }

  lemma NotBefore(order: seq<string>, i: nat)
    requires i < |order| && !Repeats(order)
    ensures order[i] in SetOf(order) && order[i] !in SetOf(order[..i])
  {
    assert order[i] in order;
  }

  lemma NoFilesYet(files: map<Path, Bytes>, contents: map<string, Bytes>)
    ensures files + PageFiles(contents, {}) == files && files + AssetFiles(contents, {}) == files
    ensures OutdatedPages(files, contents, {}) == {} && OutdatedAssets(files, contents, {}) == {}
  {
  }

  /** One more entry written over the files, whose place no earlier entry had. */
  lemma PlaceStep(files: map<Path, Bytes>, written: map<Path, Bytes>, place: Path, content: Bytes)
    requires place !in written
    ensures files + written[place := content] == (files + written)[place := content]
    ensures place in files + written <==> place in files
    ensures place in files ==> (files + written)[place] == files[place]
  {
  }

  lemma PageStep(files: map<Path, Bytes>, pages: map<string, Bytes>, done: set<string>, n: string)
    requires done <= pages.Keys && n in pages && n !in done
    ensures files + PageFiles(pages, done + {n}) == (files + PageFiles(pages, done))[PagePath(n) := pages[n]]
    ensures PagePath(n) in files + PageFiles(pages, done) <==> PagePath(n) in files
    ensures PagePath(n) in files ==> (files + PageFiles(pages, done))[PagePath(n)] == files[PagePath(n)]
    ensures OutdatedPages(files, pages, done + {n}) ==
      OutdatedPages(files, pages, done) + (if PagePath(n) in files && files[PagePath(n)] == pages[n] then {} else {n})
  {
    PageFilesStep(pages, done, n);
    PlaceStep(files, PageFiles(pages, done), PagePath(n), pages[n]);
    hide PageFiles;
  }

  lemma PageFilesStep(pages: map<string, Bytes>, done: set<string>, n: string)
    requires done <= pages.Keys && n in pages && n !in done
    ensures PagePath(n) !in PageFiles(pages, done)
    ensures PageFiles(pages, done + {n}) == PageFiles(pages, done)[PagePath(n) := pages[n]]
  {
    assert forall m :: PagePath(m)[0] == m;
  }

  lemma AssetStep(files: map<Path, Bytes>, assets: map<string, Bytes>, done: set<string>, n: string)
    requires done <= assets.Keys && n in assets && n !in done
    ensures files + AssetFiles(assets, done + {n}) == (files + AssetFiles(assets, done))[Split(n) := assets[n]]
    ensures Split(n) in files + AssetFiles(assets, done) <==> Split(n) in files
    ensures Split(n) in files ==> (files + AssetFiles(assets, done))[Split(n)] == files[Split(n)]
    ensures OutdatedAssets(files, assets, done + {n}) ==
      OutdatedAssets(files, assets, done) + (if Split(n) in files && files[Split(n)] == assets[n] then {} else {n})
    ensures AllAbove(done + {n}) == AllAbove(done) + Above(Split(n))
  {
    hide Split, AssetFiles, OutdatedAssets, AllAbove, Above;
    AssetFilesStep(assets, done, n);
    OutdatedStep(files, assets, done, n);
    AboveStep(done, n);
    PlaceStep(files, AssetFiles(assets, done), Split(n), assets[n]);
  }

  lemma AssetFilesStep(assets: map<string, Bytes>, done: set<string>, n: string)
    requires done <= assets.Keys && n in assets && n !in done
    ensures Split(n) !in AssetFiles(assets, done)
    ensures AssetFiles(assets, done + {n}) == AssetFiles(assets, done)[Split(n) := assets[n]]
  {
    SplitIsInjective();
    hide Split;
  }

  lemma OutdatedStep(files: map<Path, Bytes>, assets: map<string, Bytes>, done: set<string>, n: string)
    requires done <= assets.Keys && n in assets
    ensures OutdatedAssets(files, assets, done + {n}) ==
      OutdatedAssets(files, assets, done) + (if Split(n) in files && files[Split(n)] == assets[n] then {} else {n})
  {
    hide Split;
  }

  lemma AboveStep(done: set<string>, n: string)
    ensures AllAbove(done + {n}) == AllAbove(done) + Above(Split(n))
  {
    hide Split, Above;
  }
}
