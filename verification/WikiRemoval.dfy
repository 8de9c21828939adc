/** How `sync_wiki_docs` (scripts/sync_wiki_docs.py:182-190) removes the assets that are no longer referenced, and when
  * it can: each removal also removes the directories it leaves empty, and a later one may look for them.
  */
module WikiRemoval {
  import opened WikiPaths
  import opened Wrappers

  /** One stale asset; None when its directory is not there to be looked into. */
  function Removed(t: Tree, name: string): (r: Option<Tree>)
    requires t.Valid()
    ensures r.Some? ==> r.value.Valid() && r.value.files == t.files - {Split(name)} && r.value.dirs <= t.dirs
  {
    var rest := Tree(t.files - {Split(name)}, t.dirs);
    var dir := Parent(Split(name));
    if dir == [] || dir in t.dirs then Some(Pruned(rest, dir)) else None
  }

  function AllRemoved(t: Tree, names: seq<string>): (r: Option<Tree>)
    requires t.Valid()
    ensures r.Some? ==> r.value.Valid() && r.value.files == t.files - AssetPaths(SetOf(names)) && r.value.dirs <= t.dirs
    decreases |names|
  {
    if names == [] then Some(t)
    else
      match Removed(t, names[0])
      case None => None
      case Some(rest) =>
        assert SetOf(names) == {names[0]} + SetOf(names[1..]);
        assert AssetPaths(SetOf(names)) == {Split(names[0])} + AssetPaths(SetOf(names[1..]));
        AllRemoved(rest, names[1..])
  }

  // ----- which directories are gone -----

  /** `dir` lies above `path`. */
  predicate Over(dir: Path, path: Path) {
    |dir| < |path| && path[..|dir|] == dir
  }

  ghost predicate Touched(dir: Path, gone: set<Path>) {
    exists p :: p in gone && Over(dir, p)
  }

  /** Every file below `dir` is one of `gone`, and `dir` and each directory below it lie above one of them: this is what
    * it takes for removing them to remove the directory too.
    */
  ghost predicate Cleared(t: Tree, gone: set<Path>, dir: Path) {
    && (forall p :: p in t.files && Over(dir, p) ==> p in gone)
    && (forall d :: d in t.dirs && (d == dir || Over(dir, d)) ==> Touched(d, gone))
  }

  /** The directory of the name is there at the start, and the names before it do not clear it. */
  ghost predicate DirectoryLasts(t: Tree, names: seq<string>, i: nat)
    requires i < |names|
  {
    var dir := Parent(Split(names[i]));
    dir == [] || (dir in t.dirs && !Cleared(t, AssetPaths(SetOf(names[..i])), dir))
  }

  /** Whether the loop over `names` gets to its end, told from the tree before it. */
  ghost predicate DirectoriesLast(t: Tree, names: seq<string>) {
    forall i :: 0 <= i < |names| ==> DirectoryLasts(t, names, i)
  }

  /** What the tree has become when the files `gone` have been removed. */
  ghost predicate Became(t: Tree, gone: set<Path>, now: Tree) {
    && now.Valid() && now.files == t.files - gone && now.dirs <= t.dirs
    && (forall d :: d in now.dirs && Touched(d, gone) ==> !now.Empty(d))
    && (forall d :: d in t.dirs && d !in now.dirs ==> Touched(d, gone))
  }

  predicate UpTo(d: Path, dir: Path) {
    d == dir || Over(d, dir)
  }

  /** Pruning removes only directories on the way up, and those on the way that it leaves are not empty. */
  lemma {:induction false} PrunedOnTheWay(t: Tree, dir: Path)
    requires t.Valid() && (dir == [] || dir in t.dirs)
    ensures forall d :: d in t.dirs && d !in Pruned(t, dir).dirs ==> UpTo(d, dir)
    ensures forall d :: d in Pruned(t, dir).dirs && UpTo(d, dir) ==> !Pruned(t, dir).Empty(d)
    decreases |dir|
  {
    if dir != [] && t.Empty(dir) {
      PrunedOnTheWay(Tree(t.files, t.dirs - {dir}), Parent(dir));
      forall d | UpTo(d, Parent(dir)) ensures UpTo(d, dir) {
        assert d == dir[..|d|];
      }
      forall d | UpTo(d, dir) && d != dir ensures UpTo(d, Parent(dir)) {
        assert d == Parent(dir)[..|d|];
      }
    } else {
      forall d | d in t.dirs && Over(d, dir) ensures !t.Empty(d) {
        var child := dir[..|d| + 1];
        DirectoriesExist(t, dir);
        assert child == dir || child in Above(dir);
        assert Parent(child) == d;
      }
    }
  }

  lemma OverParent(d: Path, path: Path)
    requires path != []
    ensures UpTo(d, Parent(path)) <==> Over(d, path)
  {
    if |d| < |path| {
      assert Parent(path)[..|d|] == path[..|d|];
    }
  }

  lemma RemovedBecame(t: Tree, gone: set<Path>, now: Tree, name: string)
    requires t.Valid() && Became(t, gone, now) && Removed(now, name).Some?
    ensures Became(t, gone + {Split(name)}, Removed(now, name).value)
  {
    var path, r := Split(name), Removed(now, name).value;
    var rest := Tree(now.files - {path}, now.dirs);
    PrunedOnTheWay(rest, Parent(path));
    forall d ensures Touched(d, gone + {path}) <==> Touched(d, gone) || Over(d, path) {
    }
    forall d ensures UpTo(d, Parent(path)) <==> Over(d, path) {
      OverParent(d, path);
    }
    hide Split, Pruned, Over, UpTo, Touched;
    forall d | d in r.dirs && Touched(d, gone) && !Over(d, path) ensures !r.Empty(d) {
      KeepsInhabited(now, path, r, d);
    }
  }

  lemma OverUpwards(e: Path, path: Path)
    requires e != []
    ensures Over(e, path) ==> Over(Parent(e), path)
  {
    if Over(e, path) {
      assert path[..|e| - 1] == e[..|e| - 1];
    }
  }

  /** A directory that is not on the way keeps what lies in it. */
  lemma KeepsInhabited(now: Tree, path: Path, r: Tree, d: Path)
    requires now.Valid() && r.Valid() && path != [] && r.files == now.files - {path}
    requires d in now.dirs && !now.Empty(d) && !Over(d, path)
    requires forall e :: e in now.dirs && e !in r.dirs ==> Over(e, path)
    ensures !r.Empty(d)
  {
    if p :| p in now.files && Parent(p) == d {
      assert p != path;
    } else {
      var e :| e in now.dirs && Parent(e) == d;
      OverUpwards(e, path);
    }
  }

  /** A directory that is still there holds a file that is not gone, or one below it is untouched. */
  lemma {:induction false} KeptIsNotCleared(t: Tree, gone: set<Path>, now: Tree, dir: Path, low: Path)
    requires t.Valid() && Became(t, gone, now) && low in now.dirs && UpTo(dir, low)
    ensures !Cleared(t, gone, dir)
    decreases set d | d in now.dirs && |d| >= |low|
  {
    if Touched(low, gone) {
      assert !now.Empty(low);
      if p :| p in now.files && Parent(p) == low {
        OverParent(dir, p);
      } else {
        var d :| d in now.dirs && Parent(d) == low;
        OverParent(dir, d);
        assert low in (set e | e in now.dirs && |e| >= |low|) - (set e | e in now.dirs && |e| >= |d|);
        KeptIsNotCleared(t, gone, now, dir, d);
      }
    }
  }

  lemma OverIsDirectory(now: Tree, dir: Path, path: Path)
    requires now.Valid() && dir != [] && Over(dir, path) && (path in now.files || path in now.dirs)
    ensures dir in now.dirs
  {
    DirectoriesExist(now, path);
    assert dir in Above(path);
  }

  /** The directories that are gone are those that have been cleared. */
  lemma GoneIffCleared(t: Tree, gone: set<Path>, now: Tree, dir: Path)
    requires t.Valid() && Became(t, gone, now) && dir in t.dirs
    ensures dir !in now.dirs <==> Cleared(t, gone, dir)
  {
    if dir in now.dirs {
      KeptIsNotCleared(t, gone, now, dir, dir);
    } else {
      forall p | p in t.files && Over(dir, p) ensures p in gone {
        if p in now.files {
          OverIsDirectory(now, dir, p);
        }
      }
      forall d | d in t.dirs && Over(dir, d) ensures Touched(d, gone) {
        if d in now.dirs {
          OverIsDirectory(now, dir, d);
        }
      }
    }
  }

  lemma {:induction false} RemovalFrom(t: Tree, names: seq<string>, k: nat, now: Tree)
    requires t.Valid() && k <= |names| && Became(t, AssetPaths(SetOf(names[..k])), now)
    ensures AllRemoved(now, names[k..]).Some? <==> forall i :: k <= i < |names| ==> DirectoryLasts(t, names, i)
    decreases |names| - k
  {
    hide Became, Cleared, AssetPaths, SetOf, Split, Removed;
    BecameValid(t, AssetPaths(SetOf(names[..k])), now);
    if k < |names| {
      var gone, dir := AssetPaths(SetOf(names[..k])), Parent(Split(names[k]));
      assert names[k..][0] == names[k] && names[k..][1..] == names[k + 1..];
      StepLasts(t, names, k, now);
      if Removed(now, names[k]).Some? {
        RemovedBecame(t, gone, now, names[k]);
        PathsStep(names, k);
        RemovalFrom(t, names, k + 1, Removed(now, names[k]).value);
      }
    }
  }

  lemma BecameValid(t: Tree, gone: set<Path>, now: Tree)
    requires Became(t, gone, now)
    ensures now.Valid()
  {
  }

  lemma StepLasts(t: Tree, names: seq<string>, k: nat, now: Tree)
    requires t.Valid() && k < |names| && Became(t, AssetPaths(SetOf(names[..k])), now)
    ensures Removed(now, names[k]).Some? <==> DirectoryLasts(t, names, k)
  {
    hide AssetPaths, SetOf, Split, Cleared;
    var gone, dir := AssetPaths(SetOf(names[..k])), Parent(Split(names[k]));
    if dir in t.dirs {
      GoneIffCleared(t, gone, now, dir);
    }
  }

  /** Removing the named assets one after the other succeeds exactly when the directory of each is there at the start
    * and is not cleared by those before it.
    */
  lemma RemovableIffDirectoriesLast(t: Tree, names: seq<string>)
    requires t.Valid()
    ensures AllRemoved(t, names).Some? <==> DirectoriesLast(t, names)
  {
    assert names[..0] == [] && names[0..] == names;
    assert AssetPaths(SetOf([])) == {};
    RemovalFrom(t, names, 0, t);
  }

  /** Files at the top level lie in no directory, so it does not matter which of them are there. */
  lemma PagesDoNotMatter(t: Tree, pages: set<string>, names: seq<string>)
    ensures DirectoriesLast(Tree(t.files - PagePaths(pages), t.dirs), names) <==> DirectoriesLast(t, names)
  {
    var u := Tree(t.files - PagePaths(pages), t.dirs);
    forall i | 0 <= i < |names| ensures DirectoryLasts(u, names, i) <==> DirectoryLasts(t, names, i) {
      var gone, dir := AssetPaths(SetOf(names[..i])), Parent(Split(names[i]));
      hide AssetPaths, SetOf, Split, Touched;
      if dir != [] {
        assert Cleared(u, gone, dir) <==> Cleared(t, gone, dir);
      }
    }
  }

  /** Recorded assets that are still there can always be removed. */
  lemma PresentCanBeRemoved(t: Tree, names: seq<string>)
    requires t.Valid() && !Repeats(names) && forall i :: 0 <= i < |names| ==> Split(names[i]) in t.files
    ensures AllRemoved(t, names).Some?
  {
    hide Split, AllRemoved;
    RemovableIffDirectoriesLast(t, names);
    forall i | 0 <= i < |names| ensures DirectoryLasts(t, names, i) {
      var path := Split(names[i]);
      OverParent(Parent(path), path);
      SplitIsInjective();
      assert path !in AssetPaths(SetOf(names[..i]));
    }
  }

  /** A recorded asset whose directory is gone from the start stops the run with an error of the operating system. */
  lemma MissingDirectoryStops(t: Tree, names: seq<string>, i: nat)
    requires t.Valid() && i < |names| && Parent(Split(names[i])) != [] && Parent(Split(names[i])) !in t.dirs
    ensures AllRemoved(t, names).None?
  {
    RemovableIffDirectoriesLast(t, names);
    assert !DirectoryLasts(t, names, i);
  }
}
