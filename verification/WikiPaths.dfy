/** Names and directory trees as `sync_wiki_docs` (scripts/sync_wiki_docs.py) sees them, below the wiki checkout. */
module WikiPaths {
  type Bytes = seq<int>

  /** The parts of a path below the checkout; [] is the checkout itself. */
  type Path = seq<string>

  /** `PurePosixPath(name).parts` for a relative name without empty parts */
  function Split(name: string): (r: Path)
    ensures |r| > 0
  {
    if name == "" then [""]
    else
      var rest := Split(name[1..]);
      if name[0] == '/' then [""] + rest else [[name[0]] + rest[0]] + rest[1..]
  }

  function Join(path: Path): string
    requires |path| > 0
  {
    if |path| == 1 then path[0] else path[0] + "/" + Join(path[1..])
  }

  lemma {:induction false} JoinAdds(c: char, path: Path)
    requires |path| > 0
    ensures Join([[c] + path[0]] + path[1..]) == [c] + Join(path)
  {
    if |path| > 1 {
      assert ([[c] + path[0]] + path[1..])[1..] == path[1..];
      assert [c] + path[0] + "/" + Join(path[1..]) == [c] + (path[0] + "/" + Join(path[1..]));
    }
  }

  lemma {:induction false} JoinSplit(name: string)
    ensures Join(Split(name)) == name
  {
    if name != "" {
      var rest := Split(name[1..]);
      JoinSplit(name[1..]);
      if name[0] == '/' {
        assert ([""] + rest)[1..] == rest;
        assert "" + "/" + Join(rest) == [name[0]] + name[1..];
      } else {
        JoinAdds(name[0], rest);
        assert [name[0]] + name[1..] == name;
      }
    }
  }

  /** Different names are different paths. */
  lemma SplitInjective(a: string, b: string)
    requires Split(a) == Split(b)
    ensures a == b
  {
    JoinSplit(a);
    JoinSplit(b);
  }

  function Parent(path: Path): Path
    requires path != []
  {
    path[..|path| - 1]
  }

  lemma SplitIsInjective()
    ensures forall a, b :: Split(a) == Split(b) ==> a == b
  {
    forall a, b | Split(a) == Split(b) ensures a == b {
      SplitInjective(a, b);
    }
  }

  function SetOf(values: seq<string>): set<string> {
    set x | x in values
  }

  function AssetPaths(names: set<string>): set<Path> {
    set n | n in names :: Split(n)
  }

  predicate Repeats(values: seq<string>) {
    exists i, j :: 0 <= i < j < |values| && values[i] == values[j]
  }

  /** The directories above a path, without the checkout. */
  function Above(path: Path): (r: set<Path>)
    ensures forall q :: q in r <==> exists k :: 0 < k < |path| && q == path[..k]
  {
    set k | 0 < k < |path| :: path[..k]
  }

  function PagePath(name: string): Path {
    [name]
  }

  function PagePaths(names: set<string>): set<Path> {
    set n | n in names :: PagePath(n)
  }

  lemma SetOfAppend(values: seq<string>, x: string)
    ensures SetOf(values + [x]) == SetOf(values) + {x}
  {
  }

  lemma PathsStep(names: seq<string>, i: nat)
    requires i < |names|
    ensures SetOf(names[..i + 1]) == SetOf(names[..i]) + {names[i]}
    ensures PagePaths(SetOf(names[..i + 1])) == PagePaths(SetOf(names[..i])) + {PagePath(names[i])}
    ensures AssetPaths(SetOf(names[..i + 1])) == AssetPaths(SetOf(names[..i])) + {Split(names[i])}
  {
    assert names[..i + 1] == names[..i] + [names[i]];
    SetOfAppend(names[..i], names[i]);
  }

  // ----- trees -----

  datatype Tree = Tree(files: map<Path, Bytes>, dirs: set<Path>) {
    /** Nothing is both a file and a directory, and everything lies in a directory. */
    ghost predicate Valid() {
      && [] !in files && [] !in dirs
      && (forall p :: p in files ==> p !in dirs && (Parent(p) == [] || Parent(p) in dirs))
      && (forall d :: d in dirs ==> Parent(d) == [] || Parent(d) in dirs)
    }

    predicate Empty(dir: Path)
      requires [] !in files && [] !in dirs
    {
      (forall p :: p in files ==> Parent(p) != dir) && (forall d :: d in dirs ==> Parent(d) != dir)
    }
  }

  /** The loop that removes a directory, and then those above it, as long as they are empty. */
  function Pruned(t: Tree, dir: Path): (r: Tree)
    requires t.Valid() && (dir == [] || dir in t.dirs)
    ensures r.Valid() && r.files == t.files && r.dirs <= t.dirs
    decreases |dir|
  {
    if dir == [] || !t.Empty(dir) then t
    else Pruned(Tree(t.files, t.dirs - {dir}), Parent(dir))
  }

  /** In a valid tree all directories above a file or directory are there. */
  lemma {:induction false} DirectoriesExist(t: Tree, path: Path)
    requires t.Valid() && path != [] && (path in t.files || path in t.dirs || Parent(path) in t.dirs)
    ensures Above(path) <= t.dirs
    decreases |path|
  {
    var up := Parent(path);
    if up != [] {
      assert up in t.dirs;
      DirectoriesExist(t, up);
      forall q | q in Above(path) ensures q in t.dirs {
        var k :| 0 < k < |path| && q == path[..k];
        if k < |up| {
          assert q == up[..k];
          assert q in Above(up);
        } else {
          assert q == up;
        }
      }
    }
  }
}
