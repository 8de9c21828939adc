/** The two `_publish_atomically` functions (scripts/docs_screenshots.py:553-604,
  * scripts/docs_terminal_capture.py:948-988) on a file system whose every operation may fail. A failed run puts back
  * what it replaced.
  */
module Publication {
  import opened Wrappers

  type Bytes = seq<int>

  datatype File = File(content: Bytes, mode: int)

  type Files = map<string, File>

  /** An image and the place where it is published. */
  datatype Item = Item(destination: string, image: Bytes)

  datatype Script = Screenshots | Terminal {
    /** The mode of a published file: set by one script, left as mkstemp made it by the other. */
    function PublishedMode(): int {
      if Screenshots? then 0x1A4 else 0x180
    }

    /** What becomes of a file when its previous state is put back; only one script restores the mode. */
    function Restored(previous: File, current: File): File {
      if Screenshots? then previous else File(previous.content, current.mode)
    }
  }

  // ----- what a run does to the files -----

  function Find(fs: Files, path: string): Option<File> {
    if path in fs then Some(fs[path]) else None
  }

  function Without(fs: Files, path: string): Files {
    map p | p in fs && p != path :: fs[p]
  }

  function Overwritten(fs: Files, items: seq<Item>, s: Script): Files {
    if items == [] then fs
    else
      var n := |items| - 1;
      Overwritten(fs, items[..n], s)[items[n].destination := File(items[n].image, s.PublishedMode())]
  }

  /** What was at each destination when it was last looked at. */
  function Backups(fs: Files, items: seq<Item>, s: Script): map<string, Option<File>> {
    if items == [] then map[]
    else
      var n := |items| - 1;
      Backups(fs, items[..n], s)[items[n].destination := Find(Overwritten(fs, items[..n], s), items[n].destination)]
  }

  function PutBack(fs: Files, path: string, previous: Option<File>, s: Script): Files {
    match previous
    case None => Without(fs, path)
    case Some(file) => fs[path := s.Restored(file, if path in fs then fs[path] else file)]
  }

  /** The rollback, which goes through the published items from the last to the first. */
  function RolledBack(fs: Files, published: seq<Item>, backups: map<string, Option<File>>, s: Script): Files
    requires forall i :: 0 <= i < |published| ==> published[i].destination in backups
    decreases |published|
  {
    if published == [] then fs
    else
      var n := |published| - 1;
      var path := published[n].destination;
      RolledBack(PutBack(fs, path, backups[path], s), published[..n], backups, s)
  }

  ghost predicate DistinctDestinations(items: seq<Item>) {
    forall i, j :: 0 <= i < j < |items| ==> items[i].destination != items[j].destination
  }

  // ----- rolling back -----

  lemma {:induction false} OverwrittenElsewhere(fs: Files, items: seq<Item>, s: Script, path: string)
    requires forall i :: 0 <= i < |items| ==> items[i].destination != path
    ensures Find(Overwritten(fs, items, s), path) == Find(fs, path)
  {
    if items != [] {
      OverwrittenElsewhere(fs, items[..|items| - 1], s, path);
    }
  }

  lemma {:induction false} BackupsKeys(fs: Files, items: seq<Item>, s: Script)
    ensures forall i :: 0 <= i < |items| ==> items[i].destination in Backups(fs, items, s)
  {
    if items != [] {
      BackupsKeys(fs, items[..|items| - 1], s);
    }
  }

  /** With distinct destinations a backup is what was there before the run. */
  lemma {:induction false} BackupIsOriginal(fs: Files, items: seq<Item>, s: Script, i: nat)
    requires DistinctDestinations(items) && i < |items|
    ensures items[i].destination in Backups(fs, items, s)
      && Backups(fs, items, s)[items[i].destination] == Find(fs, items[i].destination)
  {
    var n := |items| - 1;
    if i == n {
      OverwrittenElsewhere(fs, items[..n], s, items[n].destination);
    } else {
      assert items[..n][i] == items[i];
      BackupIsOriginal(fs, items[..n], s, i);
    }
  }

  /** The same files, up to the modes that the script does not put back. */
  ghost predicate Same(s: Script, before: Files, after: Files) {
    && after.Keys == before.Keys
    && forall p :: p in before ==>
      && after[p].content == before[p].content
      && (s.Screenshots? ==> after[p].mode == before[p].mode)
  }

  lemma PutBackLast(fs: Files, front: seq<Item>, item: Item, s: Script, previous: Option<File>)
    requires forall i :: 0 <= i < |front| ==> front[i].destination != item.destination
    requires previous == Find(fs, item.destination)
    ensures
      var now := Overwritten(fs, front, s);
      Same(s, now, PutBack(now[item.destination := File(item.image, s.PublishedMode())], item.destination, previous, s))
  {
    OverwrittenElsewhere(fs, front, s, item.destination);
  }

  lemma {:induction false} RolledBackSame(a: Files, b: Files, published: seq<Item>, backups: map<string, Option<File>>,
                                          s: Script)
    requires Same(s, a, b) && forall i :: 0 <= i < |published| ==> published[i].destination in backups
    ensures Same(s, RolledBack(a, published, backups, s), RolledBack(b, published, backups, s))
    decreases |published|
  {
    if published != [] {
      var n := |published| - 1;
      var path := published[n].destination;
      RolledBackSame(PutBack(a, path, backups[path], s), PutBack(b, path, backups[path], s), published[..n], backups,
        s);
    }
  }

  lemma SameTransitive(s: Script, a: Files, b: Files, c: Files)
    requires Same(s, a, b) && Same(s, b, c)
    ensures Same(s, a, c)
  {
  }

  /** With distinct destinations the rollback restores every file. */
  lemma {:induction false} RollbackRestores(fs: Files, published: seq<Item>, backups: map<string, Option<File>>,
                                            s: Script)
    requires DistinctDestinations(published)
    requires forall i :: 0 <= i < |published| ==>
      published[i].destination in backups && backups[published[i].destination] == Find(fs, published[i].destination)
    ensures Same(s, fs, RolledBack(Overwritten(fs, published, s), published, backups, s))
    decreases |published|
  {
    if published != [] {
      var n := |published| - 1;
      var front, item := published[..n], published[n];
      var now, path := Overwritten(fs, front, s), item.destination;
      PutBackLast(fs, front, item, s, backups[path]);
      var put := PutBack(now[path := File(item.image, s.PublishedMode())], path, backups[path], s);
      RolledBackSame(now, put, front, backups, s);
      RollbackRestores(fs, front, backups, s);
      SameTransitive(s, fs, RolledBack(now, front, backups, s), RolledBack(put, front, backups, s));
    }
  }

  // ----- where a run may stop -----

  /** How far a run came: the items replaced and listed as published, those replaced at all, and those backed up. */
  datatype Stop = Stop(published: nat, replaced: nat, backedUp: nat) {
    ghost predicate Possible(n: nat) {
      published <= replaced <= backedUp <= published + 1 && backedUp <= n
    }
  }

  function Destinations(items: seq<Item>): (r: seq<string>)
    ensures |r| == |items| && forall i :: 0 <= i < |r| ==> r[i] == items[i].destination
  {
    seq(|items|, i requires 0 <= i < |items| => items[i].destination)
  }

  lemma BackedUp(fs: Files, items: seq<Item>, s: Script, k: nat, n: nat)
    requires k <= n <= |items|
    ensures forall i :: 0 <= i < k ==> items[..k][i].destination in Backups(fs, items[..n], s)
  {
    BackupsKeys(fs, items[..n], s);
    assert forall i :: 0 <= i < k ==> items[..k][i] == items[..n][i];
  }

  /** The files after a failed run that stopped there. */
  function AfterFailure(fs: Files, items: seq<Item>, s: Script, stop: Stop): Files
    requires stop.Possible(|items|)
  {
    BackedUp(fs, items, s, stop.published, stop.backedUp);
    RolledBack(Overwritten(fs, items[..stop.replaced], s), items[..stop.published],
      Backups(fs, items[..stop.backedUp], s), s)
  }

  /** The files as they were, except for an image that was replaced and then not listed as published. */
  function LeftBy(fs: Files, items: seq<Item>, s: Script, stop: Stop): Files
    requires stop.Possible(|items|)
  {
    if stop.replaced == stop.published then fs
    else fs[items[stop.published].destination := File(items[stop.published].image, s.PublishedMode())]
  }

  /** A file at another place goes through the rollback as it is. */
  lemma {:induction false} RolledBackAround(fs: Files, published: seq<Item>, backups: map<string, Option<File>>,
                                            s: Script, path: string, file: File)
    requires forall i :: 0 <= i < |published| ==>
      published[i].destination in backups && published[i].destination != path
    ensures RolledBack(fs[path := file], published, backups, s) == RolledBack(fs, published, backups, s)[path := file]
    decreases |published|
  {
    if published != [] {
      var n := |published| - 1;
      var last := published[n].destination;
      var put := PutBack(fs, last, backups[last], s);
      assert PutBack(fs[path := file], last, backups[last], s) == put[path := file];
      RolledBackAround(put, published[..n], backups, s, path, file);
    }
  }

  /** With distinct destinations a failure anywhere leaves the files as they were, but for an image that was not listed.
    */
  lemma FailureRestores(fs: Files, items: seq<Item>, s: Script, stop: Stop)
    requires DistinctDestinations(items) && stop.Possible(|items|)
    ensures Same(s, LeftBy(fs, items, s, stop), AfterFailure(fs, items, s, stop))
  {
    hide RolledBack, Overwritten, Backups, Find, Same;
    var published, backups := items[..stop.published], Backups(fs, items[..stop.backedUp], s);
    BackedUp(fs, items, s, stop.published, stop.backedUp);
    forall i | 0 <= i < |published| ensures backups[published[i].destination] == Find(fs, published[i].destination) {
      BackupIsOriginal(fs, items[..stop.backedUp], s, i);
    }
    RollbackRestores(fs, published, backups, s);
    if stop.replaced > stop.published {
      ReplacedLast(fs, items, s, stop.published, backups);
      var last := items[stop.published];
      SameWith(s, fs, RolledBack(Overwritten(fs, published, s), published, backups, s), last.destination,
        File(last.image, s.PublishedMode()));
    }
  }

  lemma SameWith(s: Script, a: Files, b: Files, path: string, file: File)
    requires Same(s, a, b)
    ensures Same(s, a[path := file], b[path := file])
  {
  }

  lemma ReplacedLast(fs: Files, items: seq<Item>, s: Script, k: nat, backups: map<string, Option<File>>)
    requires DistinctDestinations(items) && k < |items|
      && forall i :: 0 <= i < k ==> items[..k][i].destination in backups
    ensures RolledBack(Overwritten(fs, items[..k + 1], s), items[..k], backups, s)
      == RolledBack(Overwritten(fs, items[..k], s), items[..k], backups, s)
           [items[k].destination := File(items[k].image, s.PublishedMode())]
  {
    assert items[..k + 1][..k] == items[..k];
    RolledBackAround(Overwritten(fs, items[..k], s), items[..k], backups, s, items[k].destination,
      File(items[k].image, s.PublishedMode()));
  }

  lemma {:induction false} StaysThere(fs: Files, published: seq<Item>, backups: map<string, Option<File>>, s: Script,
                                      path: string)
    requires forall i :: 0 <= i < |published| ==> published[i].destination in backups
    requires path in fs && path in backups && backups[path].Some?
    ensures path in RolledBack(fs, published, backups, s)
    decreases |published|
  {
    if published != [] {
      var n := |published| - 1;
      var last := published[n].destination;
      StaysThere(PutBack(fs, last, backups[last], s), published[..n], backups, s, path);
    }
  }

  lemma {:induction false} OverwrittenHas(fs: Files, items: seq<Item>, s: Script, i: nat)
    requires i < |items|
    ensures items[i].destination in Overwritten(fs, items, s)
  {
    var n := |items| - 1;
    if i < n {
      assert items[..n][i] == items[i];
      OverwrittenHas(fs, items[..n], s, i);
    }
  }

  /** When a destination comes a second time, its backup is the first image, and a failure right after leaves it there.
    */
  lemma RepetitionIsNotRestored(items: seq<Item>, s: Script, i: nat, j: nat)
    requires i < j < |items| && items[i].destination == items[j].destination
    ensures !Same(s, map[], AfterFailure(map[], items, s, Stop(j, j, j + 1)))
  {
    var path, published := items[j].destination, items[..j];
    var backups := Backups(map[], items[..j + 1], s);
    assert items[..j + 1][..j] == published && published[i] == items[i];
    OverwrittenHas(map[], published, s, i);
    assert backups[path].Some?;
    BackedUp(map[], items, s, j, j + 1);
    StaysThere(Overwritten(map[], published, s), published, backups, s, path);
  }

  /** Every failure, wherever it happens and whatever was there, leaves the files as they were, but for an image that
    * was not listed, exactly when no destination is repeated.
    */
  lemma RestoredIffDistinct(items: seq<Item>, s: Script)
    ensures DistinctDestinations(items) <==>
      forall fs: Files, stop: Stop :: stop.Possible(|items|) ==>
        Same(s, LeftBy(fs, items, s, stop), AfterFailure(fs, items, s, stop))
  {
    if DistinctDestinations(items) {
      forall fs: Files, stop: Stop | stop.Possible(|items|)
        ensures Same(s, LeftBy(fs, items, s, stop), AfterFailure(fs, items, s, stop))
      {
        FailureRestores(fs, items, s, stop);
      }
    } else {
      var i, j :| 0 <= i < j < |items| && items[i].destination == items[j].destination;
      RepetitionIsNotRestored(items, s, i, j);
      assert Stop(j, j, j + 1).Possible(|items|) && LeftBy(map[], items, s, Stop(j, j, j + 1)) == map[];
    }
  }

  /** Files that no item names are never touched. */
  lemma {:induction false} OthersUntouched(fs: Files, published: seq<Item>, backups: map<string, Option<File>>,
                                           s: Script, path: string)
    requires forall i :: 0 <= i < |published| ==>
      published[i].destination in backups && published[i].destination != path
    ensures Find(RolledBack(fs, published, backups, s), path) == Find(fs, path)
    decreases |published|
  {
    if published != [] {
      var n := |published| - 1;
      var last := published[n].destination;
      OthersUntouched(PutBack(fs, last, backups[last], s), published[..n], backups, s, path);
    }
  }

  /** The terminal script leaves every file that it put back with the mode of a temporary file. */
  lemma {:induction false} TerminalLosesModes(fs: Files, published: seq<Item>, backups: map<string, Option<File>>,
                                              i: nat)
    requires DistinctDestinations(published) && i < |published|
    requires forall k :: 0 <= k < |published| ==>
      published[k].destination in backups && backups[published[k].destination] == Find(fs, published[k].destination)
    requires published[i].destination in fs
    ensures
      var after := RolledBack(Overwritten(fs, published, Terminal), published, backups, Terminal);
      published[i].destination in after && after[published[i].destination].mode == Terminal.PublishedMode()
    decreases |published|
  {
    var n := |published| - 1;
    var front, path, last := published[..n], published[i].destination, published[n].destination;
    var put := PutBack(Overwritten(fs, published, Terminal), last, backups[last], Terminal);
    if i == n {
      OthersUntouched(put, front, backups, Terminal, path);
    } else {
      PublishedMode(fs, published, i);
      ModeStays(put, front, backups, path, Terminal.PublishedMode());
    }
  }

  /** So a failed run of it restores the modes too exactly when the files that it had replaced have that mode anyway. */
  lemma TerminalRestoresIff(fs: Files, items: seq<Item>, stop: Stop)
    requires DistinctDestinations(items) && stop.Possible(|items|) && stop.replaced == stop.published
    ensures AfterFailure(fs, items, Terminal, stop) == fs <==>
      forall i :: 0 <= i < stop.published && items[i].destination in fs ==>
        fs[items[i].destination].mode == Terminal.PublishedMode()
  {
    hide RolledBack, Overwritten, Backups, AfterFailure;
    var after := AfterFailure(fs, items, Terminal, stop);
    FailureRestores(fs, items, Terminal, stop);
    forall i | 0 <= i < stop.published && items[i].destination in fs
      ensures after[items[i].destination].mode == Terminal.PublishedMode()
    {
      PutBackMode(fs, items, stop, i);
    }
    if forall i :: 0 <= i < stop.published && items[i].destination in fs ==>
      fs[items[i].destination].mode == Terminal.PublishedMode()
    {
      forall p | p in fs ensures after[p] == fs[p] {
        if forall i :: 0 <= i < stop.published ==> items[i].destination != p {
          NotPutBack(fs, items, stop, p);
        }
      }
    }
  }

  lemma PutBackMode(fs: Files, items: seq<Item>, stop: Stop, i: nat)
    requires DistinctDestinations(items) && stop.Possible(|items|) && stop.replaced == stop.published
    requires i < stop.published && items[i].destination in fs
    ensures
      var after := AfterFailure(fs, items, Terminal, stop);
      items[i].destination in after && after[items[i].destination].mode == Terminal.PublishedMode()
  {
    hide RolledBack, Overwritten, Backups, Find;
    var published, backups := items[..stop.published], Backups(fs, items[..stop.backedUp], Terminal);
    BackedUp(fs, items, Terminal, stop.published, stop.backedUp);
    forall k | 0 <= k < |published| ensures backups[published[k].destination] == Find(fs, published[k].destination) {
      BackupIsOriginal(fs, items[..stop.backedUp], Terminal, k);
    }
    TerminalLosesModes(fs, published, backups, i);
  }

  lemma NotPutBack(fs: Files, items: seq<Item>, stop: Stop, path: string)
    requires stop.Possible(|items|) && stop.replaced == stop.published
    requires forall i :: 0 <= i < stop.published ==> items[i].destination != path
    ensures Find(AfterFailure(fs, items, Terminal, stop), path) == Find(fs, path)
  {
    hide RolledBack, Overwritten, Backups, Find;
    var published := items[..stop.published];
    BackedUp(fs, items, Terminal, stop.published, stop.backedUp);
    OverwrittenElsewhere(fs, published, Terminal, path);
    OthersUntouched(Overwritten(fs, published, Terminal), published, Backups(fs, items[..stop.backedUp], Terminal),
      Terminal, path);
  }

  lemma {:induction false} PublishedMode(fs: Files, items: seq<Item>, i: nat)
    requires i < |items|
    ensures items[i].destination in Overwritten(fs, items, Terminal)
    ensures Overwritten(fs, items, Terminal)[items[i].destination].mode == Terminal.PublishedMode()
  {
    var n := |items| - 1;
    if i < n {
      assert items[..n][i] == items[i];
      PublishedMode(fs, items[..n], i);
    }
  }

  lemma {:induction false} ModeStays(fs: Files, published: seq<Item>, backups: map<string, Option<File>>, path: string,
                                     mode: int)
    requires forall i :: 0 <= i < |published| ==> published[i].destination in backups
    requires path in fs && fs[path].mode == mode && path in backups && backups[path].Some?
    ensures path in RolledBack(fs, published, backups, Terminal)
      && RolledBack(fs, published, backups, Terminal)[path].mode == mode
    decreases |published|
  {
    if published != [] {
      var n := |published| - 1;
      var last := published[n].destination;
      ModeStays(PutBack(fs, last, backups[last], Terminal), published[..n], backups, path, mode);
    }
  }

  /** When removing the temporary file fails after the replacement, that one image stays published. */
  lemma ImageStays(fs: Files, items: seq<Item>, s: Script, k: nat)
    requires DistinctDestinations(items) && k < |items|
    ensures Find(AfterFailure(fs, items, s, Stop(k, k + 1, k + 1)), items[k].destination)
      == Some(File(items[k].image, s.PublishedMode()))
  {
    var now := Overwritten(fs, items[..k + 1], s);
    assert items[..k + 1][..k] == items[..k];
    BackedUp(fs, items, s, k, k + 1);
    OthersUntouched(now, items[..k], Backups(fs, items[..k + 1], s), s, items[k].destination);
  }

  /** Of the files that a run has published, each holds the last image for its place, with the mode that the script
    * gives it: readable by all for screenshots, by the owner for recordings of the terminal.
    */
  lemma {:induction false} PublishedFiles(fs: Files, items: seq<Item>, s: Script, i: nat)
    requires i < |items| && forall j :: i < j < |items| ==> items[j].destination != items[i].destination
    ensures Find(Overwritten(fs, items, s), items[i].destination)
      == Some(File(items[i].image, if s.Screenshots? then 6 * 64 + 4 * 8 + 4 else 6 * 64))
  {
    var n := |items| - 1;
    if i < n {
      assert items[..n][i] == items[i];
      PublishedFiles(fs, items[..n], s, i);
    }
  }

  // ----- the runs -----

  datatype Operation =
    | MakeDirectory | Inspect | ReadBackup | MakeTemporary | WriteTemporary | SetMode | Replace | Unlink | Restore

  /** Which operations of a run fail, by the item they are for. */
  type Faults = (nat, Operation) -> bool

  ghost predicate Never(faults: Faults, op: Operation) {
    forall i: nat :: !faults(i, op)
  }

  /** Nothing keeps item i from being published. */
  ghost predicate Unhindered(fs: Files, items: seq<Item>, s: Script, faults: Faults, blocked: set<string>, i: nat)
    requires i < |items|
  {
    && !faults(i, MakeDirectory) && !faults(i, Inspect) && items[i].destination !in blocked
    && !(faults(i, ReadBackup) && items[i].destination in Overwritten(fs, items[..i], s))
    && !faults(i, MakeTemporary) && !faults(i, WriteTemporary) && !(s.Screenshots? && faults(i, SetMode))
      && !faults(i, Replace)
    && !faults(i, Unlink)
  }

  class FileSystem {
    var files: Files
    /** The temporary file in use, and those that could not be removed. */
    var temporary: Option<File>
    var leftBehind: seq<File>
    /** Paths that hold something other than a regular file. */
    const blocked: set<string>

    constructor (found: Files, occupied: set<string>)
      ensures files == found && temporary == None && leftBehind == [] && blocked == occupied
    {
      files, temporary, leftBehind, blocked := found, None, [], occupied;
    }

    /** The `try` block around the temporary file. */
    method Fill(item: Item, s: Script, faults: Faults, i: nat) returns (ok: bool)
      modifies this
      ensures ok <==> !faults(i, WriteTemporary) && !(s.Screenshots? && faults(i, SetMode)) && !faults(i, Replace)
      ensures leftBehind == old(leftBehind) && (ok ==> temporary == None)
      ensures files == if ok then old(files)[item.destination := File(item.image, s.PublishedMode())] else old(files)
    {
      if faults(i, WriteTemporary) {
        return false;
      }
      var staged := File(item.image, 0x180);
      temporary := Some(staged);
      if s.Screenshots? {
        if faults(i, SetMode) {
          return false;
        }
        staged := File(item.image, 0x1A4);
        temporary := Some(staged);
      }
      if faults(i, Replace) {
        return false;
      }
      files := files[item.destination := staged];
      temporary := None;
      ok := true;
    }

    /** One item, from its temporary file to the `finally` that removes it. Only removing it can leave it behind. */
    method Stage(item: Item, s: Script, faults: Faults, i: nat) returns (replaced: bool, ok: bool)
      requires temporary == None
      modifies this
      ensures replaced <==>
        !faults(i, MakeTemporary) && !faults(i, WriteTemporary) && !(s.Screenshots? && faults(i, SetMode))
          && !faults(i, Replace)
      ensures ok <==> replaced && !faults(i, Unlink)
      ensures temporary == None && (!faults(i, Unlink) || replaced ==> leftBehind == old(leftBehind))
      ensures files == if replaced then old(files)[item.destination := File(item.image, s.PublishedMode())]
        else old(files)
    {
      if faults(i, MakeTemporary) {
        return false, false;
      }
      temporary := Some(File([], 0x180));
      replaced := Fill(item, s, faults, i);
      ok := replaced;
      if faults(i, Unlink) {
        if temporary.Some? {
          leftBehind := leftBehind + [temporary.value];
        }
        ok := false;
      }
      temporary := None;
    }

    /** The `try` block of a run. */
    method PublishEach(items: seq<Item>, s: Script, faults: Faults)
      returns (ok: bool, published: nat, backups: map<string, Option<File>>, ghost stop: Stop)
      requires temporary == None
      modifies this
      ensures temporary == None && stop.Possible(|items|) && published == stop.published
      ensures backups == Backups(old(files), items[..stop.backedUp], s)
      ensures files == Overwritten(old(files), items[..stop.replaced], s)
      ensures ok <==> forall i :: 0 <= i < |items| ==> Unhindered(old(files), items, s, faults, blocked, i)
      ensures ok ==> published == |items|
      ensures Never(faults, Unlink) ==> stop.replaced == stop.published && leftBehind == old(leftBehind)
      ensures ok ==> leftBehind == old(leftBehind)
    {
      backups := map[];
      for i := 0 to |items|
        invariant temporary == None && leftBehind == old(leftBehind)
        invariant files == Overwritten(old(files), items[..i], s) && backups == Backups(old(files), items[..i], s)
        invariant forall k :: 0 <= k < i ==> Unhindered(old(files), items, s, faults, blocked, k)
      {
        var item := items[i];
        published, stop := i, Stop(i, i, i);
        assert items[..i + 1][..i] == items[..i];
        if faults(i, MakeDirectory) || faults(i, Inspect) || item.destination in blocked {
          assert !Unhindered(old(files), items, s, faults, blocked, i);
          return false, published, backups, stop;
        }
        if item.destination in files && faults(i, ReadBackup) {
          assert !Unhindered(old(files), items, s, faults, blocked, i);
          return false, published, backups, stop;
        }
        backups := backups[item.destination := Find(files, item.destination)];
        var replaced, staged := Stage(item, s, faults, i);
        if !staged {
          assert !Unhindered(old(files), items, s, faults, blocked, i);
          stop := Stop(i, if replaced then i + 1 else i, i + 1);
          return false, published, backups, stop;
        }
      }
      assert items[..|items|] == items;
      ok, published, stop := true, |items|, Stop(|items|, |items|, |items|);
    }

    /** The `except` block of a run. */
    method RollBack(items: seq<Item>, published: nat, backups: map<string, Option<File>>, s: Script, faults: Faults)
      requires published <= |items| && forall i :: 0 <= i < published ==> items[i].destination in backups
      modifies `files
      ensures Never(faults, Restore) ==> files == RolledBack(old(files), items[..published], backups, s)
      ensures forall p :: (forall i :: 0 <= i < published ==> items[i].destination != p) ==>
        Find(files, p) == Find(old(files), p)
    {
      var i := published;
      while i > 0
        invariant 0 <= i <= published
        invariant Never(faults, Restore) ==>
          RolledBack(files, items[..i], backups, s) == RolledBack(old(files), items[..published], backups, s)
        invariant forall p :: (forall k :: 0 <= k < published ==> items[k].destination != p) ==>
          Find(files, p) == Find(old(files), p)
      {
        i := i - 1;
        assert items[..i + 1][..i] == items[..i] && items[..i + 1][i] == items[i];
        if faults(i, Restore) {
          return;
        }
        files := PutBack(files, items[i].destination, backups[items[i].destination], s);
      }
    }

    /** `_publish_atomically`; the screenshot script validates the published files as a last step. A run that succeeds
      * has published every image; one that fails has restored every file, provided that the destinations are distinct
      * and that backups can be written back, except that one image stays when its temporary file cannot be removed
      * after the replacement. Other files are never touched.
      */
    method Publish(items: seq<Item>, s: Script, faults: Faults, valid: bool) returns (r: Option<seq<string>>)
      requires temporary == None
      modifies this
      ensures temporary == None
      ensures r.Some? <==>
        (forall i :: 0 <= i < |items| ==> Unhindered(old(files), items, s, faults, blocked, i))
          && (s.Screenshots? ==> valid)
      ensures r.Some? ==>
        && r.value == Destinations(items) && files == Overwritten(old(files), items, s)
        && leftBehind == old(leftBehind)
      ensures r.None? && Never(faults, Unlink) ==> leftBehind == old(leftBehind)
      ensures r.None? && Never(faults, Restore) ==> exists stop: Stop ::
        && stop.Possible(|items|) && (Never(faults, Unlink) ==> stop.replaced == stop.published)
        && files == AfterFailure(old(files), items, s, stop)
        && (DistinctDestinations(items) ==> Same(s, LeftBy(old(files), items, s, stop), files))
      ensures r.None? && Never(faults, Unlink) && Never(faults, Restore) && DistinctDestinations(items) ==>
        Same(s, old(files), files)
      ensures forall p :: p !in Destinations(items) ==> Find(files, p) == Find(old(files), p)
    {
      var ok, published, backups;
      ghost var stop;
      ok, published, backups, stop := PublishEach(items, s, faults);
      BackedUp(old(files), items, s, stop.published, stop.backedUp);
      assert forall i :: 0 <= i < published ==> items[..published][i] == items[i];
      forall p | p !in Destinations(items) ensures Find(files, p) == Find(old(files), p) {
        NotDestination(items, p);
        OverwrittenElsewhere(old(files), items[..stop.replaced], s, p);
      }
      if ok && (s.Screenshots? ==> valid) {
        assert items[..|items|] == items;
        return Some(Destinations(items));
      }
      label Failed:
      RollBack(items, published, backups, s, faults);
      forall p | p !in Destinations(items) ensures Find(files, p) == Find(old(files), p) {
        NotDestination(items, p);
      }
      if Never(faults, Restore) {
        assert files == AfterFailure(old(files), items, s, stop);
        if DistinctDestinations(items) {
          FailureRestores(old(files), items, s, stop);
        }
      }
      r := None;
    }
  }

  lemma NotDestination(items: seq<Item>, path: string)
    requires path !in Destinations(items)
    ensures forall i :: 0 <= i < |items| ==> items[i].destination != path
  {
    forall i | 0 <= i < |items| ensures items[i].destination != path {
      assert Destinations(items)[i] == items[i].destination;
    }
  }
}
