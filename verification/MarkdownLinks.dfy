/** `rewrite_markdown_link_destinations` over the lines of a document (scripts/rewrite_wiki_links.py:14, 112-157), and
  * the callback of the wiki (scripts/rewrite_wiki_links.py:15, 18-31).
  */
module MarkdownLinks {
  import opened LinkRewriter
  import opened Wrappers

  // ----- lines -----

  /** The characters at which `str.splitlines` ends a line. */
  predicate IsLineBreak(c: char) {
    c == '\n' || c == '\r' || c == '\U{b}' || c == '\U{c}' || c == '\U{1c}' || c == '\U{1d}' || c == '\U{1e}'
      || c == '\U{85}'
    || c == '\U{2028}' || c == '\U{2029}'
  }

  function LineLength(s: string): (n: nat)
    requires s != ""
    ensures 0 < n <= |s|
  {
    if IsLineBreak(s[0]) then (if s[0] == '\r' && |s| > 1 && s[1] == '\n' then 2 else 1)
    else if |s| == 1 then 1
    else 1 + LineLength(s[1..])
  }

  /** `splitlines(keepends=True)` */
  function Lines(s: string): (r: seq<string>)
    ensures forall i :: 0 <= i < |r| ==> r[i] != ""
  {
    if s == "" then [] else [s[..LineLength(s)]] + Lines(s[LineLength(s)..])
  }

  function Joined(lines: seq<string>): string {
    if lines == [] then "" else lines[0] + Joined(lines[1..])
  }

  lemma {:induction false} LinesJoin(s: string)
    ensures Joined(Lines(s)) == s
    decreases |s|
  {
    if s != "" {
      LinesJoin(s[LineLength(s)..]);
      assert s[..LineLength(s)] + s[LineLength(s)..] == s;
    }
  }

  lemma {:induction false} JoinedAppend(a: seq<string>, b: seq<string>)
    ensures Joined(a + b) == Joined(a) + Joined(b)
  {
    if a == [] {
      assert a + b == b;
    } else {
      assert (a + b)[0] == a[0] && (a + b)[1..] == a[1..] + b;
      JoinedAppend(a[1..], b);
    }
  }

  // ----- fences -----

  datatype Marker = Marker(c: char, length: nat)

  /** How often c stands in a row at the start. */
  function Run(s: string, c: char): nat {
    if s != "" && s[0] == c then 1 + Run(s[1..], c) else 0
  }

  /** `_FENCE.match` */
  function Fence(line: string): Option<Marker> {
    var indent := Run(line, ' ');
    if indent > 3 || indent >= |line| then None
    else
      var c := line[indent];
      if (c == '`' || c == '~') && Run(line[indent..], c) >= 3 then Some(Marker(c, Run(line[indent..], c))) else None
  }

  /** The fence that is open after a line. */
  function After(line: string, open: Option<Marker>): Option<Marker> {
    match open
    case None => Fence(line)
    case Some(marker) =>
      if Fence(line).Some? && Fence(line).value.c == marker.c && Fence(line).value.length >= marker.length then None
        else open
  }

  function OpenBefore(lines: seq<string>, k: nat): Option<Marker>
    requires k <= |lines|
  {
    if k == 0 then None else After(lines[k - 1], OpenBefore(lines, k - 1))
  }

  predicate Blank(line: string, syntax: Syntax) {
    forall i :: 0 <= i < |line| ==> syntax.space(line[i])
  }

  predicate OutsideNow(line: string, open: Option<Marker>, syntax: Syntax) {
    open.None? && Fence(line).None? && !Blank(line, syntax)
  }

  /** Neither in a fence nor the beginning of one, and not blank. */
  predicate Outside(lines: seq<string>, k: nat, syntax: Syntax)
    requires k < |lines|
  {
    OutsideNow(lines[k], OpenBefore(lines, k), syntax)
  }

  // ----- the blocks of a document -----

  /** Consecutive lines that are rewritten together, or one line that is copied. */
  datatype Block = Rewritten(from: nat, to: nat) | Copied(at: nat)

  function Flushed(start: nat, k: nat): seq<Block> {
    if start == k then [] else [Rewritten(start, k)]
  }

  /** The blocks from line k on, when those from `start` on are waiting. */
  function Blocks(lines: seq<string>, k: nat, start: nat, open: Option<Marker>, syntax: Syntax): seq<Block>
    requires start <= k <= |lines|
    decreases |lines| - k
  {
    if k == |lines| then Flushed(start, k)
    else if OutsideNow(lines[k], open, syntax) then Blocks(lines, k + 1, start, open, syntax)
    else Flushed(start, k) + [Copied(k)] + Blocks(lines, k + 1, k + 1, After(lines[k], open), syntax)
  }

  predicate InRange(block: Block, lines: seq<string>) {
    match block
    case Rewritten(from, to) => from < to <= |lines|
    case Copied(at) => at < |lines|
  }

  ghost predicate AllInRange(blocks: seq<Block>, lines: seq<string>) {
    forall i :: 0 <= i < |blocks| ==> InRange(blocks[i], lines)
  }

  function BlockPieces(block: Block, lines: seq<string>, syntax: Syntax, images: bool): seq<Piece>
    requires InRange(block, lines) && syntax.Fine()
  {
    match block
    case Copied(at) => [Text(lines[at])]
    case Rewritten(from, to) =>
      var text := Joined(lines[from..to]);
      SpansOf(text, syntax);
      FragmentPieces(text, 0, syntax.spans(text), images)
  }

  lemma SpansOf(text: string, syntax: Syntax)
    requires syntax.Fine()
    ensures SpansFine(text, syntax.spans(text)) && Apart(syntax.spans(text))
  {
    forall k | k in syntax.spans(text) ensures k < syntax.spans(text)[k] <= |text| {
    }
  }

  function PiecesOf(blocks: seq<Block>, lines: seq<string>, syntax: Syntax, images: bool): seq<Piece>
    requires AllInRange(blocks, lines) && syntax.Fine()
  {
    if blocks == [] then []
    else BlockPieces(blocks[0], lines, syntax, images) + PiecesOf(blocks[1..], lines, syntax, images)
  }

  // ----- every line is in one block, and only outside lines are rewritten -----

  /** The blocks cover the lines from `from` on one after the other; a line is in a rewritten block exactly when it is
    * outside.
    */
  predicate Covers(blocks: seq<Block>, from: nat, lines: seq<string>, syntax: Syntax) {
    if blocks == [] then from == |lines|
    else
      match blocks[0]
      case Copied(at) => at == from < |lines| && !Outside(lines, at, syntax)
        && Covers(blocks[1..], from + 1, lines, syntax)
      case Rewritten(first, to) =>
        first == from < to <= |lines| && (forall i :: from <= i < to ==> Outside(lines, i, syntax))
          && Covers(blocks[1..], to, lines, syntax)
  }

  lemma CoversCopied(rest: seq<Block>, k: nat, lines: seq<string>, syntax: Syntax)
    requires k < |lines| && !Outside(lines, k, syntax) && Covers(rest, k + 1, lines, syntax)
    ensures Covers([Copied(k)] + rest, k, lines, syntax)
  {
    hide Outside;
    assert ([Copied(k)] + rest)[1..] == rest;
  }

  lemma CoversFlushed(rest: seq<Block>, start: nat, k: nat, lines: seq<string>, syntax: Syntax)
    requires start <= k <= |lines| && (forall i :: start <= i < k ==> Outside(lines, i, syntax))
      && Covers(rest, k, lines, syntax)
    ensures Covers(Flushed(start, k) + rest, start, lines, syntax)
  {
    hide Outside;
    if start < k {
      assert ([Rewritten(start, k)] + rest)[1..] == rest;
    } else {
      assert Flushed(start, k) + rest == rest;
    }
  }

  lemma {:induction false} BlocksCover(lines: seq<string>, k: nat, start: nat, syntax: Syntax)
    requires start <= k <= |lines| && forall i :: start <= i < k ==> Outside(lines, i, syntax)
    ensures Covers(Blocks(lines, k, start, OpenBefore(lines, k), syntax), start, lines, syntax)
    decreases |lines| - k
  {
    hide Fence, Blank, Covers, After, Flushed;
    var open := OpenBefore(lines, k);
    if k == |lines| {
      NothingToCover(lines, syntax);
      CoversFlushed([], start, k, lines, syntax);
      assert Flushed(start, k) + [] == Flushed(start, k);
    } else if OutsideNow(lines[k], open, syntax) {
      assert Outside(lines, k, syntax);
      OpenStays(lines, k, syntax);
      BlocksCover(lines, k + 1, start, syntax);
    } else {
      BlocksCover(lines, k + 1, k + 1, syntax);
      var rest := Blocks(lines, k + 1, k + 1, After(lines[k], open), syntax);
      assert OpenBefore(lines, k + 1) == After(lines[k], open);
      CoversCopied(rest, k, lines, syntax);
      CoversFlushed([Copied(k)] + rest, start, k, lines, syntax);
      assert Flushed(start, k) + [Copied(k)] + rest == Flushed(start, k) + ([Copied(k)] + rest);
    }
  }

  lemma NothingToCover(lines: seq<string>, syntax: Syntax)
    ensures Covers([], |lines|, lines, syntax)
  {
  }

  lemma OpenStays(lines: seq<string>, k: nat, syntax: Syntax)
    requires k < |lines| && Outside(lines, k, syntax)
    ensures OpenBefore(lines, k + 1) == OpenBefore(lines, k)
  {
  }

  lemma {:induction false} CoversInRange(blocks: seq<Block>, from: nat, lines: seq<string>, syntax: Syntax)
    requires Covers(blocks, from, lines, syntax)
    ensures AllInRange(blocks, lines)
  {
    hide Outside;
    if blocks != [] {
      var next := match blocks[0] case Copied(at) => from + 1 case Rewritten(_, to) => to;
      CoversInRange(blocks[1..], next, lines, syntax);
    }
  }

  function DocumentBlocks(markdown: string, syntax: Syntax): (r: seq<Block>)
    ensures Covers(r, 0, Lines(markdown), syntax) && AllInRange(r, Lines(markdown))
  {
    var lines := Lines(markdown);
    BlocksCover(lines, 0, 0, syntax);
    CoversInRange(Blocks(lines, 0, 0, None, syntax), 0, lines, syntax);
    Blocks(lines, 0, 0, None, syntax)
  }

  /** The pieces of a document: of its blocks, one after the other. No callback can change them. */
  function DocumentPieces(markdown: string, syntax: Syntax, images: bool): seq<Piece>
    requires syntax.Fine()
  {
    PiecesOf(DocumentBlocks(markdown, syntax), Lines(markdown), syntax, images)
  }

  // ----- the loop -----

  lemma {:induction false} PiecesAppend(a: seq<Block>, b: seq<Block>, lines: seq<string>, syntax: Syntax, images: bool)
    requires AllInRange(a, lines) && AllInRange(b, lines) && syntax.Fine()
    ensures AllInRange(a + b, lines)
    ensures PiecesOf(a + b, lines, syntax, images) == PiecesOf(a, lines, syntax, images) +
      PiecesOf(b, lines, syntax, images)
  {
    hide BlockPieces, InRange, Syntax.Fine;
    if a == [] {
      assert a + b == b;
    } else {
      assert (a + b)[0] == a[0] && (a + b)[1..] == a[1..] + b;
      PiecesAppend(a[1..], b, lines, syntax, images);
    }
  }

  lemma {:induction false} BlocksInRange(lines: seq<string>, k: nat, start: nat, open: Option<Marker>, syntax: Syntax)
    requires start <= k <= |lines|
    ensures AllInRange(Blocks(lines, k, start, open, syntax), lines)
    decreases |lines| - k
  {
    hide OutsideNow, After;
    if k < |lines| {
      if OutsideNow(lines[k], open, syntax) {
        BlocksInRange(lines, k + 1, start, open, syntax);
      } else {
        BlocksInRange(lines, k + 1, k + 1, After(lines[k], open), syntax);
      }
    }
  }

  /** What is left to do for the loop at line k. */
  function Rest(lines: seq<string>, k: nat, start: nat, open: Option<Marker>, syntax: Syntax, images: bool): seq<Piece>
    requires start <= k <= |lines| && syntax.Fine()
  {
    BlocksInRange(lines, k, start, open, syntax);
    PiecesOf(Blocks(lines, k, start, open, syntax), lines, syntax, images)
  }

  function FlushedPieces(lines: seq<string>, start: nat, k: nat, syntax: Syntax, images: bool): seq<Piece>
    requires start <= k <= |lines| && syntax.Fine()
  {
    if start == k then [] else BlockPieces(Rewritten(start, k), lines, syntax, images)
  }

  lemma FlushedIs(lines: seq<string>, start: nat, k: nat, syntax: Syntax, images: bool)
    requires start <= k <= |lines| && syntax.Fine()
    ensures AllInRange(Flushed(start, k), lines)
    ensures PiecesOf(Flushed(start, k), lines, syntax, images) == FlushedPieces(lines, start, k, syntax, images)
  {
    hide BlockPieces, Syntax.Fine;
    assert start < k ==> Flushed(start, k)[1..] == [];
  }

  lemma CopiedIs(lines: seq<string>, k: nat, syntax: Syntax, images: bool)
    requires k < |lines| && syntax.Fine()
    ensures PiecesOf([Copied(k)], lines, syntax, images) == [Text(lines[k])]
  {
    hide Syntax.Fine;
    assert [Copied(k)][1..] == [];
    assert PiecesOf([Copied(k)][1..], lines, syntax, images) == [];
  }

  /** One line that is copied: first what was waiting, then the line. */
  lemma RestUnfolds(lines: seq<string>, k: nat, start: nat, open: Option<Marker>, syntax: Syntax, images: bool)
    requires start <= k < |lines| && syntax.Fine() && !OutsideNow(lines[k], open, syntax)
    ensures Rest(lines, k, start, open, syntax, images) ==
      FlushedPieces(lines, start, k, syntax, images) + [Text(lines[k])] +
        Rest(lines, k + 1, k + 1, After(lines[k], open), syntax, images)
  {
    var tail := Blocks(lines, k + 1, k + 1, After(lines[k], open), syntax);
    BlocksInRange(lines, k + 1, k + 1, After(lines[k], open), syntax);
    FlushedIs(lines, start, k, syntax, images);
    CopiedIs(lines, k, syntax, images);
    PiecesAppend(Flushed(start, k), [Copied(k)], lines, syntax, images);
    PiecesAppend(Flushed(start, k) + [Copied(k)], tail, lines, syntax, images);
    hide FlushedPieces, PiecesOf, OutsideNow, After, Syntax.Fine, Flushed;
  }

  /** The lines from `start` up to k wait for their block to end. */
  ghost predicate Waiting(waiting: seq<string>, lines: seq<string>, start: nat, k: nat)
    requires start <= k <= |lines|
  {
    waiting == lines[start..k]
  }

  lemma WaitingStep(waiting: seq<string>, lines: seq<string>, start: nat, k: nat)
    requires start <= k < |lines|
    ensures Waiting(waiting, lines, start, k) ==> Waiting(waiting + [lines[k]], lines, start, k + 1)
    ensures Waiting([], lines, k + 1, k + 1)
  {
  }

  /** `flush_outside_fence` */
  method Flush(lines: seq<string>, ghost start: nat, ghost k: nat, waiting: seq<string>, f: string -> string,
               syntax: Syntax, images: bool)
    returns (out: string, calls: seq<string>)
    requires start <= k <= |lines| && syntax.Fine() && Waiting(waiting, lines, start, k)
    ensures out == Render(FlushedPieces(lines, start, k, syntax, images), f)
    ensures calls == Destinations(FlushedPieces(lines, start, k, syntax, images))
  {
    if waiting == [] {
      return "", [];
    }
    var text := Joined(waiting);
    SpansOf(text, syntax);
    hide Syntax.Fine, FragmentPieces;
    out, calls := RewriteFragment(text, f, syntax.spans(text), images);
  }

  /** `rewrite_markdown_link_destinations`, with the calls of the callback in their order. */
  method Rewrite(markdown: string, f: string -> string, syntax: Syntax, images: bool)
    returns (out: string, calls: seq<string>)
    requires syntax.Fine()
    ensures out == Render(DocumentPieces(markdown, syntax, images), f)
    ensures calls == Destinations(DocumentPieces(markdown, syntax, images))
  {
    var lines := Lines(markdown);
    ghost var whole := DocumentPieces(markdown, syntax, images);
    assert Rest(lines, 0, 0, None, syntax, images) == whole && Waiting([], lines, 0, 0);
    NothingDone(Render(whole, f));
    NothingDone(Destinations(whole));
    hide Syntax.Fine, Render, Destinations, FlushedPieces, PiecesOf, Blank, Fence, DocumentPieces, Lines, Rest, After,
      Remains, Waiting;
    ghost var rendered, called := Render(whole, f), Destinations(whole);
    out, calls := "", [];
    var waiting: seq<string> := [];
    var open: Option<Marker> := None;
    ghost var start := 0;
    for k := 0 to |lines|
      invariant start <= k && Waiting(waiting, lines, start, k)
      invariant Remains(out, Render(Rest(lines, k, start, open, syntax, images), f), rendered)
      invariant Remains(calls, Destinations(Rest(lines, k, start, open, syntax, images)), called)
    {
      var line := lines[k];
      WaitingStep(waiting, lines, start, k);
      if open.None? && Fence(line).None? && !Blank(line, syntax) {
        RestWaits(lines, k, start, open, syntax, images);
        waiting := waiting + [line];
        continue;
      }
      ghost var rest := Rest(lines, k + 1, k + 1, After(line, open), syntax, images);
      RestUnfolds(lines, k, start, open, syntax, images);
      RoundRendered(FlushedPieces(lines, start, k, syntax, images), line, rest, f);
      var flushed, more := Flush(lines, start, k, waiting, f, syntax, images);
      StillRemains(out, flushed + line, Render(rest, f), rendered);
      StillRemains(calls, more, Destinations(rest), called);
      out := out + (flushed + line);
      calls := calls + more;
      waiting := [];
      start := k + 1;
      open := After(line, open);
    }
    LastRest(lines, start, open, syntax, images);
    var flushed, more := Flush(lines, start, |lines|, waiting, f, syntax, images);
    AllDone(out, flushed, rendered);
    AllDone(calls, more, called);
    out := out + flushed;
    calls := calls + more;
  }

  /** What is done and what remains make up the whole. */
  ghost predicate Remains<T>(done: seq<T>, rest: seq<T>, whole: seq<T>) {
    done + rest == whole
  }

  lemma NothingDone<T>(whole: seq<T>)
    ensures Remains([], whole, whole)
  {
  }

  lemma AllDone<T>(done: seq<T>, last: seq<T>, whole: seq<T>)
    requires Remains(done, last, whole)
    ensures done + last == whole
  {
  }

  lemma StillRemains<T>(done: seq<T>, next: seq<T>, rest: seq<T>, whole: seq<T>)
    requires Remains(done, next + rest, whole)
    ensures Remains(done + next, rest, whole)
  {
    assert done + (next + rest) == (done + next) + rest;
  }

  /** A line that is put off changes nothing of what is left to do. */
  lemma RestWaits(lines: seq<string>, k: nat, start: nat, open: Option<Marker>, syntax: Syntax, images: bool)
    requires start <= k < |lines| && syntax.Fine() && OutsideNow(lines[k], open, syntax)
    ensures Rest(lines, k, start, open, syntax, images) == Rest(lines, k + 1, start, open, syntax, images)
  {
    hide Syntax.Fine, PiecesOf, Fence, Blank;
  }

  lemma LastRest(lines: seq<string>, start: nat, open: Option<Marker>, syntax: Syntax, images: bool)
    requires start <= |lines| && syntax.Fine()
    ensures Rest(lines, |lines|, start, open, syntax, images) == FlushedPieces(lines, start, |lines|, syntax, images)
  {
    FlushedIs(lines, start, |lines|, syntax, images);
    hide Syntax.Fine, FlushedPieces;
  }

  lemma RoundRendered(pieces: seq<Piece>, line: string, rest: seq<Piece>, f: string -> string)
    ensures Render(pieces + [Text(line)] + rest, f) == Render(pieces, f) + line + Render(rest, f)
    ensures Destinations(pieces + [Text(line)] + rest) == Destinations(pieces) + Destinations(rest)
  {
    RenderAppend(pieces + [Text(line)], rest, f);
    RenderAppend(pieces, [Text(line)], f);
    DestinationsAppend(pieces + [Text(line)], rest);
    DestinationsAppend(pieces, [Text(line)]);
    Singleton(Text(line), f);
    hide Render, Destinations;
  }

  // ----- what the pieces of a document are -----

  lemma BlockIsFlat(block: Block, lines: seq<string>, syntax: Syntax, images: bool)
    requires InRange(block, lines) && syntax.Fine()
    ensures Flat(BlockPieces(block, lines, syntax, images)) == match block case Copied(at) => lines[at]
      case Rewritten(from, to) => Joined(lines[from..to])
    ensures AllWellPlaced(BlockPieces(block, lines, syntax, images))
  {
    match block
    case Copied(at) => Singleton(Text(lines[at]), d => d);
    case Rewritten(from, to) =>
      var text := Joined(lines[from..to]);
      SpansOf(text, syntax);
      hide Syntax.Fine;
      FragmentIsFlat(text, 0, syntax.spans(text), images);
      FragmentWellPlaced(text, 0, syntax.spans(text), images);
  }

  lemma JoinedFrom(lines: seq<string>, from: nat, to: nat)
    requires from <= to <= |lines|
    ensures Joined(lines[from..to]) + Joined(lines[to..]) == Joined(lines[from..])
    ensures from + 1 == to ==> Joined(lines[from..to]) == lines[from]
  {
    JoinedAppend(lines[from..to], lines[to..]);
    assert lines[from..to] + lines[to..] == lines[from..];
    if from + 1 == to {
      assert lines[from..to] == [lines[from]] && lines[from..to][1..] == [];
      assert lines[from] + "" == lines[from];
    }
  }

  lemma {:induction false} BlocksAreFlat(blocks: seq<Block>, from: nat, lines: seq<string>, syntax: Syntax,
                                         images: bool)
    requires Covers(blocks, from, lines, syntax) && from <= |lines| && AllInRange(blocks, lines) && syntax.Fine()
    ensures Flat(PiecesOf(blocks, lines, syntax, images)) == Joined(lines[from..])
    ensures AllWellPlaced(PiecesOf(blocks, lines, syntax, images))
    decreases |blocks|
  {
    if blocks != [] {
      hide Outside, Syntax.Fine, Flat, BlockPieces, AllWellPlaced, Joined;
      var next := match blocks[0] case Copied(at) => from + 1 case Rewritten(_, to) => to;
      BlockIsFlat(blocks[0], lines, syntax, images);
      BlocksAreFlat(blocks[1..], next, lines, syntax, images);
      var head, rest := BlockPieces(blocks[0], lines, syntax, images), PiecesOf(blocks[1..], lines, syntax, images);
      FlatAppend(head, rest);
      PlacedAfter(head, rest);
      JoinedFrom(lines, from, next);
    } else {
      assert lines[from..] == [];
    }
  }

  /** With a callback that changes nothing the document comes back as it was, and every destination is well placed. */
  lemma RewritingIsFaithful(markdown: string, syntax: Syntax, images: bool)
    requires syntax.Fine()
    ensures Flat(DocumentPieces(markdown, syntax, images)) == markdown
    ensures forall f: string -> string :: (forall d :: f(d) == d) ==>
      Render(DocumentPieces(markdown, syntax, images), f) == markdown
    ensures AllWellPlaced(DocumentPieces(markdown, syntax, images))
  {
    var lines := Lines(markdown);
    BlocksAreFlat(DocumentBlocks(markdown, syntax), 0, lines, syntax, images);
    LinesJoin(markdown);
    assert lines[0..] == lines;
    hide Flat, PiecesOf, Syntax.Fine, AllWellPlaced;
    forall f: string -> string | forall d :: f(d) == d
      ensures Render(DocumentPieces(markdown, syntax, images), f) == markdown
    {
      IdentityRender(DocumentPieces(markdown, syntax, images), f);
    }
  }

  ghost predicate InRewritten(blocks: seq<Block>, k: nat) {
    exists i :: 0 <= i < |blocks| && blocks[i].Rewritten? && blocks[i].from <= k < blocks[i].to
  }

  lemma {:induction false} CoveredLine(blocks: seq<Block>, from: nat, lines: seq<string>, syntax: Syntax, k: nat)
    requires Covers(blocks, from, lines, syntax) && from <= k < |lines|
    ensures if Outside(lines, k, syntax) then InRewritten(blocks, k) else Copied(k) in blocks && !InRewritten(blocks, k)
    decreases |blocks|
  {
    hide Outside;
    var next := match blocks[0] case Copied(at) => from + 1 case Rewritten(_, to) => to;
    assert blocks == [blocks[0]] + blocks[1..];
    RewrittenLater(blocks[1..], next, lines, syntax, k);
    if k >= next {
      CoveredLine(blocks[1..], next, lines, syntax, k);
      if InRewritten(blocks[1..], k) {
        var i :| 0 <= i < |blocks[1..]| && blocks[1..][i].Rewritten? && blocks[1..][i].from <= k < blocks[1..][i].to;
        assert blocks[i + 1] == blocks[1..][i];
      }
    }
    forall i | 0 < i < |blocks| ensures blocks[i] == blocks[1..][i - 1] {
    }
  }

  lemma {:induction false} RewrittenLater(blocks: seq<Block>, from: nat, lines: seq<string>, syntax: Syntax, k: nat)
    requires Covers(blocks, from, lines, syntax)
    ensures InRewritten(blocks, k) ==> from <= k
    decreases |blocks|
  {
    hide Outside;
    if blocks != [] {
      var next := match blocks[0] case Copied(at) => from + 1 case Rewritten(_, to) => to;
      RewrittenLater(blocks[1..], next, lines, syntax, k);
      if InRewritten(blocks, k) {
        var i :| 0 <= i < |blocks| && blocks[i].Rewritten? && blocks[i].from <= k < blocks[i].to;
        if i > 0 {
          assert blocks[1..][i - 1] == blocks[i];
        }
      }
    }
  }

  /** A line of a fence, its opening and closing lines included, is copied and is in no block that reaches the callback.
    */
  lemma FencedLinesAreCopied(markdown: string, syntax: Syntax, k: nat)
    requires k < |Lines(markdown)| && (OpenBefore(Lines(markdown), k).Some? || Fence(Lines(markdown)[k]).Some?)
    ensures Copied(k) in DocumentBlocks(markdown, syntax) && !InRewritten(DocumentBlocks(markdown, syntax), k)
  {
    CoveredLine(DocumentBlocks(markdown, syntax), 0, Lines(markdown), syntax, k);
    hide Fence, Covers, Blank;
  }

  // ----- the callback of the wiki -----

  predicate StartsWith(s: string, prefix: string) {
    |prefix| <= |s| && s[..|prefix|] == prefix
  }

  predicate Contains(s: string, part: string) {
    exists i :: 0 <= i <= |s| && StartsWith(s[i..], part)
  }

  /** The length of the longest start of s without the characters of a kind. */
  function Until(s: string, stop: char -> bool): (n: nat)
    ensures n <= |s| && (n < |s| ==> stop(s[n])) && forall i :: 0 <= i < n ==> !stop(s[i])
  {
    if s == "" || stop(s[0]) then 0 else 1 + Until(s[1..], stop)
  }

  predicate IsPage(path: string) {
    && |path| >= 3 && path[|path| - 3..] == ".md" && !Contains(path, "://")
    && !StartsWith(path, "/") && !StartsWith(path, "mailto:") && !StartsWith(path, "tel:")
  }

  /** The path names a page: a name that ends in `.md`, without a scheme and not from the root. */
  ghost predicate NamesPage(path: string) {
    && (exists stem :: path == stem + ".md")
    && (forall scheme, rest :: path != scheme + "://" + rest)
    && (forall rest :: path != "/" + rest && path != "mailto:" + rest && path != "tel:" + rest)
  }

  lemma StartsWithIff(s: string, prefix: string)
    ensures StartsWith(s, prefix) <==> exists rest :: s == prefix + rest
  {
    if StartsWith(s, prefix) {
      assert s == prefix + s[|prefix|..];
    }
  }

  lemma ContainsIff(s: string, part: string)
    ensures Contains(s, part) <==> exists before, after :: s == before + part + after
  {
    if Contains(s, part) {
      var i :| 0 <= i <= |s| && StartsWith(s[i..], part);
      assert s == s[..i] + part + s[i..][|part|..];
    }
    if before, after :| s == before + part + after {
      assert s[|before|..] == part + after;
      assert StartsWith(s[|before|..], part);
    }
  }

  lemma PageIff(path: string)
    ensures IsPage(path) <==> NamesPage(path)
  {
    StartsWithIff(path, "/");
    StartsWithIff(path, "mailto:");
    StartsWithIff(path, "tel:");
    ContainsIff(path, "://");
    hide StartsWith, Contains;
    if |path| >= 3 {
      assert path == path[..|path| - 3] + path[|path| - 3..];
    }
  }

  /** `_rewrite_destination` */
  function WikiDestination(destination: string, syntax: Syntax): string {
    var n := Until(destination, syntax.space);
    if n == 0 then destination
    else
      var target := destination[..n];
      var hash := Until(target, c => c == '#');
      var path := target[..hash];
      if !IsPage(path) then destination else path[..|path| - 3] + target[hash..] + destination[n..]
  }

  /** What is left of a destination whose path ends at `hash` and whose target ends at n. */
  lemma SuffixCut(destination: string, hash: nat, n: nat)
    requires 3 <= hash <= n <= |destination|
    ensures destination[..n][..hash][..hash - 3] + destination[..n][hash..] + destination[n..]
      == destination[..hash - 3] + destination[hash..]
    ensures destination[..n][..hash][hash - 3..] == destination[hash - 3..hash]
  {
    assert destination[..n][..hash] == destination[..hash];
    assert destination[..n][hash..] + destination[n..] == destination[hash..];
  }

  /** At k the target's path ends with `.md`, in front of its fragment or of its end. */
  predicate EndsPath(destination: string, k: nat, syntax: Syntax) {
    && k + 3 <= |destination| && destination[k..k + 3] == ".md"
    && (k + 3 == |destination| || destination[k + 3] == '#' || syntax.space(destination[k + 3]))
    && forall i :: 0 <= i < k + 3 ==> destination[i] != '#' && !syntax.space(destination[i])
  }

  lemma PathFound(destination: string, k: nat, syntax: Syntax)
    requires EndsPath(destination, k, syntax)
    ensures
      var n := Until(destination, syntax.space);
      0 < n && k + 3 <= n && Until(destination[..n], c => c == '#') == k + 3
        && destination[..n][..k + 3] == destination[..k + 3]
  {
    var n := Until(destination, syntax.space);
    var hash := Until(destination[..n], c => c == '#');
    assert n >= k + 3;
    assert hash >= k + 3;
    assert k + 3 < n ==> destination[..n][k + 3] == destination[k + 3];
  }

  /** A destination loses the `.md` at the end of its path exactly when that path names a page, and else stays as it is.
    */
  lemma WikiDestinationDropsOneSuffix(destination: string, syntax: Syntax)
    ensures forall k: nat :: EndsPath(destination, k, syntax) && IsPage(destination[..k + 3]) ==>
      WikiDestination(destination, syntax) == destination[..k] + destination[k + 3..]
    ensures (forall k: nat :: EndsPath(destination, k, syntax) ==> !IsPage(destination[..k + 3])) ==>
      WikiDestination(destination, syntax) == destination
  {
    hide IsPage, Until;
    forall k: nat | EndsPath(destination, k, syntax) && IsPage(destination[..k + 3])
      ensures WikiDestination(destination, syntax) == destination[..k] + destination[k + 3..]
    {
      PathFound(destination, k, syntax);
      SuffixCut(destination, k + 3, Until(destination, syntax.space));
    }
    if WikiDestination(destination, syntax) != destination {
      PageCut(destination, syntax);
    }
  }

  lemma PageCut(destination: string, syntax: Syntax)
    requires WikiDestination(destination, syntax) != destination
    ensures exists k: nat :: EndsPath(destination, k, syntax) && IsPage(destination[..k + 3])
  {
    var hash := PathEnd(destination, syntax);
    hide IsPage, WikiDestination;
    assert destination[hash - 3..hash] == destination[..hash][hash - 3..];
    assert EndsPath(destination, hash - 3, syntax);
    assert hash - 3 + 3 == hash;
  }

  /** A destination that changes has a page for a path, which ends at the first `#`, space or at the end. */
  lemma PathEnd(destination: string, syntax: Syntax) returns (hash: nat)
    requires WikiDestination(destination, syntax) != destination
    ensures 3 <= hash <= |destination| && IsPage(destination[..hash]) && destination[..hash][hash - 3..] == ".md"
    ensures forall i :: 0 <= i < hash ==> destination[i] != '#' && !syntax.space(destination[i])
    ensures hash < |destination| ==> destination[hash] == '#' || syntax.space(destination[hash])
  {
    hide IsPage, Until;
    var n := Until(destination, syntax.space);
    var target := destination[..n];
    hash := Until(target, c => c == '#');
    assert target[..hash] == destination[..hash];
    PageEnding(target[..hash]);
    forall i | 0 <= i < hash ensures destination[i] != '#' && !syntax.space(destination[i]) {
      assert target[i] == destination[i];
    }
    assert hash < n ==> target[hash] == destination[hash];
  }

  lemma PageEnding(path: string)
    requires IsPage(path)
    ensures |path| >= 3 && path[|path| - 3..] == ".md"
  {
  }
}
