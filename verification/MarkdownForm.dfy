/** What `rewrite_markdown_link_destinations` (scripts/rewrite_wiki_links.py:14, 112-157) makes of a document, said of
  * its characters: where its lines end, which of them are in fences, which are rewritten together, and what they
  * become.
  */
module MarkdownForm {
  import opened FragmentLinks
  import opened LinkRewriter
  import opened MarkdownLinks
  import opened Wrappers

  // ----- lines -----

  /** A line ends at the end of the text, and after a line break; a carriage return and line feed are one break. */
  predicate EndsLine(s: string, p: int) {
    && 0 < p <= |s|
    && (p < |s| ==>
          var code := s[p - 1] as int;
          && (10 <= code <= 13 || 28 <= code <= 30 || code in {133, 8232, 8233})
          && !(code == 13 && s[p] as int == 10))
  }

  /** The text up to its first line end. */
  ghost predicate FirstLine(s: string, line: string) {
    line <= s && EndsLine(s, |line|) && forall p :: 0 < p < |line| ==> !EndsLine(s, p)
  }

  ghost predicate AreLines(s: string, lines: seq<string>) {
    if lines == [] then s == "" else FirstLine(s, lines[0]) && AreLines(s[|lines[0]|..], lines[1..])
  }

  lemma {:induction false} LineLengthIs(s: string)
    requires s != ""
    ensures EndsLine(s, LineLength(s)) && forall p :: 0 < p < LineLength(s) ==> !EndsLine(s, p)
  {
    if !IsLineBreak(s[0]) && |s| > 1 {
      LineLengthIs(s[1..]);
      forall p | 0 < p < LineLength(s) ensures !EndsLine(s, p) {
        if p > 1 {
          assert EndsLine(s, p) <==> EndsLine(s[1..], p - 1);
        }
      }
    }
  }

  /** The lines of a document are its parts between line ends. */
  lemma {:induction false} LinesAreLines(s: string)
    ensures AreLines(s, Lines(s))
    decreases |s|
  {
    if s != "" {
      LineLengthIs(s);
      LinesAreLines(s[LineLength(s)..]);
      assert Lines(s)[1..] == Lines(s[LineLength(s)..]);
    }
  }

  // ----- fences -----

  /** Up to three spaces, then exactly n, at least three, backticks or tildes. */
  ghost predicate FenceAt(line: string, indent: nat, c: char, n: nat) {
    && indent <= 3 <= n && indent + n <= |line| && (c == '`' || c == '~')
    && (forall i :: 0 <= i < indent ==> line[i] == ' ')
    && (forall i :: indent <= i < indent + n ==> line[i] == c)
    && (indent + n < |line| ==> line[indent + n] != c)
  }

  ghost predicate IsFence(line: string, c: char, n: nat) {
    exists indent: nat :: FenceAt(line, indent, c, n)
  }

  lemma {:induction false} RunIs(s: string, c: char)
    ensures Run(s, c) <= |s| && (forall i :: 0 <= i < Run(s, c) ==> s[i] == c)
    ensures Run(s, c) < |s| ==> s[Run(s, c)] != c
  {
    if s != "" && s[0] == c {
      RunIs(s[1..], c);
    }
  }

  lemma RunsAre(line: string, indent: nat, c: char, n: nat)
    requires FenceAt(line, indent, c, n)
    ensures Run(line, ' ') == indent && Run(line[indent..], c) == n && line[indent] == c
  {
    RunIs(line, ' ');
    RunIs(line[indent..], c);
    hide Run;
    assert line[indent] == c;
    assert Run(line, ' ') >= indent;
    assert forall i :: 0 <= i < n ==> line[indent..][i] == line[indent + i];
    assert indent + n < |line| ==> line[indent..][n] == line[indent + n];
  }

  /** `_FENCE.match` */
  lemma FenceIff(line: string, c: char, n: nat)
    ensures Fence(line) == Some(Marker(c, n)) <==> IsFence(line, c, n)
  {
    var spaces := Run(line, ' ');
    if Fence(line) == Some(Marker(c, n)) {
      RunIs(line, ' ');
      RunIs(line[spaces..], c);
      assert forall i :: 0 <= i < n ==> line[spaces + i] == line[spaces..][i];
      assert spaces + n < |line| ==> line[spaces + n] == line[spaces..][n];
      assert FenceAt(line, spaces, c, n);
    }
    forall indent: nat | FenceAt(line, indent, c, n) ensures Fence(line) == Some(Marker(c, n)) {
      RunsAre(line, indent, c, n);
    }
  }

  lemma NoFenceIff(line: string)
    ensures Fence(line).Some? <==> exists c, n: nat :: IsFence(line, c, n)
  {
    hide Fence, IsFence;
    if Fence(line).Some? {
      var marker := Fence(line).value;
      FenceIff(line, marker.c, marker.length);
    }
    forall c, n: nat | IsFence(line, c, n) ensures Fence(line).Some? {
      FenceIff(line, c, n);
    }
  }

  /** A fence of the same kind that is at least as long. */
  ghost predicate Closes(line: string, marker: Marker) {
    exists n: nat :: IsFence(line, marker.c, n) && n >= marker.length
  }

  /** Some fence that an earlier line has opened is not closed before line k. */
  ghost predicate InFence(lines: seq<string>, k: nat)
    requires k <= |lines|
    decreases k
  {
    exists i, marker: Marker ::
      && 0 <= i < k && IsFence(lines[i], marker.c, marker.length) && !InFence(lines, i)
      && NoneCloses(lines, i + 1, k, marker)
  }

  ghost predicate NoneCloses(lines: seq<string>, from: nat, to: nat, marker: Marker)
    requires to <= |lines|
  {
    forall j :: from <= j < to ==> !Closes(lines[j], marker)
  }

  lemma ClosesIff(line: string, marker: Marker)
    ensures Closes(line, marker) <==>
      Fence(line).Some? && Fence(line).value.c == marker.c && Fence(line).value.length >= marker.length
  {
    hide Fence, IsFence;
    if Fence(line).Some? {
      FenceIff(line, Fence(line).value.c, Fence(line).value.length);
    }
    forall n: nat | IsFence(line, marker.c, n) ensures Fence(line) == Some(Marker(marker.c, n)) {
      FenceIff(line, marker.c, n);
    }
  }

  /** The fence that is open before line k was opened by one of the lines before it and is not closed by the next ones.
    */
  lemma {:induction false} OpenWasOpened(lines: seq<string>, k: nat) returns (i: nat)
    requires k <= |lines| && OpenBefore(lines, k).Some?
    ensures i < k && Fence(lines[i]) == OpenBefore(lines, k) && OpenBefore(lines, i).None?
    ensures NoneCloses(lines, i + 1, k, OpenBefore(lines, k).value)
    decreases k
  {
    hide Fence, Closes;
    if OpenBefore(lines, k - 1).None? {
      i := k - 1;
    } else {
      i := OpenWasOpened(lines, k - 1);
      ClosesIff(lines[k - 1], OpenBefore(lines, k - 1).value);
    }
  }

  lemma {:induction false} StaysOpen(lines: seq<string>, i: nat, k: nat, marker: Marker)
    requires i < k <= |lines| && OpenBefore(lines, i).None? && Fence(lines[i]) == Some(marker)
    requires NoneCloses(lines, i + 1, k, marker)
    ensures OpenBefore(lines, k) == Some(marker)
    decreases k
  {
    hide Fence, Closes;
    if k > i + 1 {
      StaysOpen(lines, i, k - 1, marker);
      ClosesIff(lines[k - 1], marker);
    }
  }

  /** A fence is open exactly when one was opened and not closed. */
  lemma {:induction false} InFenceIff(lines: seq<string>, k: nat)
    requires k <= |lines|
    ensures OpenBefore(lines, k).Some? <==> InFence(lines, k)
    decreases k
  {
    hide Fence, IsFence, NoneCloses, OpenBefore;
    if OpenBefore(lines, k).Some? {
      var i := OpenWasOpened(lines, k);
      var marker := OpenBefore(lines, k).value;
      FenceIff(lines[i], marker.c, marker.length);
      InFenceIff(lines, i);
    }
    if InFence(lines, k) {
      var i, marker: Marker :| 0 <= i < k && IsFence(lines[i], marker.c, marker.length) && !InFence(lines, i)
        && NoneCloses(lines, i + 1, k, marker);
      InFenceIff(lines, i);
      FenceIff(lines[i], marker.c, marker.length);
      StaysOpen(lines, i, k, marker);
    }
  }

  // ----- which lines are rewritten together -----

  /** A line with text that is in no fence and opens none. */
  ghost predicate IsText(lines: seq<string>, k: nat, space: char -> bool)
    requires k < |lines|
  {
    && !InFence(lines, k) && !(exists c, n: nat :: IsFence(lines[k], c, n))
    && exists i :: 0 <= i < |lines[k]| && !space(lines[k][i])
  }

  lemma OutsideIff(lines: seq<string>, k: nat, syntax: Syntax)
    requires k < |lines|
    ensures Outside(lines, k, syntax) <==> IsText(lines, k, syntax.space)
  {
    hide Fence, IsFence, InFence;
    InFenceIff(lines, k);
    NoFenceIff(lines[k]);
  }

  /** The lines from `from` on cut up: those with text as long as they follow one another, each other line by itself. */
  ghost predicate AreBlocks(blocks: seq<Block>, from: nat, lines: seq<string>, space: char -> bool) {
    if blocks == [] then from == |lines|
    else
      match blocks[0]
      case Copied(at) =>
        at == from < |lines| && !IsText(lines, at, space) && AreBlocks(blocks[1..], from + 1, lines, space)
      case Rewritten(first, to) =>
        && first == from < to <= |lines| && (forall k :: from <= k < to ==> IsText(lines, k, space))
        && (to < |lines| ==> !IsText(lines, to, space)) && AreBlocks(blocks[1..], to, lines, space)
  }

  ghost predicate Alternates(blocks: seq<Block>) {
    forall i :: 0 <= i < |blocks| - 1 && blocks[i].Rewritten? ==> blocks[i + 1].Copied?
  }

  lemma AlternatesAppend(a: seq<Block>, k: nat, rest: seq<Block>)
    requires |a| <= 1 && Alternates(rest)
    ensures Alternates(a + [Copied(k)] + rest)
  {
    var all := a + [Copied(k)] + rest;
    forall i | 0 <= i < |all| - 1 && all[i].Rewritten? ensures all[i + 1].Copied? {
      if i > |a| {
        assert all[i] == rest[i - |a| - 1] && all[i + 1] == rest[i - |a|];
      }
    }
  }

  lemma {:induction false} BlocksAlternate(lines: seq<string>, k: nat, start: nat, open: Option<Marker>,
                                           syntax: Syntax)
    requires start <= k <= |lines|
    ensures Alternates(Blocks(lines, k, start, open, syntax))
    decreases |lines| - k
  {
    hide OutsideNow, After;
    if k < |lines| {
      if OutsideNow(lines[k], open, syntax) {
        BlocksAlternate(lines, k + 1, start, open, syntax);
      } else {
        BlocksAlternate(lines, k + 1, k + 1, After(lines[k], open), syntax);
        AlternatesAppend(Flushed(start, k), k, Blocks(lines, k + 1, k + 1, After(lines[k], open), syntax));
      }
    }
  }

  lemma {:induction false} CoveringBlocks(blocks: seq<Block>, from: nat, lines: seq<string>, syntax: Syntax)
    requires Covers(blocks, from, lines, syntax) && Alternates(blocks)
    ensures AreBlocks(blocks, from, lines, syntax.space)
    decreases |blocks|
  {
    hide Outside, IsText;
    if blocks != [] {
      forall k | 0 <= k < |lines| ensures Outside(lines, k, syntax) <==> IsText(lines, k, syntax.space) {
        OutsideIff(lines, k, syntax);
      }
      var rest := blocks[1..];
      assert Alternates(rest) by {
        assert forall i :: 0 <= i < |rest| ==> rest[i] == blocks[i + 1];
      }
      assert rest != [] ==> rest[0] == blocks[1];
      CoveringBlocks(rest, EndOf(blocks[0]), lines, syntax);
    }
  }

  function EndOf(block: Block): nat {
    match block case Copied(at) => at + 1 case Rewritten(_, to) => to
  }

  /** The blocks of a document. */
  lemma DocumentBlocksAre(markdown: string, syntax: Syntax)
    ensures AreBlocks(DocumentBlocks(markdown, syntax), 0, Lines(markdown), syntax.space)
  {
    hide Covers, Blocks;
    BlocksAlternate(Lines(markdown), 0, 0, None, syntax);
    CoveringBlocks(DocumentBlocks(markdown, syntax), 0, Lines(markdown), syntax);
  }

  // ----- what becomes of them -----

  /** A block as it comes out, with the calls that it makes: a copied line, or its lines put together and rewritten. */
  ghost predicate BlockBecomes(block: Block, lines: seq<string>, syntax: Syntax, images: bool, f: string -> string,
                               out: string, calls: seq<string>)
    requires InRange(block, lines)
  {
    match block
    case Copied(at) => out == lines[at] && calls == []
    case Rewritten(from, to) =>
      var text := Joined(lines[from..to]);
      exists links ::
        && AreLinks(text, syntax.spans(text), links) && Fits(text, 0, links)
        && out == Woven(text, 0, links, images, f) && calls == Called(text, 0, links, images)
  }

  ghost predicate BlocksBecome(blocks: seq<Block>, lines: seq<string>, syntax: Syntax, images: bool,
                               f: string -> string, out: string, calls: seq<string>)
    requires AllInRange(blocks, lines)
  {
    if blocks == [] then out == "" && calls == []
    else
      exists m: nat, n: nat ::
        && m <= |out| && n <= |calls|
        && BlockBecomes(blocks[0], lines, syntax, images, f, out[..m], calls[..n])
        && BlocksBecome(blocks[1..], lines, syntax, images, f, out[m..], calls[n..])
  }

  lemma BlockIsWoven(block: Block, lines: seq<string>, syntax: Syntax, images: bool, f: string -> string)
    requires InRange(block, lines) && syntax.Fine()
    ensures BlockBecomes(block, lines, syntax, images, f, Render(BlockPieces(block, lines, syntax, images), f),
                         Destinations(BlockPieces(block, lines, syntax, images)))
  {
    match block
    case Copied(at) => Singleton(Text(lines[at]), f);
    case Rewritten(from, to) =>
      hide Syntax.Fine, FragmentPieces, AreLinks, Woven, Called, Fits, Render, Destinations;
      var text := Joined(lines[from..to]);
      SpansOf(text, syntax);
      var links := FragmentIsWoven(text, syntax.spans(text), images, f);
  }

  lemma {:induction false} BlocksAreWoven(blocks: seq<Block>, lines: seq<string>, syntax: Syntax, images: bool,
                                          f: string -> string)
    requires AllInRange(blocks, lines) && syntax.Fine()
    ensures BlocksBecome(blocks, lines, syntax, images, f, Render(PiecesOf(blocks, lines, syntax, images), f),
                         Destinations(PiecesOf(blocks, lines, syntax, images)))
    decreases |blocks|
  {
    hide Syntax.Fine, BlockPieces, BlockBecomes, Render, Destinations;
    if blocks == [] {
      NoPieces(f);
    } else {
      var head, tail := BlockPieces(blocks[0], lines, syntax, images), PiecesOf(blocks[1..], lines, syntax, images);
      BlockIsWoven(blocks[0], lines, syntax, images, f);
      BlocksAreWoven(blocks[1..], lines, syntax, images, f);
      RenderAppend(head, tail, f);
      DestinationsAppend(head, tail);
      JoinedParts(Render(head, f), Render(tail, f));
      JoinedParts(Destinations(head), Destinations(tail));
    }
  }

  lemma JoinedParts<T>(a: seq<T>, b: seq<T>)
    ensures (a + b)[..|a|] == a && (a + b)[|a|..] == b
  {
  }

  /** A rewritten document: its lines, those with text and outside fences put together, the links of these rewritten,
    * and every other line as it was.
    */
  lemma DocumentBecomes(markdown: string, f: string -> string, syntax: Syntax, images: bool)
    returns (lines: seq<string>, blocks: seq<Block>)
    requires syntax.Fine()
    ensures AreLines(markdown, lines) && AreBlocks(blocks, 0, lines, syntax.space) && AllInRange(blocks, lines)
    ensures BlocksBecome(blocks, lines, syntax, images, f, Render(DocumentPieces(markdown, syntax, images), f),
                         Destinations(DocumentPieces(markdown, syntax, images)))
  {
    hide Syntax.Fine, AreLines, AreBlocks, BlocksBecome, PiecesOf, Render, Destinations, Covers;
    lines, blocks := Lines(markdown), DocumentBlocks(markdown, syntax);
    LinesAreLines(markdown);
    DocumentBlocksAre(markdown, syntax);
    BlocksAreWoven(blocks, lines, syntax, images, f);
  }
}
