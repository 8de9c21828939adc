/** `rewrite_markdown_link_destinations` and its helpers (scripts/rewrite_wiki_links.py:14-157): Markdown cut into text
  * that is copied and destinations that are handed to a callback.
  */
module LinkRewriter {
  import opened Wrappers

  /** Code spans by their start, with their ends. */
  type Spans = map<nat, nat>

  /** What is left to Python: where `_INLINE_CODE` matches, and which characters `str.strip` removes. */
  datatype Syntax = Syntax(spans: string -> Spans, space: char -> bool) {
    /** The matches are not empty, lie in the text and do not overlap. */
    ghost predicate Fine() {
      && (forall text, k {:trigger spans(text)[k]} :: k in spans(text) ==> k < spans(text)[k] <= |text|)
      && (forall text {:trigger spans(text)} :: Apart(spans(text)))
    }
  }

  datatype Piece = Text(s: string) | Destination(s: string)

  /** The pieces put together, with the callback applied to the destinations. */
  function Render(pieces: seq<Piece>, f: string -> string): string {
    if pieces == [] then "" else Shown(pieces[0], f) + Render(pieces[1..], f)
  }

  function Destinations(pieces: seq<Piece>): seq<string> {
    if pieces == [] then []
    else if pieces[0].Destination? then [pieces[0].s] + Destinations(pieces[1..])
    else Destinations(pieces[1..])
  }

  /** The pieces as they stand in the document. */
  function Flat(pieces: seq<Piece>): string {
    if pieces == [] then "" else pieces[0].s + Flat(pieces[1..])
  }

  function Shown(piece: Piece, f: string -> string): string {
    if piece.Text? then piece.s else f(piece.s)
  }

  lemma {:induction false} RenderAppend(a: seq<Piece>, b: seq<Piece>, f: string -> string)
    ensures Render(a + b, f) == Render(a, f) + Render(b, f)
  {
    if a == [] {
      assert a + b == b;
    } else {
      assert (a + b)[0] == a[0] && (a + b)[1..] == a[1..] + b;
      RenderAppend(a[1..], b, f);
      hide Shown;
    }
  }

  lemma {:induction false} DestinationsAppend(a: seq<Piece>, b: seq<Piece>)
    ensures Destinations(a + b) == Destinations(a) + Destinations(b)
  {
    if a == [] {
      assert a + b == b;
    } else {
      assert (a + b)[0] == a[0] && (a + b)[1..] == a[1..] + b;
      DestinationsAppend(a[1..], b);
    }
  }

  lemma {:induction false} FlatAppend(a: seq<Piece>, b: seq<Piece>)
    ensures Flat(a + b) == Flat(a) + Flat(b)
  {
    if a == [] {
      assert a + b == b;
    } else {
      assert (a + b)[0] == a[0] && (a + b)[1..] == a[1..] + b;
      FlatAppend(a[1..], b);
    }
  }

  lemma {:induction false} IdentityRender(pieces: seq<Piece>, f: string -> string)
    requires forall d :: f(d) == d
    ensures Render(pieces, f) == Flat(pieces)
  {
    if pieces != [] {
      IdentityRender(pieces[1..], f);
    }
  }

  // ----- one fragment -----

  predicate StartsAt(text: string, at: nat, prefix: string) {
    at + |prefix| <= |text| && text[at..at + |prefix|] == prefix
  }

  ghost predicate SpansFine(text: string, code: Spans) {
    forall k :: k in code ==> k < code[k] <= |text|
  }

  /** `_find_label_end` */
  function LabelEnd(text: string, cursor: nat, depth: nat, code: Spans): (r: Option<nat>)
    requires SpansFine(text, code)
    ensures r.Some? ==> cursor <= r.value < |text| && text[r.value] == ']'
    decreases |text| - cursor
  {
    if cursor >= |text| then None
    else if cursor in code then LabelEnd(text, code[cursor], depth, code)
    else if text[cursor] == '[' then LabelEnd(text, cursor + 1, depth + 1, code)
    else if text[cursor] == ']' then (if depth == 0 then Some(cursor) else LabelEnd(text, cursor + 1, depth - 1, code))
    else LabelEnd(text, cursor + 1, depth, code)
  }

  method FindLabelEnd(text: string, start: nat, code: Spans) returns (r: Option<nat>)
    requires SpansFine(text, code)
    ensures r == LabelEnd(text, start, 0, code)
  {
    var cursor, depth := start, 0;
    while cursor < |text|
      invariant LabelEnd(text, cursor, depth, code) == LabelEnd(text, start, 0, code)
      decreases |text| - cursor
    {
      if cursor in code {
        cursor := code[cursor];
        continue;
      }
      if text[cursor] == '[' {
        depth := depth + 1;
      } else if text[cursor] == ']' {
        if depth == 0 {
          return Some(cursor);
        }
        depth := depth - 1;
      }
      cursor := cursor + 1;
    }
    r := None;
  }

  // ----- which bracket that is -----

  /** The matches of a regular expression do not overlap. */
  ghost predicate Apart(code: Spans) {
    forall k, m :: k in code && m in code && k < m ==> code[k] <= m
  }

  /** Inside a code span that begins at or after `start`. */
  ghost predicate InCode(code: Spans, start: nat, p: nat) {
    exists k :: k in code && start <= k <= p < code[k]
  }

  /** How many more brackets open than close between `start` and p, outside code spans. */
  ghost function Balance(text: string, start: nat, p: nat, code: Spans): int
    requires p <= |text|
  {
    if p <= start then 0
    else
      Balance(text, start, p - 1, code) +
        (if InCode(code, start, p - 1) then 0 else if text[p - 1] == '[' then 1 else if text[p - 1] == ']' then -1
          else 0)
  }

  /** A closing bracket outside code spans with as many opening as closing ones before it. */
  ghost predicate Unmatched(text: string, start: nat, p: nat, code: Spans) {
    start <= p < |text| && text[p] == ']' && !InCode(code, start, p) && Balance(text, start, p, code) == 0
  }

  /** `_find_label_end` finds the first unmatched closing bracket outside code spans, and nothing when there is none. */
  lemma LabelEndIsFirstUnmatched(text: string, start: nat, code: Spans)
    requires SpansFine(text, code) && Apart(code) && start <= |text|
    ensures
      var r := LabelEnd(text, start, 0, code);
      && (r.Some? ==> Unmatched(text, start, r.value, code))
      && forall p :: start <= p && (r.Some? ==> p < r.value) ==> !Unmatched(text, start, p, code)
  {
    LabelEndFrom(text, start, start, 0, code);
  }

  lemma {:induction false} LabelEndFrom(text: string, start: nat, cursor: nat, depth: nat, code: Spans)
    requires SpansFine(text, code) && Apart(code) && start <= cursor <= |text|
      && Balance(text, start, cursor, code) == depth
    requires forall k :: k in code && start <= k < cursor ==> code[k] <= cursor
    requires forall p :: start <= p < cursor ==> !Unmatched(text, start, p, code)
    ensures
      var r := LabelEnd(text, cursor, depth, code);
      && (r.Some? ==> Unmatched(text, start, r.value, code))
      && forall p :: start <= p && (r.Some? ==> p < r.value) ==> !Unmatched(text, start, p, code)
    decreases |text| - cursor
  {
    if cursor < |text| {
      if cursor in code {
        SpanKeepsBalance(text, start, cursor, code[cursor], code);
        LabelEndFrom(text, start, code[cursor], depth, code);
      } else {
        assert !InCode(code, start, cursor);
        if text[cursor] == '[' {
          LabelEndFrom(text, start, cursor + 1, depth + 1, code);
        } else if text[cursor] != ']' {
          LabelEndFrom(text, start, cursor + 1, depth, code);
        } else if depth > 0 {
          LabelEndFrom(text, start, cursor + 1, depth - 1, code);
        }
      }
    }
  }

  lemma {:induction false} SpanKeepsBalance(text: string, start: nat, cursor: nat, p: nat, code: Spans)
    requires SpansFine(text, code) && start <= cursor <= p && cursor in code && p <= code[cursor]
    ensures Balance(text, start, p, code) == Balance(text, start, cursor, code)
    ensures forall q :: cursor <= q < p ==> InCode(code, start, q)
    decreases p
  {
    if p > cursor {
      SpanKeepsBalance(text, start, cursor, p - 1, code);
    }
  }

  /** `text.find(c, from)` */
  function Find(text: string, c: char, from: nat): (r: Option<nat>)
    ensures r.Some? ==>
      && from <= r.value < |text| && text[r.value] == c
      && forall i :: from <= i < r.value ==> text[i] != c
    ensures r.None? ==> forall i :: from <= i < |text| ==> text[i] != c
    decreases |text| - from
  {
    if from >= |text| then None else if text[from] == c then Some(from) else Find(text, c, from + 1)
  }

  datatype Link = Link(image: bool, start: nat, end: nat)

  /** Whether there is a line break in `text[from..to]`. */
  predicate Broken(text: string, from: nat, to: nat)
    requires from <= to <= |text|
  {
    exists i :: from <= i < to && text[i] == '\n'
  }

  /** Where a destination that begins there ends; it must not be empty nor go over a line break. */
  function DestinationEnd(text: string, start: nat): (r: Option<nat>)
    ensures r.Some? ==> start < r.value < |text| && text[r.value] == ')'
    ensures r.Some? ==> forall i :: start <= i < r.value ==> text[i] != ')' && text[i] != '\n'
  {
    match Find(text, ')', start)
    case None => None
    case Some(end) => if end == start || Broken(text, start, end) then None else Some(end)
  }

  predicate Opens(text: string, cursor: nat)
    requires cursor < |text|
  {
    StartsAt(text, cursor, "![") || (text[cursor] == '[' && (cursor == 0 || text[cursor - 1] != '!'))
  }

  function LabelStart(text: string, cursor: nat): nat {
    cursor + (if StartsAt(text, cursor, "![") then 2 else 1)
  }

  /** The link or image that begins at the cursor, with the place of its destination. */
  function LinkAt(text: string, cursor: nat, code: Spans): (r: Option<Link>)
    requires SpansFine(text, code) && cursor < |text|
    ensures r.Some? ==> cursor + 2 < r.value.start < r.value.end < |text|
  {
    if !Opens(text, cursor) then None
    else
      match LabelEnd(text, LabelStart(text, cursor), 0, code)
      case None => None
      case Some(close) =>
        if !StartsAt(text, close, "](") then None
        else
          match DestinationEnd(text, close + 2)
          case None => None
          case Some(end) => Some(Link(StartsAt(text, cursor, "!["), close + 2, end))
  }

  lemma LinkPlace(text: string, cursor: nat, code: Spans)
    requires SpansFine(text, code) && cursor < |text| && LinkAt(text, cursor, code).Some?
    ensures
      var link := LinkAt(text, cursor, code).value;
      && StartsAt(text, link.start - 2, "](") && text[link.end] == ')'
      && forall i :: link.start <= i < link.end ==> text[i] != ')' && text[i] != '\n'
  {
    hide StartsAt, Broken, LabelEnd, Opens;
  }

  /** A run of pieces that is a link or an image. */
  function LinkPieces(text: string, cursor: nat, link: Link, images: bool): (r: seq<Piece>)
    requires cursor <= link.start <= link.end < |text|
    ensures |r| == 3
  {
    var destination := text[link.start..link.end];
    [Text(text[cursor..link.start]), if link.image && !images then Text(destination)
      else Destination(destination), Text(")")]
  }

  /** The pieces that one round of the loop adds. */
  function Head(text: string, cursor: nat, code: Spans, images: bool): seq<Piece>
    requires SpansFine(text, code) && cursor < |text|
  {
    if cursor in code then [Text(text[cursor..code[cursor]])]
    else
      match LinkAt(text, cursor, code)
      case None => [Text([text[cursor]])]
      case Some(link) => LinkPieces(text, cursor, link, images)
  }

  /** Where it leaves the cursor. */
  function Next(text: string, cursor: nat, code: Spans): (next: nat)
    requires SpansFine(text, code) && cursor < |text|
    ensures cursor < next <= |text|
  {
    if cursor in code then code[cursor]
    else
      match LinkAt(text, cursor, code)
      case None => cursor + 1
      case Some(link) => link.end + 1
  }

  /** The pieces of a fragment from the cursor on. They depend on the text and on whether images count, on nothing else.
    */
  function FragmentPieces(text: string, cursor: nat, code: Spans, images: bool): seq<Piece>
    requires SpansFine(text, code)
    decreases |text| - cursor
  {
    if cursor >= |text| then []
    else Head(text, cursor, code, images) + FragmentPieces(text, Next(text, cursor, code), code, images)
  }

  /** The tests of the loop, in their order. */
  method FindLink(text: string, cursor: nat, code: Spans) returns (r: Option<Link>)
    requires SpansFine(text, code) && cursor < |text|
    ensures r == LinkAt(text, cursor, code)
  {
    hide StartsAt, Broken, LabelEnd;
    var isImage := StartsAt(text, cursor, "![");
    var isLink := text[cursor] == '[' && (cursor == 0 || text[cursor - 1] != '!');
    if !isImage && !isLink {
      return None;
    }
    var close := FindLabelEnd(text, cursor + (if isImage then 2 else 1), code);
    if close.None? || !StartsAt(text, close.value, "](") {
      return None;
    }
    var start := close.value + 2;
    var end := Find(text, ')', start);
    if end.None? || end.value == start {
      return None;
    }
    if Broken(text, start, end.value) {
      return None;
    }
    r := Some(Link(isImage, start, end.value));
  }

  lemma Singleton(piece: Piece, f: string -> string)
    ensures Render([piece], f) == Shown(piece, f)
    ensures Destinations([piece]) == if piece.Destination? then [piece.s] else []
    ensures Flat([piece]) == piece.s
  {
    assert [piece][1..] == [];
    assert Render([piece][1..], f) == "" && Flat([piece][1..]) == "" && Destinations([piece][1..]) == [];
    assert Shown(piece, f) + "" == Shown(piece, f) && piece.s + "" == piece.s;
  }

  /** What the pieces of a link come to. */
  lemma LinkRendered(text: string, cursor: nat, link: Link, images: bool, f: string -> string)
    requires cursor <= link.start <= link.end < |text|
    ensures
      var pieces, destination := LinkPieces(text, cursor, link, images), text[link.start..link.end];
      && Render(pieces, f) == text[cursor..link.start] +
        (if link.image && !images then destination else f(destination)) + ")"
      && Destinations(pieces) == (if link.image && !images then [] else [destination])
      && Flat(pieces) == text[cursor..link.start] + destination + ")"
  {
    var pieces := LinkPieces(text, cursor, link, images);
    assert pieces == [pieces[0]] + [pieces[1]] + [pieces[2]];
    RenderAppend([pieces[0]] + [pieces[1]], [pieces[2]], f);
    RenderAppend([pieces[0]], [pieces[1]], f);
    DestinationsAppend([pieces[0]] + [pieces[1]], [pieces[2]]);
    DestinationsAppend([pieces[0]], [pieces[1]]);
    FlatAppend([pieces[0]] + [pieces[1]], [pieces[2]]);
    FlatAppend([pieces[0]], [pieces[1]]);
    Singleton(pieces[0], f);
    Singleton(pieces[1], f);
    Singleton(pieces[2], f);
    hide Render, Flat, Destinations;
  }

  /** One round of the loop of `_rewrite_fragment`. */
  method RewriteStep(text: string, cursor: nat, f: string -> string, code: Spans, images: bool)
    returns (added: string, called: seq<string>, next: nat)
    requires SpansFine(text, code) && cursor < |text|
    ensures added == Render(Head(text, cursor, code, images), f)
      && called == Destinations(Head(text, cursor, code, images))
    ensures next == Next(text, cursor, code)
  {
    hide Render, Destinations, Flat, LinkAt;
    if cursor in code {
      Singleton(Text(text[cursor..code[cursor]]), f);
      return text[cursor..code[cursor]], [], code[cursor];
    }
    var found := FindLink(text, cursor, code);
    if found.None? {
      Singleton(Text([text[cursor]]), f);
      return [text[cursor]], [], cursor + 1;
    }
    var link := found.value;
    LinkRendered(text, cursor, link, images, f);
    var destination := text[link.start..link.end];
    added := text[cursor..link.start];
    called := [];
    if link.image && !images {
      added := added + destination;
    } else {
      added := added + f(destination);
      called := [destination];
    }
    added := added + ")";
    next := link.end + 1;
  }

  /** `_rewrite_fragment`, with the calls of the callback in their order. */
  method RewriteFragment(text: string, f: string -> string, code: Spans, images: bool)
    returns (out: string, calls: seq<string>)
    requires SpansFine(text, code)
    ensures out == Render(FragmentPieces(text, 0, code, images), f)
    ensures calls == Destinations(FragmentPieces(text, 0, code, images))
  {
    hide Head, Next, Render, Destinations;
    out, calls := "", [];
    var cursor := 0;
    while cursor < |text|
      invariant 0 <= cursor <= |text|
      invariant out + Render(FragmentPieces(text, cursor, code, images), f)
        == Render(FragmentPieces(text, 0, code, images), f)
      invariant calls + Destinations(FragmentPieces(text, cursor, code, images))
        == Destinations(FragmentPieces(text, 0, code, images))
      decreases |text| - cursor
    {
      ghost var head, rest := Head(text, cursor, code, images),
        FragmentPieces(text, Next(text, cursor, code), code, images);
      RenderAppend(head, rest, f);
      DestinationsAppend(head, rest);
      var added, called, next := RewriteStep(text, cursor, f, code, images);
      out := out + added;
      calls := calls + called;
      cursor := next;
    }
    NoPieces(f);
    assert out + "" == out && calls + [] == calls;
  }

  lemma NoPieces(f: string -> string)
    ensures Render([], f) == "" && Destinations([]) == [] && Flat([]) == ""
  {
  }

  // ----- what the pieces of a fragment are -----

  lemma Slices(text: string, a: nat, b: nat, c: nat)
    requires a <= b <= c <= |text|
    ensures text[a..b] + text[b..c] == text[a..c]
  {
  }

  lemma LinkIsFlat(text: string, cursor: nat, link: Link, images: bool)
    requires cursor <= link.start <= link.end < |text| && text[link.end] == ')'
    ensures Flat(LinkPieces(text, cursor, link, images)) == text[cursor..link.end + 1]
  {
    hide Flat, Render, Destinations, LinkPieces;
    LinkRendered(text, cursor, link, images, d => d);
    Slices(text, cursor, link.start, link.end);
    Slices(text, cursor, link.end, link.end + 1);
    assert text[link.end..link.end + 1] == ")";
  }

  lemma HeadIsFlat(text: string, cursor: nat, code: Spans, images: bool)
    requires SpansFine(text, code) && cursor < |text|
    ensures Flat(Head(text, cursor, code, images)) == text[cursor..Next(text, cursor, code)]
  {
    hide Flat, LinkAt, LinkPieces, StartsAt;
    if cursor in code {
      Singleton(Text(text[cursor..code[cursor]]), d => d);
    } else {
      var found := LinkAt(text, cursor, code);
      if found.None? {
        Singleton(Text([text[cursor]]), d => d);
        assert [text[cursor]] == text[cursor..cursor + 1];
      } else {
        LinkPlace(text, cursor, code);
        LinkIsFlat(text, cursor, found.value, images);
      }
    }
  }

  /** Put together, the pieces are the fragment. */
  lemma {:induction false} FragmentIsFlat(text: string, cursor: nat, code: Spans, images: bool)
    requires SpansFine(text, code) && cursor <= |text|
    ensures Flat(FragmentPieces(text, cursor, code, images)) == text[cursor..]
    decreases |text| - cursor
  {
    hide Head, Next, Flat, SpansFine;
    if cursor < |text| {
      var next := Next(text, cursor, code);
      HeadIsFlat(text, cursor, code, images);
      FragmentIsFlat(text, next, code, images);
      FlatAppend(Head(text, cursor, code, images), FragmentPieces(text, next, code, images));
      Slices(text, cursor, next, |text|);
      assert text[next..|text|] == text[next..] && text[cursor..|text|] == text[cursor..];
    } else {
      NoPieces(d => d);
    }
  }

  /** A destination is not empty, has no `)` and no line break, and stands between `](` and `)`. */
  ghost predicate WellPlaced(pieces: seq<Piece>, i: nat)
    requires i < |pieces|
  {
    pieces[i].Destination? ==>
      && pieces[i].s != "" && ')' !in pieces[i].s && '\n' !in pieces[i].s
      && 0 < i < |pieces| - 1 && pieces[i + 1] == Text(")")
      && pieces[i - 1].Text? && |pieces[i - 1].s| >= 2 && pieces[i - 1].s[|pieces[i - 1].s| - 2..] == "]("
  }

  ghost predicate AllWellPlaced(pieces: seq<Piece>) {
    forall i :: 0 <= i < |pieces| ==> WellPlaced(pieces, i)
  }

  lemma HeadWellPlaced(text: string, cursor: nat, code: Spans, images: bool)
    requires SpansFine(text, code) && cursor < |text|
    ensures AllWellPlaced(Head(text, cursor, code, images))
  {
    hide LinkAt;
    if cursor !in code && LinkAt(text, cursor, code).Some? {
      LinkPlace(text, cursor, code);
      var link := LinkAt(text, cursor, code).value;
      var before, destination := text[cursor..link.start], text[link.start..link.end];
      assert before[|before| - 2..] == text[link.start - 2..link.start] == "](";
      assert forall c :: c in destination ==> exists i :: link.start <= i < link.end && text[i] == c;
    }
  }

  /** Every destination that reaches the callback is well placed. */
  lemma {:induction false} FragmentWellPlaced(text: string, cursor: nat, code: Spans, images: bool)
    requires SpansFine(text, code)
    ensures AllWellPlaced(FragmentPieces(text, cursor, code, images))
    decreases |text| - cursor
  {
    if cursor < |text| {
      hide Head, Next, WellPlaced;
      HeadWellPlaced(text, cursor, code, images);
      FragmentWellPlaced(text, Next(text, cursor, code), code, images);
      PlacedAfter(Head(text, cursor, code, images), FragmentPieces(text, Next(text, cursor, code), code, images));
    }
  }

  lemma PlacedAfter(a: seq<Piece>, b: seq<Piece>)
    requires AllWellPlaced(a) && AllWellPlaced(b)
    ensures AllWellPlaced(a + b)
  {
    var c := a + b;
    forall i | 0 <= i < |c| ensures WellPlaced(c, i) {
      if i < |a| {
        assert WellPlaced(a, i) && c[i] == a[i];
        assert i + 1 < |a| ==> c[i + 1] == a[i + 1];
      } else {
        assert WellPlaced(b, i - |a|) && c[i] == b[i - |a|];
        assert i + 1 < |c| ==> c[i + 1] == b[i + 1 - |a|];
        assert i > |a| ==> c[i - 1] == b[i - 1 - |a|];
      }
    }
  }
}
