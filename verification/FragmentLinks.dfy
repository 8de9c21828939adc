/** Which texts of a fragment are link destinations (scripts/rewrite_wiki_links.py:35-109), said by their place in the
  * fragment, and what the rewritten fragment is.
  */
module FragmentLinks {
  import opened LinkRewriter
  import opened Wrappers

  /** A link or image that begins at `at`, with its destination between `from` and `to`. */
  datatype Found = Found(image: bool, at: nat, from: nat, to: nat) {
    predicate Covers(p: int) {
      at <= p <= to
    }

    function LabelStart(): nat {
      at + if image then 2 else 1
    }
  }

  /** The first closing bracket that its label does not match. */
  ghost predicate LabelCloses(text: string, start: nat, close: nat, code: Spans) {
    Unmatched(text, start, close, code) && forall p :: start <= p < close ==> !Unmatched(text, start, p, code)
  }

  /** `[` without `!` before it, or `![`; the label up to its first unmatched bracket; `(`, a text that is not empty and
    * has no line break, and the first `)`.
    */
  ghost predicate IsLink(text: string, code: Spans, l: Found) {
    && (if l.image
        then l.at + 1 < |text| && text[l.at] == '!' && text[l.at + 1] == '['
        else l.at < |text| && text[l.at] == '[' && (l.at > 0 ==> text[l.at - 1] != '!'))
    && 2 <= l.from < l.to < |text|
    && LabelCloses(text, l.LabelStart(), l.from - 2, code)
    && text[l.from - 1] == '(' && text[l.to] == ')'
    && forall i :: l.from <= i < l.to ==> text[i] != ')' && text[i] != '\n'
  }

  /** In a code span that does not itself begin inside a link before p. */
  ghost predicate Skipped(code: Spans, links: seq<Found>, p: nat) {
    exists k :: k in code && k <= p < code[k] && Begins(links, k, p)
  }

  ghost predicate Begins(links: seq<Found>, k: nat, p: nat) {
    forall i :: 0 <= i < |links| && links[i].to < p ==> !links[i].Covers(k)
  }

  ghost predicate Covered(links: seq<Found>, p: nat) {
    exists i :: 0 <= i < |links| && links[i].Covers(p)
  }

  ghost predicate InOrder(links: seq<Found>) {
    forall i, j :: 0 <= i < j < |links| ==> links[i].to < links[j].at
  }

  ghost predicate Taken(text: string, code: Spans, l: Found, links: seq<Found>) {
    IsLink(text, code, l) && !Skipped(code, links, l.at)
  }

  /** These are the links of the fragment: each is one, outside code; one ends before the next begins; and wherever else
    * a link would begin is code or inside one of them.
    */
  ghost predicate AreLinks(text: string, code: Spans, links: seq<Found>) {
    && InOrder(links)
    && (forall i :: 0 <= i < |links| ==> Taken(text, code, links[i], links))
    && (forall l :: Taken(text, code, l, links) ==> Covered(links, l.at))
  }

  // ----- there is one such list only -----

  lemma LinkAtOnePlace(text: string, code: Spans, l: Found, m: Found)
    requires IsLink(text, code, l) && IsLink(text, code, m) && l.at == m.at
    ensures l == m
  {
    hide Balance, InCode;
    assert l.image == m.image;
    assert l.from == m.from by {
      assert Unmatched(text, l.LabelStart(), l.from - 2, code) && Unmatched(text, l.LabelStart(), m.from - 2, code);
    }
    assert l.to == m.to;
  }

  ghost predicate Alike(links: seq<Found>, more: seq<Found>, n: nat) {
    n <= |links| && n <= |more| && links[..n] == more[..n]
  }

  /** From n on, the links of the list do not end before p. */
  ghost predicate EndLater(links: seq<Found>, n: nat, p: nat) {
    forall i :: n <= i < |links| ==> p <= links[i].to
  }

  lemma BeginsAlike(links: seq<Found>, more: seq<Found>, n: nat, k: nat, p: nat)
    requires Alike(links, more, n) && EndLater(links, n, p) && EndLater(more, n, p) && Begins(links, k, p)
    ensures Begins(more, k, p)
  {
    forall i | 0 <= i < |more| && more[i].to < p ensures !more[i].Covers(k) {
      assert more[i] == more[..n][i] == links[..n][i] == links[i];
    }
  }

  /** Up to where the lists agree, they skip the same code. */
  lemma SkippedAlike(code: Spans, links: seq<Found>, more: seq<Found>, n: nat, p: nat)
    requires Alike(links, more, n) && EndLater(links, n, p) && EndLater(more, n, p) && Skipped(code, links, p)
    ensures Skipped(code, more, p)
  {
    hide EndLater, Alike, Begins;
    var k :| k in code && k <= p < code[k] && Begins(links, k, p);
    BeginsAlike(links, more, n, k, p);
  }

  lemma EndsAfter(text: string, code: Spans, links: seq<Found>, n: nat, p: nat)
    requires AreLinks(text, code, links) && (n < |links| ==> p <= links[n].at)
    ensures EndLater(links, n, p)
  {
    hide IsLink, Skipped;
    LinksHaveLength(text, code, links);
    forall i | n <= i < |links| ensures p <= links[i].to {
      assert links[i] in links && links[n] in links;
    }
  }

  lemma LinksHaveLength(text: string, code: Spans, links: seq<Found>)
    requires AreLinks(text, code, links)
    ensures forall l :: l in links ==> l.at < l.to && IsLink(text, code, l)
  {
    forall l | l in links ensures l.at < l.to && IsLink(text, code, l) {
      var i :| 0 <= i < |links| && links[i] == l;
      assert Taken(text, code, links[i], links);
    }
  }

  /** Where the first of the two to go on goes on, so does the other, with the same link. */
  lemma FirstGoesOn(text: string, code: Spans, links: seq<Found>, more: seq<Found>, n: nat)
    requires AreLinks(text, code, links) && AreLinks(text, code, more)
    requires Alike(links, more, n) && n < |links| && (n < |more| ==> links[n].at <= more[n].at)
    ensures n < |more| && links[n] == more[n]
  {
    hide IsLink, Skipped, EndLater;
    var l := links[n];
    EndsAfter(text, code, links, n, l.at);
    EndsAfter(text, code, more, n, l.at);
    if Skipped(code, more, l.at) {
      SkippedAlike(code, more, links, n, l.at);
    }
    assert Taken(text, code, l, links) && Taken(text, code, l, more);
    LinksHaveLength(text, code, more);
    FirstCovers(links, more, n);
    assert more[n] in more;
    LinkAtOnePlace(text, code, l, more[n]);
  }

  lemma FirstCovers(links: seq<Found>, more: seq<Found>, n: nat)
    requires InOrder(links) && InOrder(more) && Alike(links, more, n) && n < |links|
    requires (n < |more| ==> links[n].at <= more[n].at) && forall l :: l in more ==> l.at < l.to
    requires Covered(more, links[n].at)
    ensures n < |more| && more[n].at == links[n].at
  {
    var p := links[n].at;
    forall j | 0 <= j < n ensures more[j].to < p {
      assert more[j] == more[..n][j] == links[..n][j] == links[j];
    }
    var i :| 0 <= i < |more| && more[i].Covers(p);
    assert i >= n && more[n] in more;
    assert forall q :: n < q < |more| ==> more[n].to < more[q].at;
  }

  /** Where one list goes on, so does the other, with the same link. */
  lemma NextAlike(text: string, code: Spans, links: seq<Found>, more: seq<Found>, n: nat)
    requires AreLinks(text, code, links) && AreLinks(text, code, more)
    requires Alike(links, more, n) && (n < |links| || n < |more|)
    ensures n < |links| && n < |more| && links[n] == more[n]
  {
    hide AreLinks;
    if n < |links| && (n < |more| ==> links[n].at <= more[n].at) {
      FirstGoesOn(text, code, links, more, n);
    } else {
      FirstGoesOn(text, code, more, links, n);
    }
  }

  lemma {:induction false} SameFrom(text: string, code: Spans, links: seq<Found>, more: seq<Found>, n: nat)
    requires AreLinks(text, code, links) && AreLinks(text, code, more) && Alike(links, more, n)
    ensures links == more
    decreases |links| - n
  {
    hide AreLinks;
    if n < |links| || n < |more| {
      NextAlike(text, code, links, more, n);
      SameFrom(text, code, links, more, n + 1);
    } else {
      assert links == links[..n] && more == more[..n];
    }
  }

  /** A fragment has one list of links. */
  lemma LinksAreUnique(text: string, code: Spans, links: seq<Found>, more: seq<Found>)
    requires AreLinks(text, code, links) && AreLinks(text, code, more)
    ensures links == more
  {
    SameFrom(text, code, links, more, 0);
  }

  // ----- and it is the one that the loop finds -----

  function LinksFrom(text: string, cursor: nat, code: Spans): seq<Found>
    requires SpansFine(text, code)
    decreases |text| - cursor
  {
    if cursor >= |text| then []
    else if cursor in code then LinksFrom(text, code[cursor], code)
    else
      match LinkAt(text, cursor, code)
      case None => LinksFrom(text, cursor + 1, code)
      case Some(link) => [Found(link.image, cursor, link.start, link.end)] + LinksFrom(text, link.end + 1, code)
  }

  lemma LinkAtIsLink(text: string, cursor: nat, code: Spans)
    requires SpansFine(text, code) && Apart(code) && cursor < |text| && LinkAt(text, cursor, code).Some?
    ensures
      var link := LinkAt(text, cursor, code).value;
      IsLink(text, code, Found(link.image, cursor, link.start, link.end))
  {
    hide Unmatched, LabelEnd, Broken;
    var start := LabelStart(text, cursor);
    LabelEndIsFirstUnmatched(text, start, code);
    LinkPlace(text, cursor, code);
  }

  lemma LinkIsFound(text: string, code: Spans, l: Found)
    requires SpansFine(text, code) && Apart(code) && IsLink(text, code, l)
    ensures l.at < |text| && LinkAt(text, l.at, code).Some?
  {
    hide Balance, InCode, LabelEnd;
    var start := l.LabelStart();
    assert LabelStart(text, l.at) == start && Opens(text, l.at);
    LabelEndIsFirstUnmatched(text, start, code);
    var close := l.from - 2;
    assert Unmatched(text, start, close, code);
    assert LabelEnd(text, start, 0, code) == Some(close);
    assert text[close] == ']' by {
      BracketThere(text, start, close, code);
    }
    assert StartsAt(text, close, "](");
    assert Find(text, ')', l.from) == Some(l.to);
  }

  lemma BracketThere(text: string, start: nat, p: nat, code: Spans)
    requires Unmatched(text, start, p, code)
    ensures p < |text| && text[p] == ']'
  {
  }

  /** What holds of the links found when the loop is at the cursor. */
  ghost predicate UpTo(text: string, code: Spans, done: seq<Found>, cursor: nat) {
    && InOrder(done)
    && (forall i :: 0 <= i < |done| ==> Taken(text, code, done[i], done) && done[i].to < cursor)
    && (forall l :: Taken(text, code, l, done) && l.at < cursor ==> Covered(done, l.at))
    && (forall k :: k in code && k < cursor && !Covered(done, k) ==> code[k] <= cursor)
  }

  lemma NothingYet(text: string, code: Spans)
    requires SpansFine(text, code)
    ensures UpTo(text, code, [], 0)
  {
  }

  lemma CodeSkips(code: Spans, done: seq<Found>, k: nat, p: nat)
    requires k in code && k <= p < code[k] && !Covered(done, k)
    ensures Skipped(code, done, p)
  {
    assert Begins(done, k, p);
  }

  lemma NotYetCovered(text: string, code: Spans, done: seq<Found>, cursor: nat)
    requires UpTo(text, code, done, cursor)
    ensures !Covered(done, cursor)
  {
    hide IsLink;
  }

  lemma PastCode(text: string, code: Spans, done: seq<Found>, cursor: nat)
    requires SpansFine(text, code) && Apart(code) && UpTo(text, code, done, cursor) && cursor in code
    ensures UpTo(text, code, done, code[cursor])
  {
    hide IsLink, InOrder, Skipped, Covered;
    NotYetCovered(text, code, done, cursor);
    forall l | Taken(text, code, l, done) && l.at < code[cursor] ensures Covered(done, l.at) {
      if l.at >= cursor {
        CodeSkips(code, done, cursor, l.at);
      }
    }
  }

  lemma PastChar(text: string, code: Spans, done: seq<Found>, cursor: nat)
    requires SpansFine(text, code) && Apart(code) && UpTo(text, code, done, cursor)
    requires cursor < |text| && cursor !in code && LinkAt(text, cursor, code).None?
    ensures UpTo(text, code, done, cursor + 1)
  {
    hide IsLink, InOrder, LinkAt;
    forall l | Taken(text, code, l, done) && l.at < cursor + 1 ensures Covered(done, l.at) {
      LinkIsFound(text, code, l);
    }
  }

  /** Links that come later decide nothing about earlier code. */
  lemma SkippedBefore(code: Spans, done: seq<Found>, l: Found, p: nat)
    requires p <= l.to
    ensures Skipped(code, done + [l], p) <==> Skipped(code, done, p)
  {
    var links := done + [l];
    forall k: nat ensures Begins(links, k, p) <==> Begins(done, k, p) {
      assert forall i :: 0 <= i < |done| ==> links[i] == done[i];
      assert links[|done|] == l;
    }
  }

  lemma CoveredMore(done: seq<Found>, l: Found, p: nat)
    ensures Covered(done + [l], p) <==> Covered(done, p) || l.Covers(p)
  {
    var links := done + [l];
    assert links[|done|] == l;
    assert forall i :: 0 <= i < |done| ==> links[i] == done[i];
  }

  lemma PastLink(text: string, code: Spans, done: seq<Found>, l: Found)
    requires SpansFine(text, code) && Apart(code) && UpTo(text, code, done, l.at)
    requires l.at !in code && IsLink(text, code, l) && l.at < l.to
    ensures UpTo(text, code, done + [l], l.to + 1)
  {
    hide IsLink, Skipped;
    var links := done + [l];
    assert !Skipped(code, done, l.at) by {
      NotSkipped(text, code, done, l.at);
    }
    forall i | 0 <= i < |links| ensures Taken(text, code, links[i], links) && links[i].to < l.to + 1 {
      assert i < |done| ==> links[i] == done[i];
      LinkLength(text, code, links[i]);
      assert Taken(text, code, links[i], done);
      SkippedBefore(code, done, l, links[i].at);
    }
    forall m | Taken(text, code, m, links) && m.at < l.to + 1 ensures Covered(links, m.at) {
      SkippedBefore(code, done, l, m.at);
      CoveredMore(done, l, m.at);
      assert Taken(text, code, m, done);
    }
    forall k | k in code && k < l.to + 1 && !Covered(links, k) ensures code[k] <= l.to + 1 {
      CoveredMore(done, l, k);
    }
  }

  lemma LinkLength(text: string, code: Spans, l: Found)
    requires IsLink(text, code, l)
    ensures l.at + 2 < l.from < l.to < |text|
  {
  }

  lemma NotSkipped(text: string, code: Spans, done: seq<Found>, p: nat)
    requires UpTo(text, code, done, p) && p !in code
    ensures !Skipped(code, done, p)
  {
    hide IsLink;
    forall k | k in code && k <= p < code[k] ensures !Begins(done, k, p) {
      assert Covered(done, k);
    }
  }

  lemma {:induction false} LinksFollow(text: string, code: Spans, done: seq<Found>, cursor: nat)
    requires SpansFine(text, code) && Apart(code) && UpTo(text, code, done, cursor) && cursor <= |text|
    ensures AreLinks(text, code, done + LinksFrom(text, cursor, code))
    decreases |text| - cursor
  {
    hide UpTo, LinkAt, AreLinks, IsLink;
    if cursor >= |text| {
      AllFound(text, code, done, cursor);
      assert done + [] == done;
    } else if cursor in code {
      PastCode(text, code, done, cursor);
      LinksFollow(text, code, done, code[cursor]);
    } else {
      var found := LinkAt(text, cursor, code);
      if found.None? {
        PastChar(text, code, done, cursor);
        LinksFollow(text, code, done, cursor + 1);
      } else {
        var l := Found(found.value.image, cursor, found.value.start, found.value.end);
        LinkAtIsLink(text, cursor, code);
        PastLink(text, code, done, l);
        LinksFollow(text, code, done + [l], l.to + 1);
        assert done + ([l] + LinksFrom(text, l.to + 1, code)) == done + [l] + LinksFrom(text, l.to + 1, code);
      }
    }
  }

  lemma AllFound(text: string, code: Spans, done: seq<Found>, cursor: nat)
    requires UpTo(text, code, done, cursor) && cursor >= |text|
    ensures AreLinks(text, code, done)
  {
    forall l | Taken(text, code, l, done) ensures Covered(done, l.at) {
      assert l.at < |text|;
    }
  }

  // ----- the rewritten fragment -----

  /** The links lie one after the other in the text from `from` on. */
  predicate Fits(text: string, from: nat, links: seq<Found>)
    decreases |links|
  {
    links == [] || (from <= links[0].from <= links[0].to <= |text| && Fits(text, links[0].to, links[1..]))
  }

  /** The text from `from` on, with the callback applied to the destinations of the links, which lie there. */
  function Woven(text: string, from: nat, links: seq<Found>, images: bool, f: string -> string): string
    requires from <= |text| && Fits(text, from, links)
    decreases |links|
  {
    if links == [] then text[from..]
    else
      var l := links[0];
      var destination := text[l.from..l.to];
      text[from..l.from] + (if l.image && !images then destination else f(destination))
      + Woven(text, l.to, links[1..], images, f)
  }

  /** The destinations that reach the callback. */
  function Called(text: string, from: nat, links: seq<Found>, images: bool): seq<string>
    requires from <= |text| && Fits(text, from, links)
    decreases |links|
  {
    if links == [] then []
    else
      var l := links[0];
      (if l.image && !images then [] else [text[l.from..l.to]]) + Called(text, l.to, links[1..], images)
  }

  lemma Regroup(a: string, b: string, c: string, d: string)
    ensures (a + b) + c + d == a + (b + c + d)
  {
  }

  lemma WovenBack(text: string, a: nat, b: nat, links: seq<Found>, images: bool, f: string -> string)
    requires a <= b <= |text| && Fits(text, b, links)
    ensures Fits(text, a, links)
    ensures Woven(text, a, links, images, f) == text[a..b] + Woven(text, b, links, images, f)
    ensures Called(text, a, links, images) == Called(text, b, links, images)
  {
    if links == [] {
      Slices(text, a, b, |text|);
      assert text[a..] == text[a..|text|] && text[b..] == text[b..|text|];
    } else {
      var l := links[0];
      var shown := if l.image && !images then text[l.from..l.to] else f(text[l.from..l.to]);
      Slices(text, a, b, l.from);
      Regroup(text[a..b], text[b..l.from], shown, Woven(text, l.to, links[1..], images, f));
    }
  }

  /** What the pieces of a fragment come to, from the cursor on. */
  lemma {:induction false} PiecesAreWoven(text: string, cursor: nat, code: Spans, images: bool, f: string -> string)
    requires SpansFine(text, code) && cursor <= |text|
    ensures Fits(text, cursor, LinksFrom(text, cursor, code))
    ensures Render(FragmentPieces(text, cursor, code, images), f)
      == Woven(text, cursor, LinksFrom(text, cursor, code), images, f)
    ensures Destinations(FragmentPieces(text, cursor, code, images))
      == Called(text, cursor, LinksFrom(text, cursor, code), images)
    decreases |text| - cursor
  {
    hide LinkAt, LinkPieces, Render, Destinations, Woven, Called, Fits;
    if cursor >= |text| {
      NothingWoven(text, images, f);
    } else {
      var next, head := Next(text, cursor, code), Head(text, cursor, code, images);
      var rest, links := FragmentPieces(text, next, code, images), LinksFrom(text, next, code);
      PiecesAreWoven(text, next, code, images, f);
      RenderAppend(head, rest, f);
      DestinationsAppend(head, rest);
      var found := LinkAt(text, cursor, code);
      if cursor !in code && found.Some? {
        LinkWoven(text, cursor, code, found.value, links, images, f);
      } else {
        HeadIsText(text, cursor, code, images, f);
        WovenBack(text, cursor, next, links, images, f);
      }
    }
  }

  lemma NothingWoven(text: string, images: bool, f: string -> string)
    ensures Fits(text, |text|, []) && Render([], f) == Woven(text, |text|, [], images, f)
    ensures Destinations([]) == Called(text, |text|, [], images)
  {
  }

  lemma HeadIsText(text: string, cursor: nat, code: Spans, images: bool, f: string -> string)
    requires SpansFine(text, code) && cursor < |text| && (cursor in code || LinkAt(text, cursor, code).None?)
    ensures Render(Head(text, cursor, code, images), f) == text[cursor..Next(text, cursor, code)]
    ensures Destinations(Head(text, cursor, code, images)) == []
  {
    hide LinkAt, Render, Destinations, LinkPieces;
    var next := Next(text, cursor, code);
    Singleton(Text(text[cursor..next]), f);
    assert cursor !in code ==> [text[cursor]] == text[cursor..next];
  }

  lemma LinkWoven(text: string, cursor: nat, code: Spans, link: Link, links: seq<Found>, images: bool,
                  f: string -> string)
    requires SpansFine(text, code) && cursor < |text| && LinkAt(text, cursor, code) == Some(link)
    requires Fits(text, link.end + 1, links)
    ensures
      var all, pieces := [Found(link.image, cursor, link.start, link.end)] + links,
        LinkPieces(text, cursor, link, images);
      && Fits(text, cursor, all)
      && Woven(text, cursor, all, images, f) == Render(pieces, f) + Woven(text, link.end + 1, links, images, f)
      && Called(text, cursor, all, images) == Destinations(pieces) + Called(text, link.end + 1, links, images)
  {
    hide LinkAt, LinkPieces, Render, Destinations, StartsAt, SpansFine;
    LinkPlace(text, cursor, code);
    LinkRendered(text, cursor, link, images, f);
    var rest := Woven(text, link.end + 1, links, images, f);
    WovenBack(text, link.end, link.end + 1, links, images, f);
    var all := [Found(link.image, cursor, link.start, link.end)] + links;
    assert all[0] == Found(link.image, cursor, link.start, link.end) && all[1..] == links;
    assert text[link.end..link.end + 1] == ")";
    var destination := text[link.start..link.end];
    var shown := if link.image && !images then destination else f(destination);
    Ungroup(text[cursor..link.start] + shown, ")", rest);
  }

  lemma Ungroup(a: string, b: string, c: string)
    ensures a + (b + c) == (a + b) + c
  {
  }

  /** A rewritten fragment is the fragment with the callback applied to the destinations of its links, and of its images
    * when they count; and the callback is called on these, in order.
    */
  lemma FragmentIsWoven(text: string, code: Spans, images: bool, f: string -> string) returns (links: seq<Found>)
    requires SpansFine(text, code) && Apart(code)
    ensures AreLinks(text, code, links) && Fits(text, 0, links)
    ensures Render(FragmentPieces(text, 0, code, images), f) == Woven(text, 0, links, images, f)
    ensures Destinations(FragmentPieces(text, 0, code, images)) == Called(text, 0, links, images)
  {
    hide UpTo, AreLinks, Woven, Called, Fits, Render, Destinations;
    links := LinksFrom(text, 0, code);
    NothingYet(text, code);
    LinksFollow(text, code, [], 0);
    assert [] + links == links;
    PiecesAreWoven(text, 0, code, images, f);
  }
}
