/** Splitting a text node around its tags, inside its parent. */
module TagSplice {
  import opened TagScanner

  // Text nodes.

  const SPACE: byte := 0x20

  function Spaces(n: nat): (r: Bytes)
    ensures |r| == n && forall i :: 0 <= i < n ==> r[i] == SPACE
  {
    seq(n, i => SPACE)
  }

  /** A source span, preceded by virtual padding spaces. */
  datatype Span = Span(start: nat, stop: nat, padding: nat)

  predicate SpanIn(source: Bytes, span: Span) { span.start <= span.stop <= |source| }

  function ValueOf(source: Bytes, span: Span): Bytes
    requires SpanIn(source, span)
  {
    Spaces(span.padding) + source[span.start..span.stop]
  }

  datatype Node =
    | Text(span: Span, soft: bool, hard: bool, raw: bool)
    | Tag(tag: Bytes, spelling: Bytes, pos: nat)
    | OtherNode(id: nat)

  /** What a node contributes to the text of its parent. */
  function Contribution(source: Bytes, n: Node): Bytes {
    match n
    case Text(span, _, _, _) => if SpanIn(source, span) then ValueOf(source, span) else []
    case Tag(_, spelling, _) => spelling
    case OtherNode(_) => []
  }

  function Contributions(source: Bytes, nodes: seq<Node>): Bytes {
    if nodes == [] then [] else Contribution(source, nodes[0]) + Contributions(source, nodes[1..])
  }

  /** Matches are in the coordinates of the padded value; source positions leave the padding out. */
  function SourcePos(span: Span, p: nat): int { span.start + p - span.padding }

  /** The text before a match, if any, and the match itself. */
  function Head(source: Bytes, text: Node, m: TagMatch, cursor: nat, padding: nat): seq<Node>
    requires text.Text? && SpanIn(source, text.span)
    requires text.span.padding <= m.start <= m.end && SourcePos(text.span, m.end) <= text.span.stop
  {
    var start, end := SourcePos(text.span, m.start), SourcePos(text.span, m.end);
    (if start > cursor || padding > 0 then [Text(Span(cursor, start, padding), false, false, text.raw)] else [])
    + [Tag(m.value, source[start..end], start)]
  }

  /** The nodes that replace a text node, from `cursor` on. */
  function Pieces(source: Bytes, text: Node, matches: seq<TagMatch>, cursor: nat, padding: nat): seq<Node>
    requires text.Text? && SpanIn(source, text.span) && cursor <= text.span.stop
    requires forall m :: m in matches ==>
      text.span.padding <= m.start <= m.end && SourcePos(text.span, m.end) <= text.span.stop
    decreases |matches|
  {
    if matches == [] then
      if cursor < text.span.stop || text.soft || text.hard
      then [Text(Span(cursor, text.span.stop, 0), text.soft, text.hard, text.raw)]
      else []
    else
      Head(source, text, matches[0], cursor, padding)
      + Pieces(source, text, matches[1..], SourcePos(text.span, matches[0].end), 0)
  }

  /** Matches in order and inside the span, none before `cursor`. */
  ghost predicate Placed(source: Bytes, span: Span, matches: seq<TagMatch>, cursor: nat)
    requires SpanIn(source, span)
  {
    && (forall i :: 0 <= i < |matches| ==>
          && span.padding <= matches[i].start < matches[i].end
          && cursor <= SourcePos(span, matches[i].start)
          && SourcePos(span, matches[i].end) <= span.stop)
    && (forall i, j :: 0 <= i < j < |matches| ==> matches[i].end <= matches[j].start)
  }

  /** A match never starts in the padding, because it starts at `#`. */
  lemma FoundMatchesPlaced(lx: Lexicon, source: Bytes, span: Span)
    requires SpanIn(source, span)
    ensures Placed(source, span, MatchesFrom(lx, ValueOf(source, span), 0), span.start)
  {
    var value := ValueOf(source, span);
    MatchesWellPlaced(lx, value, 0);
    var matches := MatchesFrom(lx, value, 0);
    forall i | 0 <= i < |matches|
      ensures span.padding <= matches[i].start
    {
      assert GoodMatch(value, matches[i]);
      assert forall j :: 0 <= j < span.padding ==> value[j] == SPACE;
    }
  }

  lemma OneContribution(source: Bytes, n: Node)
    ensures Contributions(source, [n]) == Contribution(source, n)
  {
  }

  lemma HeadSpells(source: Bytes, text: Node, m: TagMatch, cursor: nat, padding: nat)
    requires text.Text? && SpanIn(source, text.span)
    requires text.span.padding <= m.start <= m.end && SourcePos(text.span, m.end) <= text.span.stop
    requires cursor <= SourcePos(text.span, m.start)
    ensures Contributions(source, Head(source, text, m, cursor, padding))
         == Spaces(padding) + source[cursor..SourcePos(text.span, m.end)]
  {
    var start, end := SourcePos(text.span, m.start), SourcePos(text.span, m.end);
    var tag := Tag(m.value, source[start..end], start);
    OneContribution(source, tag);
    if start > cursor || padding > 0 {
      var lead := Text(Span(cursor, start, padding), false, false, text.raw);
      OneContribution(source, lead);
      ContributionsConcat(source, [lead], [tag]);
      Adjacent(source, padding, cursor, start, end);
    } else {
      assert source[cursor..start] == [];
      assert Head(source, text, m, cursor, padding) == [tag];
      Adjacent(source, 0, cursor, start, end);
    }
  }

  lemma Adjacent(source: Bytes, padding: nat, a: nat, b: nat, c: nat)
    requires a <= b <= c <= |source|
    ensures Spaces(padding) + source[a..c] == (Spaces(padding) + source[a..b]) + source[b..c]
    ensures Spaces(0) + source[a..c] == source[a..c]
  {
  }

  lemma PlacedTail(source: Bytes, span: Span, matches: seq<TagMatch>, cursor: nat)
    requires SpanIn(source, span) && Placed(source, span, matches, cursor) && matches != []
    ensures span.padding <= matches[0].start < matches[0].end && cursor <= SourcePos(span, matches[0].start)
    ensures SourcePos(span, matches[0].end) <= span.stop
    ensures Placed(source, span, matches[1..], SourcePos(span, matches[0].end))
  {
  }

  lemma SpansJoin(source: Bytes, padding: nat, a: nat, b: nat, c: nat)
    requires a <= b <= c <= |source|
    ensures Spaces(padding) + source[a..c] == (Spaces(padding) + source[a..b]) + (Spaces(0) + source[b..c])
  {
  }

  /** The pieces spell the rest of the segment, padding included. */
  lemma {:induction false} PiecesSpellSegment(source: Bytes, text: Node, matches: seq<TagMatch>, cursor: nat,
                                              padding: nat)
    requires text.Text? && SpanIn(source, text.span) && cursor <= text.span.stop
    requires Placed(source, text.span, matches, cursor) && (matches == [] ==> padding == 0)
    ensures Contributions(source, Pieces(source, text, matches, cursor, padding))
         == Spaces(padding) + source[cursor..text.span.stop]
    decreases |matches|
  {
    if matches != [] {
      var end := SourcePos(text.span, matches[0].end);
      PlacedTail(source, text.span, matches, cursor);
      HeadSpells(source, text, matches[0], cursor, padding);
      PiecesSpellSegment(source, text, matches[1..], end, 0);
      ContributionsConcat(source, Head(source, text, matches[0], cursor, padding),
                          Pieces(source, text, matches[1..], end, 0));
      SpansJoin(source, padding, cursor, end, text.span.stop);
    } else if cursor < text.span.stop || text.soft || text.hard {
      OneContribution(source, Text(Span(cursor, text.span.stop, 0), text.soft, text.hard, text.raw));
    }
  }

  lemma {:induction false} ContributionsConcat(source: Bytes, a: seq<Node>, b: seq<Node>)
    ensures Contributions(source, a + b) == Contributions(source, a) + Contributions(source, b)
    decreases |a|
  {
    if a == [] {
      assert a + b == b;
    } else {
      assert (a + b)[1..] == a[1..] + b;
      ContributionsConcat(source, a[1..], b);
    }
  }

  /** The nodes a text node is replaced with; untouched when it holds no tag. */
  ghost function Replacement(lx: Lexicon, source: Bytes, text: Node): seq<Node>
    requires text.Text? && SpanIn(source, text.span)
    requires Placed(source, text.span, MatchesFrom(lx, ValueOf(source, text.span), 0), text.span.start)
  {
    var matches := MatchesFrom(lx, ValueOf(source, text.span), 0);
    if matches == [] then [text] else Pieces(source, text, matches, text.span.start, text.span.padding)
  }

  /** The pieces made so far and those of the remaining matches are all of them. */
  ghost predicate PiecesLeft(all: seq<Node>, done: seq<Node>, source: Bytes, text: Node, matches: seq<TagMatch>,
                             cursor: nat, padding: nat)
    requires text.Text? && SpanIn(source, text.span)
  {
    && cursor <= text.span.stop && Placed(source, text.span, matches, cursor)
    && all == done + Pieces(source, text, matches, cursor, padding)
  }

  lemma PiecesNext(all: seq<Node>, done: seq<Node>, source: Bytes, text: Node, matches: seq<TagMatch>, cursor: nat,
                   padding: nat)
    requires text.Text? && SpanIn(source, text.span)
    requires PiecesLeft(all, done, source, text, matches, cursor, padding) && matches != []
    ensures text.span.padding <= matches[0].start <= matches[0].end
    ensures SourcePos(text.span, matches[0].end) <= text.span.stop
    ensures SourcePos(text.span, matches[0].end) >= cursor
    ensures PiecesLeft(all, done + Head(source, text, matches[0], cursor, padding), source, text, matches[1..],
                       SourcePos(text.span, matches[0].end), 0)
  {
  }

  class Parent {
    var children: seq<Node>

    constructor (children: seq<Node>)
      ensures this.children == children
    {
      this.children := children;
    }

    /** Puts a node in front of the child at `k`, which moves one place on. */
    method InsertBefore(k: nat, n: Node)
      requires k < |children|
      modifies this
      ensures children == old(children[..k] + [n] + children[k..])
    {
      children := children[..k] + [n] + children[k..];
    }

    /** Splits the text node at `k` around its tags; the parent's text does not change. */
    method ReplaceTagsInText(k: nat, lx: Lexicon, source: Bytes)
      requires k < |children| && children[k].Text? && SpanIn(source, children[k].span)
      modifies this
      ensures Placed(source, old(children[k].span), MatchesFrom(lx, ValueOf(source, old(children[k].span)), 0),
                     old(children[k].span.start))
      ensures children == old(children[..k]) + Replacement(lx, source, old(children[k])) + old(children[k + 1..])
      ensures Contributions(source, children) == old(Contributions(source, children))
    {
      var text := children[k];
      FoundMatchesPlaced(lx, source, text.span);
      ReplacementSpells(lx, source, children, k);
      var matches := FindTagMatches(lx, ValueOf(source, text.span));
      if |matches| == 0 {
        assert children == children[..k] + [text] + children[k + 1..];
        return;
      }
      SplitAround(k, text, matches, source);
    }

    /** Inserts the pieces in front of the text node, then removes it. */
    method SplitAround(k: nat, text: Node, matches: seq<TagMatch>, source: Bytes)
      requires k < |children| && children[k] == text && text.Text? && SpanIn(source, text.span)
      requires Placed(source, text.span, matches, text.span.start)
      modifies this
      ensures children
           == old(children[..k]) + Pieces(source, text, matches, text.span.start, text.span.padding)
             + old(children[k + 1..])
    {
      var span := text.span;
      var cursor: nat := span.start;
      var padding := span.padding;
      var post := children[k..];
      ghost var pre, done := children[..k], [];
      ghost var all := Pieces(source, text, matches, span.start, span.padding);
      assert children == pre + done + post;
      for i := 0 to |matches|
        invariant children == pre + done + post
        invariant PiecesLeft(all, done, source, text, matches[i..], cursor, padding)
      {
        assert matches[i..][1..] == matches[i + 1..];
        PiecesNext(all, done, source, text, matches[i..], cursor, padding);
        ghost var head := InsertMatch(pre, done, post, text, matches[i], source, cursor, padding);
        done := done + head;
        cursor, padding := SourcePos(span, matches[i].end), 0;
      }
      if cursor < span.stop || text.soft || text.hard {
        var last := Text(Span(cursor, span.stop, 0), text.soft, text.hard, text.raw);
        InsertBetween(pre, done, post, last);
        done := done + [last];
      }
      assert done == all;
      RemoveFirst(pre + done, post);
    }

    /** Removes the text node, which is the first of `post`. */
    method RemoveFirst(ghost before: seq<Node>, post: seq<Node>)
      requires children == before + post && post != []
      modifies this
      ensures children == before + post[1..]
    {
      var at := |children| - |post|;
      assert children[..at] == before && children[at + 1..] == post[1..];
      children := children[..at] + children[at + 1..];
    }

    /** The text before a match, then the match. */
    method InsertMatch(ghost pre: seq<Node>, ghost done: seq<Node>, post: seq<Node>, text: Node, m: TagMatch,
                       source: Bytes, cursor: nat, padding: nat) returns (ghost head: seq<Node>)
      requires children == pre + done + post && post != [] && text.Text? && SpanIn(source, text.span)
      requires text.span.padding <= m.start <= m.end && SourcePos(text.span, m.end) <= text.span.stop
      modifies this
      ensures head == Head(source, text, m, cursor, padding)
      ensures children == pre + (done + head) + post
    {
      var start, end := SourcePos(text.span, m.start), SourcePos(text.span, m.end);
      head := [];
      if start > cursor || padding > 0 {
        var lead := Text(Span(cursor, start, padding), false, false, text.raw);
        InsertBetween(pre, done, post, lead);
        head := [lead];
      } else {
        assert done + head == done;
      }
      var tag := Tag(m.value, source[start..end], start);
      InsertBetween(pre, done + head, post, tag);
      head := head + [tag];
      assert done + head == done + head[..|head| - 1] + [tag];
    }

    /** `InsertBefore` the text node, which is the first of `post`. */
    method InsertBetween(ghost pre: seq<Node>, ghost done: seq<Node>, post: seq<Node>, n: Node)
      requires children == pre + done + post && post != []
      modifies this
      ensures children == pre + (done + [n]) + post
    {
      var at := |children| - |post|;
      assert children[..at] == pre + done && children[at..] == post;
      InsertBefore(at, n);
    }
  }

  /** Replacing a text node leaves the parent's text as it was. */
  lemma ReplacementSpells(lx: Lexicon, source: Bytes, children: seq<Node>, k: nat)
    requires k < |children| && children[k].Text? && SpanIn(source, children[k].span)
    requires Placed(source, children[k].span, MatchesFrom(lx, ValueOf(source, children[k].span), 0),
                    children[k].span.start)
    ensures Contributions(source, children[..k] + Replacement(lx, source, children[k]) + children[k + 1..])
         == Contributions(source, children)
  {
    var text := children[k];
    var matches := MatchesFrom(lx, ValueOf(source, text.span), 0);
    if matches == [] {
      assert children == children[..k] + [text] + children[k + 1..];
    } else {
      PiecesReplace(source, children, k, matches);
    }
  }

  lemma PiecesReplace(source: Bytes, children: seq<Node>, k: nat, matches: seq<TagMatch>)
    requires k < |children| && children[k].Text? && SpanIn(source, children[k].span)
    requires matches != [] && Placed(source, children[k].span, matches, children[k].span.start)
    ensures var text := children[k];
      Contributions(source,
                    children[..k] + Pieces(source, text, matches, text.span.start, text.span.padding)
                      + children[k + 1..])
      == Contributions(source, children)
  {
    var text := children[k];
    OneContribution(source, text);
    PiecesSpellSegment(source, text, matches, text.span.start, text.span.padding);
    SwapSpells(source, children[..k], Pieces(source, text, matches, text.span.start, text.span.padding), [text],
               children[k + 1..]);
    assert children == children[..k] + [text] + children[k + 1..];
  }

  lemma SwapSpells(source: Bytes, a: seq<Node>, b: seq<Node>, c: seq<Node>, d: seq<Node>)
    requires Contributions(source, b) == Contributions(source, c)
    ensures Contributions(source, a + b + d) == Contributions(source, a + c + d)
  {
    ContributionsConcat(source, a + b, d);
    ContributionsConcat(source, a, b);
    ContributionsConcat(source, a + c, d);
    ContributionsConcat(source, a, c);
  }

  predicate NoBreakBeforeLast(p: seq<Node>) {
    forall i :: 0 <= i < |p| - 1 && p[i].Text? ==> !p[i].soft && !p[i].hard
  }

  /** The line break of the original node survives, on the last piece only. */
  lemma {:induction false} LineBreaksSurvive(source: Bytes, text: Node, matches: seq<TagMatch>, cursor: nat,
                                             padding: nat)
    requires text.Text? && SpanIn(source, text.span) && cursor <= text.span.stop
    requires Placed(source, text.span, matches, cursor)
    ensures var p := Pieces(source, text, matches, cursor, padding);
      && NoBreakBeforeLast(p)
      && (text.soft || text.hard ==>
          p != [] && p[|p| - 1].Text? && p[|p| - 1].soft == text.soft && p[|p| - 1].hard == text.hard)
    decreases |matches|
  {
    if matches != [] {
      var end := SourcePos(text.span, matches[0].end);
      PlacedTail(source, text.span, matches, cursor);
      LineBreaksSurvive(source, text, matches[1..], end, 0);
      var head, rest := Head(source, text, matches[0], cursor, padding), Pieces(source, text, matches[1..], end, 0);
      assert forall n :: n in head && n.Text? ==> !n.soft && !n.hard;
      BreaksJoin(head, rest);
    }
  }

  lemma BreaksJoin(head: seq<Node>, rest: seq<Node>)
    requires forall n :: n in head && n.Text? ==> !n.soft && !n.hard
    requires NoBreakBeforeLast(rest)
    ensures NoBreakBeforeLast(head + rest)
  {
  }

  /** A text node that reads nothing and breaks no line. */
  predicate Idle(n: Node) { n.Text? && n.span.start >= n.span.stop && n.span.padding == 0 && !n.soft && !n.hard }

  /** No piece is idle, and a text piece is raw where the node was. */
  lemma {:induction false} PiecesAreNeeded(source: Bytes, text: Node, matches: seq<TagMatch>, cursor: nat, padding: nat)
    requires text.Text? && SpanIn(source, text.span) && cursor <= text.span.stop
    requires forall m :: m in matches ==>
      text.span.padding <= m.start <= m.end && SourcePos(text.span, m.end) <= text.span.stop
    ensures forall n :: n in Pieces(source, text, matches, cursor, padding) ==>
      n.Tag? || (n.Text? && n.raw == text.raw && !Idle(n))
    decreases |matches|
  {
    if matches != [] {
      var m := matches[0];
      PiecesAreNeeded(source, text, matches[1..], SourcePos(text.span, m.end), 0);
      assert forall n :: n in Head(source, text, m, cursor, padding) ==>
        n.Tag? || (n.Text? && n.raw == text.raw && !Idle(n));
    }
  }
}
