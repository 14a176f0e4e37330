/** The tags of a whole document: splitting its text nodes yields tag nodes whose source ranges never overlap, so a
    rename may splice them. */
module TagDocument {
  import opened TagScanner
  import opened TagSplice
  import opened TagRename

  /** The tag nodes of a list of children. */
  function TagsOf(nodes: seq<Node>): seq<TagNode> {
    if nodes == [] then []
    else
      (match nodes[0] case Tag(tag, spelling, pos) => [TagNode(tag, pos, spelling)] case _ => [])
      + TagsOf(nodes[1..])
  }

  lemma {:induction false} TagsOfConcat(a: seq<Node>, b: seq<Node>)
    ensures TagsOf(a + b) == TagsOf(a) + TagsOf(b)
    decreases |a|
  {
    if a == [] {
      assert a + b == b;
    } else {
      assert (a + b)[1..] == a[1..] + b;
      TagsOfConcat(a[1..], b);
    }
  }

  /** Non-empty spellings left to right from `from` up to `stop`, each spelled so in the source and beginning at `#`. */
  predicate InPlace(source: Bytes, stop: nat, tags: seq<TagNode>, from: nat)
    decreases |tags|
  {
    tags == [] ||
    var t := tags[0];
    && from <= t.pos < t.pos + |t.spelling| <= stop <= |source|
    && source[t.pos..t.pos + |t.spelling|] == t.spelling && t.spelling[0] == HASH
    && InPlace(source, stop, tags[1..], t.pos + |t.spelling|)
  }

  lemma {:induction false} InPlaceMember(source: Bytes, stop: nat, tags: seq<TagNode>, from: nat, i: nat)
    requires InPlace(source, stop, tags, from) && i < |tags|
    ensures from <= tags[i].pos < tags[i].pos + |tags[i].spelling| <= stop <= |source|
    ensures source[tags[i].pos..tags[i].pos + |tags[i].spelling|] == tags[i].spelling && tags[i].spelling[0] == HASH
    ensures forall j :: i < j < |tags| ==> tags[i].pos + |tags[i].spelling| <= tags[j].pos
    decreases |tags|
  {
    var rest, next := tags[1..], tags[0].pos + |tags[0].spelling|;
    if i > 0 {
      InPlaceMember(source, stop, rest, next, i - 1);
      assert forall j :: i < j < |tags| ==> tags[j] == rest[j - 1];
    } else {
      forall j | 0 < j < |tags|
        ensures next <= tags[j].pos
      {
        InPlaceMember(source, stop, rest, next, j - 1);
      }
    }
  }

  // One text node.

  /** Every match starts at a `#` of the source. */
  ghost predicate AtHash(source: Bytes, span: Span, matches: seq<TagMatch>)
    requires SpanIn(source, span)
  {
    forall m :: m in matches ==>
      span.start <= SourcePos(span, m.start) < span.stop && source[SourcePos(span, m.start)] == HASH
  }

  /** Past the padding, the value reads the source. */
  lemma SourceAt(source: Bytes, span: Span, i: nat)
    requires SpanIn(source, span) && span.padding <= i < |ValueOf(source, span)|
    ensures span.start <= SourcePos(span, i) < span.stop && ValueOf(source, span)[i] == source[SourcePos(span, i)]
  {
    assert ValueOf(source, span)[i] == source[span.start..span.stop][i - span.padding];
  }

  lemma FoundAtHash(lx: Lexicon, source: Bytes, span: Span)
    requires SpanIn(source, span)
    ensures AtHash(source, span, MatchesFrom(lx, ValueOf(source, span), 0))
  {
    var value := ValueOf(source, span);
    var matches := MatchesFrom(lx, value, 0);
    MatchesWellPlaced(lx, value, 0);
    FoundMatchesPlaced(lx, source, span);
    forall m | m in matches
      ensures span.start <= SourcePos(span, m.start) < span.stop && source[SourcePos(span, m.start)] == HASH
    {
      var i :| 0 <= i < |matches| && matches[i] == m;
      assert GoodMatch(value, matches[i]);
      SourceAt(source, span, m.start);
    }
  }

  lemma InPlaceCons(source: Bytes, stop: nat, t: TagNode, rest: seq<TagNode>, from: nat)
    requires from <= t.pos < t.pos + |t.spelling| <= stop <= |source| && t.spelling[0] == HASH
    requires source[t.pos..t.pos + |t.spelling|] == t.spelling && InPlace(source, stop, rest, t.pos + |t.spelling|)
    ensures InPlace(source, stop, [t] + rest, from)
  {
    assert ([t] + rest)[1..] == rest;
  }

  /** The tag of the first piece, and those of the rest. */
  lemma PiecesTags(source: Bytes, text: Node, matches: seq<TagMatch>, cursor: nat, padding: nat, start: nat, end: nat)
    requires text.Text? && SpanIn(source, text.span) && cursor <= text.span.stop && matches != []
    requires Placed(source, text.span, matches, cursor)
    requires start == SourcePos(text.span, matches[0].start) && end == SourcePos(text.span, matches[0].end)
    ensures start <= end <= text.span.stop && Placed(source, text.span, matches[1..], end)
    ensures TagsOf(Pieces(source, text, matches, cursor, padding))
         == [TagNode(matches[0].value, start, source[start..end])] + TagsOf(Pieces(source, text, matches[1..], end, 0))
  {
    PlacedTail(source, text.span, matches, cursor);
    TagsOfConcat(Head(source, text, matches[0], cursor, padding), Pieces(source, text, matches[1..], end, 0));
    HeadTag(source, text, matches[0], cursor, padding);
  }

  lemma {:induction false} PiecesInPlace(source: Bytes, text: Node, matches: seq<TagMatch>, cursor: nat, padding: nat)
    requires text.Text? && SpanIn(source, text.span) && cursor <= text.span.stop
    requires Placed(source, text.span, matches, cursor) && AtHash(source, text.span, matches)
    ensures InPlace(source, text.span.stop, TagsOf(Pieces(source, text, matches, cursor, padding)), cursor)
    decreases |matches|
  {
    if matches != [] {
      var m := matches[0];
      var start, end := SourcePos(text.span, m.start), SourcePos(text.span, m.end);
      PiecesTags(source, text, matches, cursor, padding, start, end);
      PiecesInPlace(source, text, matches[1..], end, 0);
      FirstInPlace(source, text, matches, cursor, start, end);
      InPlaceCons(source, text.span.stop, TagNode(m.value, start, source[start..end]),
                  TagsOf(Pieces(source, text, matches[1..], end, 0)), cursor);
    }
  }

  lemma FirstInPlace(source: Bytes, text: Node, matches: seq<TagMatch>, cursor: nat, start: nat, end: nat)
    requires text.Text? && SpanIn(source, text.span) && matches != []
    requires Placed(source, text.span, matches, cursor) && AtHash(source, text.span, matches)
    requires start == SourcePos(text.span, matches[0].start) && end == SourcePos(text.span, matches[0].end)
    ensures cursor <= start < end <= text.span.stop && source[start..end][0] == HASH
  {
    assert matches[0] in matches && AtHash(source, text.span, matches);
  }

  lemma HeadTag(source: Bytes, text: Node, m: TagMatch, cursor: nat, padding: nat)
    requires text.Text? && SpanIn(source, text.span) && text.span.start <= SourcePos(text.span, m.start)
    requires text.span.padding <= m.start <= m.end && SourcePos(text.span, m.end) <= text.span.stop
    ensures TagsOf(Head(source, text, m, cursor, padding))
         == [TagNode(m.value, SourcePos(text.span, m.start),
                     source[SourcePos(text.span, m.start)..SourcePos(text.span, m.end)])]
  {
    var head := Head(source, text, m, cursor, padding);
    assert TagsOf(head[|head| - 1..]) == TagsOf(head);
  }

  /** The tag nodes a text node is split into. */
  ghost function NodeTags(lx: Lexicon, source: Bytes, text: Node): seq<TagNode>
    requires text.Text? && SpanIn(source, text.span)
  {
    FoundMatchesPlaced(lx, source, text.span);
    TagsOf(Replacement(lx, source, text))
  }

  lemma NodeTagsInPlace(lx: Lexicon, source: Bytes, text: Node)
    requires text.Text? && SpanIn(source, text.span)
    ensures InPlace(source, text.span.stop, NodeTags(lx, source, text), text.span.start)
  {
    var matches := MatchesFrom(lx, ValueOf(source, text.span), 0);
    FoundMatchesPlaced(lx, source, text.span);
    FoundAtHash(lx, source, text.span);
    if matches != [] {
      PiecesInPlace(source, text, matches, text.span.start, text.span.padding);
    } else {
      assert TagsOf([text][1..]) == [];
    }
  }

  // The document.

  function SpanRange(text: Node): SourceRange
    requires text.Text?
  {
    SourceRange(text.span.start, text.span.stop)
  }

  /** Text nodes over disjoint spans of the source, in walk order. */
  ghost predicate DisjointTexts(source: Bytes, texts: seq<Node>) {
    && (forall i :: 0 <= i < |texts| ==> texts[i].Text? && SpanIn(source, texts[i].span))
    && (forall i, j :: 0 <= i < j < |texts| ==> Apart(SpanRange(texts[i]), SpanRange(texts[j])))
  }

  ghost function DocumentTags(lx: Lexicon, source: Bytes, texts: seq<Node>): seq<TagNode>
    requires DisjointTexts(source, texts)
  {
    if texts == [] then [] else NodeTags(lx, source, texts[0]) + DocumentTags(lx, source, texts[1..])
  }

  /** The tag lies in the text and is spelled there. */
  predicate SpelledIn(source: Bytes, text: Node, t: TagNode) {
    && text.Text? && text.span.start <= t.pos && t.pos + |t.spelling| <= text.span.stop
    && t.pos + |t.spelling| <= |source| && t.spelling != [] && t.spelling[0] == HASH
    && source[t.pos..t.pos + |t.spelling|] == t.spelling
  }

  /** The tag lies in one of the texts and is spelled there. */
  ghost predicate Spelled(source: Bytes, texts: seq<Node>, t: TagNode) {
    exists x :: x in texts && SpelledIn(source, x, t)
  }

  lemma NodeTagSpelled(lx: Lexicon, source: Bytes, text: Node, t: TagNode)
    requires text.Text? && SpanIn(source, text.span) && t in NodeTags(lx, source, text)
    ensures SpelledIn(source, text, t)
  {
    var tags := NodeTags(lx, source, text);
    var i :| 0 <= i < |tags| && tags[i] == t;
    NodeTagsInPlace(lx, source, text);
    InPlaceMember(source, text.span.stop, tags, text.span.start, i);
  }

  lemma {:induction false} TagsSpelled(lx: Lexicon, source: Bytes, texts: seq<Node>, t: TagNode)
    requires DisjointTexts(source, texts) && t in DocumentTags(lx, source, texts)
    ensures Spelled(source, texts, t)
    decreases |texts|
  {
    if t in NodeTags(lx, source, texts[0]) {
      NodeTagSpelled(lx, source, texts[0], t);
      assert texts[0] in texts;
    } else {
      TagsSpelled(lx, source, texts[1..], t);
      assert forall x :: x in texts[1..] ==> x in texts;
    }
  }

  predicate TagsApart(a: TagNode, b: TagNode) { Apart(RangeOf(a), RangeOf(b)) }

  predicate AllApart(tags: seq<TagNode>) {
    forall i, j :: 0 <= i < j < |tags| ==> TagsApart(tags[i], tags[j])
  }

  lemma JoinApart(a: seq<TagNode>, b: seq<TagNode>)
    requires AllApart(a) && AllApart(b) && forall x, y :: x in a && y in b ==> TagsApart(x, y)
    ensures AllApart(a + b)
  {
  }

  lemma NodeTagsApart(lx: Lexicon, source: Bytes, text: Node)
    requires text.Text? && SpanIn(source, text.span)
    ensures AllApart(NodeTags(lx, source, text))
  {
    var tags := NodeTags(lx, source, text);
    NodeTagsInPlace(lx, source, text);
    forall i, j | 0 <= i < j < |tags|
      ensures TagsApart(tags[i], tags[j])
    {
      InPlaceMember(source, text.span.stop, tags, text.span.start, i);
    }
  }

  /** A tag of the first text and one of a later text. */
  lemma TextsApart(source: Bytes, texts: seq<Node>, x: TagNode, y: TagNode)
    requires DisjointTexts(source, texts) && texts != [] && SpelledIn(source, texts[0], x)
    requires Spelled(source, texts[1..], y)
    ensures TagsApart(x, y)
  {
    var u :| u in texts[1..] && SpelledIn(source, u, y);
    var k :| 0 <= k < |texts[1..]| && texts[1..][k] == u;
    assert texts[k + 1] == u && Apart(SpanRange(texts[0]), SpanRange(texts[k + 1]));
  }

  lemma {:induction false} DocumentTagsApart(lx: Lexicon, source: Bytes, texts: seq<Node>)
    requires DisjointTexts(source, texts)
    ensures AllApart(DocumentTags(lx, source, texts))
    decreases |texts|
  {
    if texts != [] {
      var first, more := NodeTags(lx, source, texts[0]), DocumentTags(lx, source, texts[1..]);
      DocumentTagsApart(lx, source, texts[1..]);
      NodeTagsApart(lx, source, texts[0]);
      forall x, y | x in first && y in more
        ensures TagsApart(x, y)
      {
        NodeTagSpelled(lx, source, texts[0], x);
        TagsSpelled(lx, source, texts[1..], y);
        TextsApart(source, texts, x, y);
      }
      JoinApart(first, more);
    }
  }

  /** Collecting one tag's ranges keeps them apart. */
  lemma {:induction false} CollectApart(source: Bytes, tags: seq<TagNode>, oldTag: Bytes)
    requires AllApart(tags) && forall t :: t in tags ==> t.pos + |t.spelling| <= |source|
    ensures Disjoint(source, Collect(tags, oldTag))
    ensures forall r :: r in Collect(tags, oldTag) ==> exists t :: t in tags && r == RangeOf(t)
    decreases |tags|
  {
    if tags != [] {
      var t, rest := tags[0], Collect(tags[1..], oldTag);
      assert forall i :: 0 <= i < |tags[1..]| ==> tags[1..][i] == tags[i + 1];
      CollectApart(source, tags[1..], oldTag);
      forall i | 0 <= i < |rest|
        ensures Apart(RangeOf(t), rest[i])
      {
        assert rest[i] in rest;
        var u :| u in tags[1..] && rest[i] == RangeOf(u);
        var k :| 0 <= k < |tags[1..]| && tags[1..][k] == u;
        assert TagsApart(tags[0], tags[k + 1]);
      }
      assert t in tags && forall u :: u in tags[1..] ==> u in tags;
    }
  }

  /** The ranges a rename collects from a document never overlap, and each reads `#` and the spelling of its tag. */
  lemma RenameRangesDisjoint(lx: Lexicon, source: Bytes, texts: seq<Node>, oldTag: Bytes)
    requires DisjointTexts(source, texts)
    ensures Disjoint(source, Collect(DocumentTags(lx, source, texts), oldTag))
    ensures forall t :: t in DocumentTags(lx, source, texts) ==> Spelled(source, texts, t)
  {
    forall t | t in DocumentTags(lx, source, texts)
      ensures Spelled(source, texts, t)
    {
      TagsSpelled(lx, source, texts, t);
    }
    DocumentTagsApart(lx, source, texts);
    CollectApart(source, DocumentTags(lx, source, texts), oldTag);
  }

  /** So the tags of any document can be renamed in one splice. */
  method RenameInDocument(lx: Lexicon, source: Bytes, texts: seq<Node>, tags: seq<TagNode>, oldTag: Bytes,
                          newTag: Bytes)
    returns (output: Bytes)
    requires DisjointTexts(source, texts) && tags == DocumentTags(lx, source, texts)
    ensures Ordered(|source|, SortRanges(Collect(tags, oldTag)), 0)
    ensures output == Spliced(source, SortRanges(Collect(tags, oldTag)), newTag, 0)
  {
    RenameRangesDisjoint(lx, source, texts, oldTag);
    output := RenameTag(source, tags, oldTag, newTag);
  }
}
