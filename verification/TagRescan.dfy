/** What scanning a renamed text finds, and renaming the tags it finds. */
module TagRescan {
  import opened Wrappers
  import opened TagScanner
  import opened TagRename
  import opened TagLocality

  // The tags a text holds.

  function Values(ms: seq<TagMatch>): (r: seq<Bytes>)
    ensures |r| == |ms| && forall i :: 0 <= i < |r| ==> r[i] == ms[i].value
  {
    seq(|ms|, i requires 0 <= i < |ms| => ms[i].value)
  }

  function RangeIn(m: TagMatch, tag: Bytes): seq<SourceRange> {
    if m.value == tag then [SourceRange(m.start, m.end)] else []
  }

  function RangesFor(ms: seq<TagMatch>, tag: Bytes): seq<SourceRange> {
    if ms == [] then [] else RangeIn(ms[0], tag) + RangesFor(ms[1..], tag)
  }

  lemma NoRanges(tag: Bytes)
    ensures RangesFor([], tag) == []
  {
  }

  lemma RangesCons(m: TagMatch, rest: seq<TagMatch>, tag: Bytes)
    ensures RangesFor([m] + rest, tag) == RangeIn(m, tag) + RangesFor(rest, tag)
  {
    assert ([m] + rest)[1..] == rest;
  }

  lemma {:induction false} RangesConcat(a: seq<TagMatch>, b: seq<TagMatch>, tag: Bytes)
    ensures RangesFor(a + b, tag) == RangesFor(a, tag) + RangesFor(b, tag)
    decreases |a|
  {
    hide RangesFor, RangeIn;
    if a == [] {
      assert a + b == b;
      NoRanges(tag);
    } else {
      var m, rest := a[0], a[1..];
      assert a == [m] + rest && a + b == [m] + (rest + b);
      RangesCons(m, rest, tag);
      RangesCons(m, rest + b, tag);
      RangesConcat(rest, b, tag);
    }
  }

  /** Ranges come from matches. */
  lemma {:induction false} RangesFrom(ms: seq<TagMatch>, tag: Bytes, r: SourceRange)
    requires r in RangesFor(ms, tag)
    ensures TagMatch(r.start, r.end, tag) in ms
    decreases |ms|
  {
    if r in RangesFor(ms[1..], tag) { RangesFrom(ms[1..], tag, r); }
  }

  /** Only a tag that occurs has any. */
  lemma {:induction false} RangesIff(ms: seq<TagMatch>, tag: Bytes)
    ensures RangesFor(ms, tag) == [] <==> tag !in Values(ms)
    decreases |ms|
  {
    if ms != [] {
      RangesIff(ms[1..], tag);
      assert Values(ms) == [ms[0].value] + Values(ms[1..]);
    }
  }

  /** The scan steps over a match at its start. */
  lemma {:induction false} MatchIsStep(lx: Lexicon, s: Bytes, pos: nat, m: TagMatch)
    requires pos <= |s| && m in MatchesFrom(lx, s, pos)
    ensures m.start < |s| && MatchStep(lx, s, m.start) == (m.end, [m])
    decreases |s| - pos
  {
    hide SkipLength, Identifier;
    var step := MatchStep(lx, s, pos);
    if m !in step.1 { MatchIsStep(lx, s, step.0, m); }
  }

  lemma SuffixScan(lx: Lexicon, s: Bytes, pos: nat)
    requires pos <= |s|
    ensures MatchesFrom(lx, s, pos) == Shifted(ScanText(lx, s[pos..]), pos)
  {
    hide MatchesFrom;
    assert s == s[..pos] + s[pos..];
    MatchesShift(lx, s[..pos], s[pos..], 0);
  }

  /** The lexicon tells `#` and emoji apart as Unicode's tables do. */
  ghost predicate Plain(lx: Lexicon) { AsciiLeads(lx) && Closes(lx, HASH) }

  /** Before the range stands no byte that could escape its `#` or begin a reference; the byte after it closes the new
      tag. */
  predicate Delimited(lx: Lexicon, text: Bytes, r: SourceRange, newTag: Bytes)
    requires r.start < r.end <= |text|
  {
    && (r.start > 0 ==> text[r.start - 1] != BACKSLASH && text[r.start - 1] != AMPERSAND)
    && (r.end < |text| ==>
          && Closes(lx, text[r.end])
          && (newTag != [] && newTag[|newTag| - 1] == BACKSLASH ==> !IsPunct(text[r.end]))
          && (newTag != [] && newTag[|newTag| - 1] == AMPERSAND ==> text[r.end] != HASH))
  }

  // Where a tag ends, no emoji follows.

  predicate NoEmojiAt(lx: Lexicon, s: Bytes, pos: nat) {
    pos < |s| && s[pos] != AMPERSAND ==> EmojiLength(lx, s[pos..]) == 0
  }

  lemma {:induction false} RestStops(lx: Lexicon, s: Bytes, c: Scan)
    requires c.pos <= |s|
    ensures NoEmojiAt(lx, s, SegmentRest(lx, s, c).pos)
    decreases |s| - c.pos
  {
    hide EmojiLength, ReferenceLength, DecodeRune, StartsWord;
    if SegmentStep(lx, s, c).Some? { RestStops(lx, s, SegmentStep(lx, s, c).value); }
  }

  lemma SegmentStops(lx: Lexicon, s: Bytes)
    requires Segment(lx, s).Some?
    ensures NoEmojiAt(lx, s, Segment(lx, s).value.0)
  {
    RestStops(lx, s, SegmentStart(lx, s, 0).value);
  }

  lemma {:induction false} IdentifierRestStops(lx: Lexicon, s: Bytes, consumed: nat, value: Bytes)
    requires consumed <= |s| && NoEmojiAt(lx, s, consumed)
    ensures NoEmojiAt(lx, s, IdentifierRest(lx, s, consumed, value).0)
    decreases |s| - consumed
  {
    hide EmojiLength, Segment;
    if IdentifierStep(lx, s, consumed).Some? {
      var (next, v) := IdentifierStep(lx, s, consumed).value;
      SegmentStops(lx, s[consumed + 1..]);
      Beyond(lx, s, consumed + 1, next);
      IdentifierRestStops(lx, s, next, value + [SLASH] + v);
    }
  }

  lemma Beyond(lx: Lexicon, s: Bytes, from: nat, pos: nat)
    requires from <= pos <= |s| && NoEmojiAt(lx, s[from..], pos - from)
    ensures NoEmojiAt(lx, s, pos)
  {
    hide EmojiLength;
    assert s[from..][pos - from..] == s[pos..];
  }

  lemma MatchStops(lx: Lexicon, s: Bytes, m: TagMatch)
    requires m.start < |s| && MatchStep(lx, s, m.start) == (m.end, [m])
    ensures m.start < m.end <= |s| && SkipLength(lx, s[m.start..]) == 0 && s[m.start] == HASH
    ensures EmojiLength(lx, s[m.start..]) == 0 && NoEmojiAt(lx, s, m.end)
  {
    hide EmojiLength, ReferenceLength, DecodeRune, Segment, IdentifierRest;
    var x := s[m.start + 1..];
    SegmentStops(lx, x);
    IdentifierRestStops(lx, x, Segment(lx, x).value.0, Segment(lx, x).value.1);
    Beyond(lx, s, m.start + 1, m.end);
  }

  // The first range to rename.

  lemma StartsAfter(lx: Lexicon, text: Bytes, cursor: nat, m: TagMatch)
    requires cursor <= |text| && m in MatchesFrom(lx, text, cursor)
    ensures cursor <= m.start
  {
    hide MatchesFrom, GoodMatch;
    MatchesWellPlaced(lx, text, cursor);
    var ms := MatchesFrom(lx, text, cursor);
    var i :| 0 <= i < |ms| && ms[i] == m;
  }

  /** Up to a tag's `#`, the scan is that of the bytes in between. */
  lemma ScanUpTo(lx: Lexicon, text: Bytes, cursor: nat, p: nat)
    requires Plain(lx) && cursor <= p < |text| && text[p] == HASH && EmojiLength(lx, text[p..]) == 0
    requires p > cursor ==> text[p - 1] != BACKSLASH && text[p - 1] != AMPERSAND
    ensures MatchesFrom(lx, text, cursor)
         == Shifted(ScanText(lx, text[cursor..p]), cursor) + MatchesFrom(lx, text, p)
  {
    hide MatchesFrom, EmojiLength, Closes;
    var k, w := text[cursor..p], text[p..];
    assert text[cursor..] == k + w && w[0] == HASH;
    assert k != [] ==> k[|k| - 1] == text[p - 1];
    ScanSplits(lx, k, w);
    SuffixScan(lx, text, cursor);
    SuffixScan(lx, text, p);
    ShiftedConcat(ScanText(lx, k), Shifted(ScanText(lx, w), |k|), cursor);
    ShiftedTwice(ScanText(lx, w), |k|, cursor);
  }

  lemma ShiftedTwice(ms: seq<TagMatch>, a: nat, b: nat)
    ensures Shifted(Shifted(ms, a), b) == Shifted(ms, a + b)
  {
  }

  lemma ScanInside(lx: Lexicon, s: Bytes)
    ensures forall m :: m in ScanText(lx, s) ==> m.start < m.end <= |s|
  {
    hide MatchesFrom;
    MatchesWellPlaced(lx, s, 0);
    var ms := ScanText(lx, s);
    forall m | m in ms
      ensures m.start < m.end <= |s|
    {
      var i :| 0 <= i < |ms| && ms[i] == m;
      assert GoodMatch(s, ms[i]);
    }
  }

  lemma NotBefore(k: seq<TagMatch>, cursor: nat, r: SourceRange, tag: Bytes, width: nat)
    requires (forall m :: m in k ==> m.start < m.end <= width) && r.start == cursor + width
    ensures r !in RangesFor(Shifted(k, cursor), tag)
  {
    hide RangesFor;
    var before := Shifted(k, cursor);
    assert forall i :: 0 <= i < |k| ==> k[i] in k && before[i].end <= r.start;
    if r in RangesFor(before, tag) { RangesFrom(before, tag, r); }
  }

  /** Matches of the bytes before a range contribute no range of their own if it is the first. */
  lemma FirstRangeIs(k: seq<TagMatch>, cursor: nat, r: SourceRange, tag: Bytes, rest: seq<TagMatch>,
                     ranges: seq<SourceRange>, width: nat)
    requires (forall m :: m in k ==> m.start < m.end <= width) && r.start == cursor + width && ranges != []
    requires ranges == RangesFor(Shifted(k, cursor) + ([TagMatch(r.start, r.end, tag)] + rest), tag) && ranges[0] == r
    ensures tag !in Values(k) && ranges[1..] == RangesFor(rest, tag)
  {
    var before, m := Shifted(k, cursor), TagMatch(r.start, r.end, tag);
    var own := RangesFor(before, tag);
    RangesConcat(before, [m] + rest, tag);
    RangesCons(m, rest, tag);
    assert ranges == own + ([r] + RangesFor(rest, tag));
    if own != [] {
      assert own[0] == r;
      NotBefore(k, cursor, r, tag, width);
      assert false;
    }
    RangesIff(before, tag);
    assert Values(before) == Values(k);
  }

  /** The scan splits before the first match of a tag, and starts again behind it. */
  lemma FirstRange(lx: Lexicon, text: Bytes, ranges: seq<SourceRange>, tag: Bytes, cursor: nat)
    requires Plain(lx) && cursor <= |text| && ranges == RangesFor(MatchesFrom(lx, text, cursor), tag) && ranges != []
    requires var p := ranges[0].start;
      cursor < p <= |text| ==> text[p - 1] != BACKSLASH && text[p - 1] != AMPERSAND
    ensures var r := ranges[0];
      && cursor <= r.start < r.end <= |text|
      && MatchStep(lx, text, r.start) == (r.end, [TagMatch(r.start, r.end, tag)])
      && MatchesFrom(lx, text, cursor)
         == Shifted(ScanText(lx, text[cursor..r.start]), cursor)
            + ([TagMatch(r.start, r.end, tag)] + MatchesFrom(lx, text, r.end))
      && tag !in Values(ScanText(lx, text[cursor..r.start]))
      && ranges[1..] == RangesFor(MatchesFrom(lx, text, r.end), tag)
  {
    hide MatchesFrom, MatchStep, EmojiLength, SkipLength, Closes;
    var r, ms := ranges[0], MatchesFrom(lx, text, cursor);
    var m := TagMatch(r.start, r.end, tag);
    RangesFrom(ms, tag, r);
    MatchIsStep(lx, text, cursor, m);
    MatchStops(lx, text, m);
    StartsAfter(lx, text, cursor, m);
    ScanUpTo(lx, text, cursor, r.start);
    MatchesUnfold(lx, text, r.start, (r.end, [m]));
    var k := ScanText(lx, text[cursor..r.start]);
    ScanInside(lx, text[cursor..r.start]);
    FirstRangeIs(k, cursor, r, tag, MatchesFrom(lx, text, r.end), ranges, |text[cursor..r.start]|);
  }

  // Renaming.

  function Renamed(newTag: Bytes): Bytes { [HASH] + newTag }

  /** What the bytes behind a renamed range begin with. */
  lemma SplicedFront(text: Bytes, ranges: seq<SourceRange>, newTag: Bytes, cursor: nat)
    requires cursor <= |text| && Ordered(|text|, ranges, cursor)
    requires ranges != [] ==> text[ranges[0].start] == HASH
    ensures Spliced(text, ranges, newTag, cursor) == [] <==> cursor == |text|
    ensures cursor < |text| ==> Spliced(text, ranges, newTag, cursor)[0] == text[cursor]
  {
    if ranges != [] && cursor == ranges[0].start {
      assert text[cursor..ranges[0].start] == [];
    }
  }

  lemma EmojiPrefix(lx: Lexicon, s: Bytes, rest: Bytes)
    requires AsciiLeads(lx) && s != [] && (rest == [] || rest[0] < 0x80)
    ensures EmojiLength(lx, s + rest) == EmojiLength(lx, s)
  {
    EmojiFromLocal(lx, s, rest, 0, 0);
  }

  /** A range of a tag to rename, the tag beginning at `#` and delimited. */
  predicate Renamable(lx: Lexicon, text: Bytes, ranges: seq<SourceRange>, newTag: Bytes) {
    forall r :: r in ranges ==> r.start < r.end <= |text| && text[r.start] == HASH && Delimited(lx, text, r, newTag)
  }

  /** No emoji begins behind a renamed range if none did before. */
  lemma SplicedNoEmoji(lx: Lexicon, text: Bytes, ranges: seq<SourceRange>, newTag: Bytes, cursor: nat)
    requires Plain(lx) && EmojiLength(lx, Renamed(newTag)) == 0
    requires cursor <= |text| && Ordered(|text|, ranges, cursor) && Renamable(lx, text, ranges, newTag)
    requires EmojiLength(lx, text[cursor..]) == 0
    ensures EmojiLength(lx, Spliced(text, ranges, newTag, cursor)) == 0
  {
    hide EmojiLength, Closes, Spliced;
    if ranges == [] {
      SplicedNone(text, newTag, cursor);
    } else {
      var r, rest := ranges[0], ranges[1..];
      var tail := Spliced(text, rest, newTag, r.end);
      assert r in ranges && forall x :: x in rest ==> x in ranges;
      assert rest != [] ==> rest[0] in ranges;
      SplicedFront(text, rest, newTag, r.end);
      assert ranges == [r] + rest && text[cursor..] == text[cursor..r.start] + text[r.start..];
      SplicedCons(text, r, rest, newTag, cursor);
      ClosesAscii(lx, text, r, newTag);
      NoEmojiAfter(lx, text[cursor..r.start], text[r.start..], newTag, tail);
    }
  }

  lemma SplicedNone(text: Bytes, newTag: Bytes, cursor: nat)
    requires cursor <= |text|
    ensures Ordered(|text|, [], cursor) && Spliced(text, [], newTag, cursor) == text[cursor..]
  {
  }

  lemma ClosesAscii(lx: Lexicon, text: Bytes, r: SourceRange, newTag: Bytes)
    requires r.start < r.end <= |text| && Delimited(lx, text, r, newTag)
    ensures r.end < |text| ==> text[r.end] < 0x80
  {
  }

  lemma NoEmojiAfter(lx: Lexicon, gap: Bytes, was: Bytes, newTag: Bytes, tail: Bytes)
    requires Plain(lx) && EmojiLength(lx, Renamed(newTag)) == 0 && EmojiLength(lx, gap + was) == 0
    requires was != [] && was[0] == HASH && (tail == [] || tail[0] < 0x80)
    ensures EmojiLength(lx, gap + Renamed(newTag) + tail) == 0
  {
    hide EmojiLength;
    var now := Renamed(newTag) + tail;
    assert gap + Renamed(newTag) + tail == gap + now;
    if gap == [] {
      assert gap + now == now;
      EmojiPrefix(lx, Renamed(newTag), tail);
    } else {
      EmojiPrefix(lx, gap, was);
      EmojiPrefix(lx, gap, now);
    }
  }

  /** The new tag ends where the text goes on. */
  lemma RenamedEnds(lx: Lexicon, text: Bytes, r: SourceRange, newTag: Bytes, tail: Bytes)
    requires Plain(lx) && r.start < r.end <= |text| && Delimited(lx, text, r, newTag)
    requires (tail == [] <==> r.end == |text|) && (r.end < |text| ==> tail[0] == text[r.end])
    requires EmojiLength(lx, tail) == 0 || tail == []
    ensures Ends(lx, Renamed(newTag), tail)
  {
    hide EmojiLength, IsPunct;
    var t := Renamed(newTag);
    assert t[|t| - 1] == if newTag == [] then HASH else newTag[|newTag| - 1];
  }

  /** So does the gap before it. */
  lemma GapEnds(lx: Lexicon, text: Bytes, cursor: nat, r: SourceRange, newTag: Bytes, tail: Bytes)
    requires Plain(lx) && cursor <= r.start < r.end <= |text| && Delimited(lx, text, r, newTag)
    requires EmojiLength(lx, Renamed(newTag)) == 0 && (tail == [] || tail[0] < 0x80)
    ensures Ends(lx, text[cursor..r.start], Renamed(newTag) + tail)
  {
    hide EmojiLength;
    var k := text[cursor..r.start];
    EmojiPrefix(lx, Renamed(newTag), tail);
    assert k != [] ==> k[|k| - 1] == text[r.start - 1];
  }

  /** The renamed bytes are scanned piece by piece. */
  lemma PiecesScanned(lx: Lexicon, k: Bytes, t: Bytes, tail: Bytes)
    requires Plain(lx) && Ends(lx, k, t + tail) && Ends(lx, t, tail)
    ensures ScanText(lx, k + t + tail)
         == ScanText(lx, k) + Shifted(ScanText(lx, t), |k|) + Shifted(ScanText(lx, tail), |k| + |t|)
  {
    hide ScanText, Ends;
    ScanSplits(lx, k, t + tail);
    ScanSplits(lx, t, tail);
    assert k + t + tail == k + (t + tail);
    ShiftedConcat(ScanText(lx, t), Shifted(ScanText(lx, tail), |t|), |k|);
    ShiftedTwice(ScanText(lx, tail), |t|, |k|);
  }

  /** What the renamed text scans as: the bytes kept, and each `#newTag` on its own. */
  function Rescanned(lx: Lexicon, text: Bytes, ranges: seq<SourceRange>, newTag: Bytes, cursor: nat): seq<TagMatch>
    requires cursor <= |text| && Ordered(|text|, ranges, cursor)
    decreases |ranges|
  {
    if ranges == [] then ScanText(lx, text[cursor..])
    else
      var r := ranges[0];
      var width := r.start - cursor;
      ScanText(lx, text[cursor..r.start]) + Shifted(ScanText(lx, Renamed(newTag)), width)
      + Shifted(Rescanned(lx, text, ranges[1..], newTag, r.end), width + 1 + |newTag|)
  }

  lemma RescannedCons(lx: Lexicon, text: Bytes, ranges: seq<SourceRange>, newTag: Bytes, cursor: nat)
    requires cursor <= |text| && Ordered(|text|, ranges, cursor) && ranges != []
    ensures var r := ranges[0];
      Rescanned(lx, text, ranges, newTag, cursor)
      == ScanText(lx, text[cursor..r.start]) + Shifted(ScanText(lx, Renamed(newTag)), r.start - cursor)
         + Shifted(Rescanned(lx, text, ranges[1..], newTag, r.end), r.start - cursor + 1 + |newTag|)
  {
    hide ScanText, Shifted;
  }

  /** The ranges to rename are those of one tag's matches. */
  predicate RangesOfTag(lx: Lexicon, text: Bytes, ranges: seq<SourceRange>, tag: Bytes, cursor: nat)
    requires cursor <= |text|
  {
    ranges == RangesFor(MatchesFrom(lx, text, cursor), tag)
  }

  predicate RescannedAs(lx: Lexicon, text: Bytes, ranges: seq<SourceRange>, newTag: Bytes, cursor: nat) {
    && cursor <= |text| && Ordered(|text|, ranges, cursor)
    && ScanText(lx, Spliced(text, ranges, newTag, cursor)) == Rescanned(lx, text, ranges, newTag, cursor)
  }

  lemma {:induction false} RenamedScan(lx: Lexicon, text: Bytes, ranges: seq<SourceRange>, oldTag: Bytes,
                                       newTag: Bytes, cursor: nat)
    requires Plain(lx) && EmojiLength(lx, Renamed(newTag)) == 0 && cursor <= |text|
    requires RangesOfTag(lx, text, ranges, oldTag, cursor) && Renamable(lx, text, ranges, newTag)
    ensures RescannedAs(lx, text, ranges, newTag, cursor)
    decreases |ranges|
  {
    hide EmojiLength, Delimited, Closes, ScanText, MatchesFrom, RescannedAs, MatchStep, Plain;
    if ranges == [] {
      NothingRenamed(lx, text, newTag, cursor);
    } else {
      var r, rest := ranges[0], ranges[1..];
      assert r in ranges && forall x :: x in rest ==> x in ranges;
      LeftDelimited(lx, text, r, newTag);
      FirstRange(lx, text, ranges, oldTag, cursor);
      RenamedScan(lx, text, rest, oldTag, newTag, r.end);
      MatchStops(lx, text, TagMatch(r.start, r.end, oldTag));
      assert ranges == [r] + rest;
      OneRenamed(lx, text, r, rest, newTag, cursor);
    }
  }

  lemma NothingRenamed(lx: Lexicon, text: Bytes, newTag: Bytes, cursor: nat)
    requires cursor <= |text|
    ensures RescannedAs(lx, text, [], newTag, cursor)
  {
    hide ScanText;
  }

  lemma LeftDelimited(lx: Lexicon, text: Bytes, r: SourceRange, newTag: Bytes)
    requires r.start < r.end <= |text| && Delimited(lx, text, r, newTag)
    ensures r.start > 0 ==> text[r.start - 1] != BACKSLASH && text[r.start - 1] != AMPERSAND
    ensures r.end < |text| ==> text[r.end] < 0x80 && text[r.end] != AMPERSAND
  {
  }

  lemma OneRenamed(lx: Lexicon, text: Bytes, r: SourceRange, rest: seq<SourceRange>, newTag: Bytes, cursor: nat)
    requires Plain(lx) && EmojiLength(lx, Renamed(newTag)) == 0 && cursor <= r.start < r.end <= |text|
    requires Delimited(lx, text, r, newTag) && Renamable(lx, text, rest, newTag) && NoEmojiAt(lx, text, r.end)
    requires RescannedAs(lx, text, rest, newTag, r.end)
    ensures RescannedAs(lx, text, [r] + rest, newTag, cursor)
  {
    hide EmojiLength, Closes, ScanText, Spliced, Rescanned, Ends, Delimited;
    var tail := Spliced(text, rest, newTag, r.end);
    LeftDelimited(lx, text, r, newTag);
    if rest != [] { assert rest[0] in rest; }
    SplicedFront(text, rest, newTag, r.end);
    if r.end < |text| { SplicedNoEmoji(lx, text, rest, newTag, r.end); }
    RenamedEnds(lx, text, r, newTag, tail);
    GapEnds(lx, text, cursor, r, newTag, tail);
    SplicedCons(text, r, rest, newTag, cursor);
    assert ([r] + rest)[1..] == rest;
    RescannedCons(lx, text, [r] + rest, newTag, cursor);
    PiecesScanned(lx, text[cursor..r.start], Renamed(newTag), tail);
  }

  // The tags of the renamed text.

  /** Every `tag` replaced by the tags `xs`. */
  function Subst(vs: seq<Bytes>, tag: Bytes, xs: seq<Bytes>): seq<Bytes> {
    if vs == [] then [] else (if vs[0] == tag then xs else [vs[0]]) + Subst(vs[1..], tag, xs)
  }

  lemma {:induction false} SubstConcat(a: seq<Bytes>, b: seq<Bytes>, tag: Bytes, xs: seq<Bytes>)
    ensures Subst(a + b, tag, xs) == Subst(a, tag, xs) + Subst(b, tag, xs)
    decreases |a|
  {
    if a == [] {
      assert a + b == b;
    } else {
      assert (a + b)[1..] == a[1..] + b;
      SubstConcat(a[1..], b, tag, xs);
    }
  }

  lemma {:induction false} SubstNone(vs: seq<Bytes>, tag: Bytes, xs: seq<Bytes>)
    requires tag !in vs
    ensures Subst(vs, tag, xs) == vs
    decreases |vs|
  {
    if vs != [] { SubstNone(vs[1..], tag, xs); }
  }

  /** One replacement is the other only if nothing is replaced or the replacements are equal. */
  lemma {:induction false} SubstIff(vs: seq<Bytes>, tag: Bytes, xs: seq<Bytes>, newTag: Bytes)
    ensures Subst(vs, tag, xs) == Subst(vs, tag, [newTag]) <==> tag !in vs || xs == [newTag]
    decreases |vs|
  {
    if tag !in vs {
      SubstNone(vs, tag, xs);
      SubstNone(vs, tag, [newTag]);
    } else if vs[0] == tag {
      SubstLength(vs[1..], tag, xs, newTag);
      if Subst(vs, tag, xs) == Subst(vs, tag, [newTag]) {
        assert |xs| == 1 && Subst(vs, tag, xs)[0] == xs[0];
      }
    } else {
      SubstIff(vs[1..], tag, xs, newTag);
      assert Subst(vs, tag, xs)[1..] == Subst(vs[1..], tag, xs);
      assert Subst(vs, tag, [newTag])[1..] == Subst(vs[1..], tag, [newTag]);
    }
  }

  lemma {:induction false} SubstLength(vs: seq<Bytes>, tag: Bytes, xs: seq<Bytes>, newTag: Bytes)
    ensures xs == [] ==> |Subst(vs, tag, xs)| <= |Subst(vs, tag, [newTag])|
    ensures |xs| > 1 ==> |Subst(vs, tag, xs)| >= |Subst(vs, tag, [newTag])|
    decreases |vs|
  {
    if vs != [] { SubstLength(vs[1..], tag, xs, newTag); }
  }

  lemma ValuesConcat(a: seq<TagMatch>, b: seq<TagMatch>)
    ensures Values(a + b) == Values(a) + Values(b)
  {
  }

  lemma ValuesShifted(ms: seq<TagMatch>, n: nat)
    ensures Values(Shifted(ms, n)) == Values(ms)
  {
  }

  lemma {:induction false} RescannedValues(lx: Lexicon, text: Bytes, ranges: seq<SourceRange>, oldTag: Bytes,
                                           newTag: Bytes, cursor: nat)
    requires Plain(lx) && cursor <= |text| && Ordered(|text|, ranges, cursor)
    requires RangesOfTag(lx, text, ranges, oldTag, cursor) && Renamable(lx, text, ranges, newTag)
    ensures Values(Rescanned(lx, text, ranges, newTag, cursor))
         == Subst(Values(MatchesFrom(lx, text, cursor)), oldTag, Values(ScanText(lx, Renamed(newTag))))
    decreases |ranges|
  {
    hide MatchesFrom, MatchStep, ScanText, Delimited, Closes, EmojiLength, Subst, Values, Shifted, Rescanned, Plain;
    var xs := Values(ScanText(lx, Renamed(newTag)));
    if ranges == [] {
      NoneSubstituted(lx, text, oldTag, newTag, cursor, xs);
    } else {
      var r, rest := ranges[0], ranges[1..];
      assert r in ranges && forall x :: x in rest ==> x in ranges;
      LeftDelimited(lx, text, r, newTag);
      FirstRange(lx, text, ranges, oldTag, cursor);
      RescannedValues(lx, text, rest, oldTag, newTag, r.end);
      RescannedCons(lx, text, ranges, newTag, cursor);
      var k := ScanText(lx, text[cursor..r.start]);
      OneSubstituted(k, cursor, TagMatch(r.start, r.end, oldTag), MatchesFrom(lx, text, r.end),
                     ScanText(lx, Renamed(newTag)), r.start - cursor, Rescanned(lx, text, rest, newTag, r.end),
                     r.start - cursor + 1 + |newTag|);
    }
  }

  lemma OneSubstituted(k: seq<TagMatch>, n: nat, m: TagMatch, rest: seq<TagMatch>, t: seq<TagMatch>, tAt: nat,
                       tail: seq<TagMatch>, tailAt: nat)
    requires m.value !in Values(k) && Values(tail) == Subst(Values(rest), m.value, Values(t))
    ensures Values(k + Shifted(t, tAt) + Shifted(tail, tailAt))
         == Subst(Values(Shifted(k, n) + ([m] + rest)), m.value, Values(t))
  {
    hide Values, Subst, Shifted;
    ValuesSubstituted(k, n, m, rest, Values(t));
    ValuesJoin(k, t, tAt, tail, tailAt);
  }

  lemma NoneSubstituted(lx: Lexicon, text: Bytes, tag: Bytes, newTag: Bytes, cursor: nat, xs: seq<Bytes>)
    requires cursor <= |text| && RangesOfTag(lx, text, [], tag, cursor)
    ensures Values(Rescanned(lx, text, [], newTag, cursor)) == Subst(Values(MatchesFrom(lx, text, cursor)), tag, xs)
  {
    hide MatchesFrom, ScanText, Subst, Values, Shifted, Rescanned;
    RangesIff(MatchesFrom(lx, text, cursor), tag);
    SubstNone(Values(MatchesFrom(lx, text, cursor)), tag, xs);
    SuffixScan(lx, text, cursor);
    ValuesShifted(ScanText(lx, text[cursor..]), cursor);
    RescannedNone(lx, text, newTag, cursor);
  }

  lemma RescannedNone(lx: Lexicon, text: Bytes, newTag: Bytes, cursor: nat)
    requires cursor <= |text|
    ensures Rescanned(lx, text, [], newTag, cursor) == ScanText(lx, text[cursor..])
  {
    hide ScanText;
  }

  lemma ValuesJoin(k: seq<TagMatch>, t: seq<TagMatch>, n: nat, rest: seq<TagMatch>, m: nat)
    ensures Values(k + Shifted(t, n) + Shifted(rest, m)) == Values(k) + Values(t) + Values(rest)
  {
    hide Values, Shifted;
    ValuesConcat(k + Shifted(t, n), Shifted(rest, m));
    ValuesConcat(k, Shifted(t, n));
    ValuesShifted(t, n);
    ValuesShifted(rest, m);
  }

  lemma ValuesSubstituted(k: seq<TagMatch>, n: nat, m: TagMatch, rest: seq<TagMatch>, xs: seq<Bytes>)
    requires m.value !in Values(k)
    ensures Subst(Values(Shifted(k, n) + ([m] + rest)), m.value, xs)
         == Values(k) + xs + Subst(Values(rest), m.value, xs)
  {
    var tail := [m.value] + Values(rest);
    ValuesConcat(Shifted(k, n), [m] + rest);
    ValuesConcat([m], rest);
    ValuesShifted(k, n);
    assert Values([m]) == [m.value] && tail[1..] == Values(rest);
    SubstConcat(Values(k), tail, m.value, xs);
    SubstNone(Values(k), m.value, xs);
  }

  // A text renamed.

  /** The tag nodes of a list of matches. */
  function NodesOf(text: Bytes, ms: seq<TagMatch>): (r: seq<TagNode>)
    requires forall m :: m in ms ==> m.start < m.end <= |text|
  {
    seq(|ms|, i requires 0 <= i < |ms| => TagNode(ms[i].value, ms[i].start, text[ms[i].start..ms[i].end]))
  }

  lemma {:induction false} CollectIs(text: Bytes, ms: seq<TagMatch>, tag: Bytes)
    requires forall m :: m in ms ==> m.start < m.end <= |text|
    ensures Collect(NodesOf(text, ms), tag) == RangesFor(ms, tag)
    decreases |ms|
  {
    if ms != [] {
      assert NodesOf(text, ms)[1..] == NodesOf(text, ms[1..]);
      assert ms[0] in ms;
      CollectIs(text, ms[1..], tag);
    }
  }

  lemma {:induction false} OrderedAfter(n: nat, ranges: seq<SourceRange>, from: nat, i: nat)
    requires Ordered(n, ranges, from) && i < |ranges|
    ensures from <= ranges[i].start < ranges[i].end <= n
    ensures forall j :: i < j < |ranges| ==> ranges[i].end <= ranges[j].start
    decreases |ranges|
  {
    var rest := ranges[1..];
    if i > 0 {
      OrderedAfter(n, rest, ranges[0].end, i - 1);
      assert forall j :: i < j < |ranges| ==> ranges[j] == rest[j - 1];
    } else {
      forall j | 0 < j < |ranges|
        ensures ranges[0].end <= ranges[j].start
      {
        OrderedAfter(n, rest, ranges[0].end, j - 1);
      }
    }
  }

  lemma OrderedDisjoint(content: Bytes, ranges: seq<SourceRange>)
    requires Ordered(|content|, ranges, 0)
    ensures Disjoint(content, ranges)
  {
    forall i | 0 <= i < |ranges|
      ensures ranges[i].start < ranges[i].end <= |content|
      ensures forall j :: i < j < |ranges| ==> Apart(ranges[i], ranges[j])
    {
      OrderedAfter(|content|, ranges, 0, i);
    }
  }

  /** Ranges in order are sorted. */
  lemma {:induction false} SortKeeps(n: nat, ranges: seq<SourceRange>, from: nat)
    requires Ordered(n, ranges, from)
    ensures SortRanges(ranges) == ranges
    decreases |ranges|
  {
    if ranges != [] {
      var r, rest := ranges[0], ranges[1..];
      SortKeeps(n, rest, r.end);
      assert Insert(r, rest) == [r] + rest;
    }
  }

  function TextRanges(lx: Lexicon, text: Bytes, tag: Bytes): seq<SourceRange> { RangesFor(ScanText(lx, text), tag) }

  lemma TextOrdered(lx: Lexicon, text: Bytes, tag: Bytes)
    ensures Ordered(|text|, TextRanges(lx, text, tag), 0)
  {
    hide MatchesFrom, GoodMatch;
    MatchesWellPlaced(lx, text, 0);
    WellPlacedOrdered(text, ScanText(lx, text), tag, 0);
  }

  lemma {:induction false} WellPlacedOrdered(text: Bytes, ms: seq<TagMatch>, tag: Bytes, from: nat)
    requires WellPlaced(text, ms, from)
    ensures Ordered(|text|, RangesFor(ms, tag), from)
    decreases |ms|
  {
    if ms != [] {
      var m, rest := ms[0], ms[1..];
      assert GoodMatch(text, ms[0]);
      assert WellPlaced(text, rest, m.end) by {
        assert forall i :: 0 <= i < |rest| ==> rest[i] == ms[i + 1] && GoodMatch(text, ms[i + 1]);
      }
      WellPlacedOrdered(text, rest, tag, m.end);
      OrderedEarlier(|text|, RangesFor(rest, tag), from, m.end);
      RangesCons(m, rest, tag);
      assert ms == [m] + rest;
      assert [] + RangesFor(rest, tag) == RangesFor(rest, tag);
    }
  }

  lemma OrderedEarlier(n: nat, ranges: seq<SourceRange>, from: nat, mid: nat)
    requires from <= mid && Ordered(n, ranges, mid)
    ensures Ordered(n, ranges, from)
  {
  }

  /** A text with one tag renamed. */
  function RenamedText(lx: Lexicon, text: Bytes, oldTag: Bytes, newTag: Bytes): Bytes {
    TextOrdered(lx, text, oldTag);
    Spliced(text, TextRanges(lx, text, oldTag), newTag, 0)
  }

  /** It is what `RenameTag` makes of a text's tag nodes. */
  method RenameInText(lx: Lexicon, text: Bytes, oldTag: Bytes, newTag: Bytes) returns (output: Bytes)
    ensures output == RenamedText(lx, text, oldTag, newTag)
  {
    var ms := FindTagMatches(lx, text);
    ScanInside(lx, text);
    CollectIs(text, ms, oldTag);
    TextOrdered(lx, text, oldTag);
    OrderedDisjoint(text, TextRanges(lx, text, oldTag));
    SortKeeps(|text|, TextRanges(lx, text, oldTag), 0);
    output := RenameTag(text, NodesOf(text, ms), oldTag, newTag);
  }

  /** Every occurrence of the old tag is delimited, and no emoji begins at the new tag's `#`. */
  predicate Clear(lx: Lexicon, text: Bytes, oldTag: Bytes, newTag: Bytes) {
    && EmojiLength(lx, Renamed(newTag)) == 0
    && forall r :: r in TextRanges(lx, text, oldTag) && r.start < r.end <= |text| ==> Delimited(lx, text, r, newTag)
  }

  lemma ClearRenamable(lx: Lexicon, text: Bytes, oldTag: Bytes, newTag: Bytes)
    requires Clear(lx, text, oldTag, newTag)
    ensures Renamable(lx, text, TextRanges(lx, text, oldTag), newTag)
  {
    hide EmojiLength, Delimited, MatchesFrom, MatchStep;
    forall r | r in TextRanges(lx, text, oldTag)
      ensures r.start < r.end <= |text| && text[r.start] == HASH
    {
      RangesFrom(ScanText(lx, text), oldTag, r);
      MatchIsStep(lx, text, 0, TagMatch(r.start, r.end, oldTag));
      MatchStops(lx, text, TagMatch(r.start, r.end, oldTag));
    }
  }

  function TagsIn(lx: Lexicon, text: Bytes): seq<Bytes> { Values(ScanText(lx, text)) }

  /** The renamed text holds the tags of the text, in order, with whatever `#newTag` scans as in place of the old. */
  lemma RenamedTags(lx: Lexicon, text: Bytes, oldTag: Bytes, newTag: Bytes)
    requires Plain(lx) && Clear(lx, text, oldTag, newTag)
    ensures TagsIn(lx, RenamedText(lx, text, oldTag, newTag))
         == Subst(TagsIn(lx, text), oldTag, TagsIn(lx, Renamed(newTag)))
  {
    hide EmojiLength, MatchesFrom, Values, Subst, Spliced, Rescanned;
    var ranges := TextRanges(lx, text, oldTag);
    TextOrdered(lx, text, oldTag);
    ClearRenamable(lx, text, oldTag, newTag);
    RenamedScan(lx, text, ranges, oldTag, newTag, 0);
    RescannedValues(lx, text, ranges, oldTag, newTag, 0);
  }

  /** `#newTag` on its own is the new tag. */
  predicate ScansAlone(lx: Lexicon, newTag: Bytes) { TagsIn(lx, Renamed(newTag)) == [newTag] }

  /** So renaming replaces the old tag by the new one exactly when `#newTag` on its own is the new tag, or there was
      nothing to rename. */
  lemma RenamedTagsIff(lx: Lexicon, text: Bytes, oldTag: Bytes, newTag: Bytes)
    requires Plain(lx) && Clear(lx, text, oldTag, newTag)
    ensures TagsIn(lx, RenamedText(lx, text, oldTag, newTag)) == Subst(TagsIn(lx, text), oldTag, [newTag])
       <==> oldTag !in TagsIn(lx, text) || ScansAlone(lx, newTag)
  {
    hide EmojiLength, ScanText, Subst, RenamedText;
    RenamedTags(lx, text, oldTag, newTag);
    SubstIff(TagsIn(lx, text), oldTag, TagsIn(lx, Renamed(newTag)), newTag);
  }

  // Renaming the tags that scanning the renamed text finds.

  /** Then it is one match over all of `#newTag`. */
  lemma AloneScan(lx: Lexicon, newTag: Bytes)
    requires ScansAlone(lx, newTag)
    ensures ScanText(lx, Renamed(newTag)) == [TagMatch(0, 1 + |newTag|, newTag)]
  {
    hide MatchesFrom;
    var t, ms := Renamed(newTag), ScanText(lx, Renamed(newTag));
    assert |ms| == 1 && Values(ms)[0] == newTag;
    MatchesWellPlaced(lx, t, 0);
    assert GoodMatch(t, ms[0]);
    SubsequenceFull(newTag, t[ms[0].start + 1..ms[0].end]);
  }

  predicate RescannedRanges(lx: Lexicon, text: Bytes, ranges: seq<SourceRange>, newTag: Bytes, cursor: nat, out: nat) {
    && cursor <= |text| && Ordered(|text|, ranges, cursor)
    && RangesFor(Shifted(Rescanned(lx, text, ranges, newTag, cursor), out), newTag)
       == Moved(|text|, ranges, 1 + |newTag|, cursor, out)
  }

  /** The new tag's matches in the renamed text stand where the splice put it. */
  lemma {:induction false} NewTagRanges(lx: Lexicon, text: Bytes, ranges: seq<SourceRange>, oldTag: Bytes,
                                        newTag: Bytes, cursor: nat, out: nat)
    requires Plain(lx) && cursor <= |text| && Ordered(|text|, ranges, cursor) && ScansAlone(lx, newTag)
    requires RangesOfTag(lx, text, ranges, oldTag, cursor) && Renamable(lx, text, ranges, newTag)
    requires newTag == oldTag || newTag !in Values(MatchesFrom(lx, text, cursor))
    ensures RescannedRanges(lx, text, ranges, newTag, cursor, out)
    decreases |ranges|
  {
    hide MatchesFrom, MatchStep, ScanText, Delimited, Closes, Values, Shifted, Rescanned, RangesFor, Moved, Plain;
    if ranges == [] {
      SuffixScan(lx, text, cursor);
      RescannedNone(lx, text, newTag, cursor);
      ValuesShifted(ScanText(lx, text[cursor..]), cursor);
      ValuesShifted(ScanText(lx, text[cursor..]), out);
      RangesIff(MatchesFrom(lx, text, cursor), newTag);
      RangesIff(Shifted(ScanText(lx, text[cursor..]), out), newTag);
      NothingMoved(|text|, 1 + |newTag|, cursor, out);
    } else {
      var r, rest := ranges[0], ranges[1..];
      assert r in ranges && forall x :: x in rest ==> x in ranges;
      LeftDelimited(lx, text, r, newTag);
      FirstRange(lx, text, ranges, oldTag, cursor);
      var k, mrest := ScanText(lx, text[cursor..r.start]), MatchesFrom(lx, text, r.end);
      KeptValues(k, cursor, TagMatch(r.start, r.end, oldTag), mrest, newTag);
      NewTagRanges(lx, text, rest, oldTag, newTag, r.end, out + (r.start - cursor) + 1 + |newTag|);
      AloneScan(lx, newTag);
      RescannedCons(lx, text, ranges, newTag, cursor);
      var width := r.start - cursor;
      OneMoved(k, TagMatch(0, 1 + |newTag|, newTag), width, Rescanned(lx, text, rest, newTag, r.end),
               width + 1 + |newTag|, out, out + width, out + width + 1 + |newTag|);
      MovedCons(|text|, ranges, 1 + |newTag|, cursor, out);
    }
  }

  lemma NothingMoved(n: nat, width: nat, cursor: nat, out: nat)
    ensures Moved(n, [], width, cursor, out) == []
  {
  }

  lemma MovedCons(n: nat, ranges: seq<SourceRange>, width: nat, cursor: nat, out: nat)
    requires Ordered(n, ranges, cursor) && ranges != []
    ensures var start := out + (ranges[0].start - cursor);
      Moved(n, ranges, width, cursor, out)
      == [SourceRange(start, start + width)] + Moved(n, ranges[1..], width, ranges[0].end, start + width)
  {
  }

  /** A tag that none but the old one equals is none of those kept. */
  lemma KeptValues(k: seq<TagMatch>, n: nat, m: TagMatch, rest: seq<TagMatch>, newTag: Bytes)
    requires m.value !in Values(k)
    requires newTag == m.value || newTag !in Values(Shifted(k, n) + ([m] + rest))
    ensures newTag !in Values(k) && (newTag == m.value || newTag !in Values(rest))
  {
    ValuesConcat(Shifted(k, n), [m] + rest);
    ValuesConcat([m], rest);
    ValuesShifted(k, n);
  }

  lemma OneMoved(k: seq<TagMatch>, t: TagMatch, n: nat, rest: seq<TagMatch>, m: nat, out: nat, lo: nat, hi: nat)
    requires t.value !in Values(k) && lo == out + n && hi == out + m && t.start == 0 && t.end + lo == hi
    ensures RangesFor(Shifted(k + Shifted([t], n) + Shifted(rest, m), out), t.value)
         == [SourceRange(lo, hi)] + RangesFor(Shifted(rest, hi), t.value)
  {
    hide RangesFor, Values, Shifted;
    ShiftedJoin(k, [t], n, rest, m, out);
    ValuesShifted(k, out);
    ShiftedOne(t, lo);
    OnlyRange(Shifted(k, out), TagMatch(lo, hi, t.value), Shifted(rest, hi));
  }

  lemma ShiftedOne(m: TagMatch, n: nat)
    ensures Shifted([m], n) == [TagMatch(m.start + n, m.end + n, m.value)]
  {
  }

  lemma ShiftedJoin(k: seq<TagMatch>, t: seq<TagMatch>, n: nat, rest: seq<TagMatch>, m: nat, out: nat)
    ensures Shifted(k + Shifted(t, n) + Shifted(rest, m), out)
         == Shifted(k, out) + Shifted(t, out + n) + Shifted(rest, out + m)
  {
    ShiftedConcat(k + Shifted(t, n), Shifted(rest, m), out);
    ShiftedConcat(k, Shifted(t, n), out);
    ShiftedTwice(t, n, out);
    ShiftedTwice(rest, m, out);
  }

  lemma OnlyRange(a: seq<TagMatch>, m: TagMatch, c: seq<TagMatch>)
    requires m.value !in Values(a)
    ensures RangesFor(a + [m] + c, m.value) == [SourceRange(m.start, m.end)] + RangesFor(c, m.value)
  {
    hide RangesFor, Values;
    assert a + [m] + c == a + ([m] + c);
    RangesConcat(a, [m] + c, m.value);
    RangesCons(m, c, m.value);
    RangesIff(a, m.value);
  }

  /** Renaming a text's tag to a new one, and that one as the renamed text is scanned, is renaming it at once. */
  lemma RenameTextTwice(lx: Lexicon, text: Bytes, oldTag: Bytes, first: Bytes, second: Bytes)
    requires Plain(lx) && Clear(lx, text, oldTag, first) && ScansAlone(lx, first)
    requires first == oldTag || first !in TagsIn(lx, text)
    ensures RenamedText(lx, RenamedText(lx, text, oldTag, first), first, second)
         == RenamedText(lx, text, oldTag, second)
  {
    hide EmojiLength, MatchesFrom, Values, Spliced, Rescanned, RangesFor, Moved;
    var ranges, output := TextRanges(lx, text, oldTag), RenamedText(lx, text, oldTag, first);
    TextOrdered(lx, text, oldTag);
    ClearRenamable(lx, text, oldTag, first);
    RenamedScan(lx, text, ranges, oldTag, first, 0);
    NewTagRanges(lx, text, ranges, oldTag, first, 0, 0);
    ShiftedNone(ScanText(lx, output));
    assert [] + output == output;
    RenameTwice(text, ranges, first, second, 0, [], output);
  }

  lemma ShiftedNone(ms: seq<TagMatch>)
    ensures Shifted(ms, 0) == ms
  {
  }

  // Undelimited tags can grow.

  /** A lexicon without emoji in which `a` and `b` are letters and the apostrophe is no word rune. */
  ghost predicate TwoLetters(lx: Lexicon) {
    && (forall e: Bytes :: !lx.emoji(e))
    && IsWordRune(lx, 0x61) && !IsCombining(lx, 0x61) && IsWordRune(lx, 0x62) && !IsCombining(lx, 0x62)
    && !IsXidContinue(lx, 0x27) && !IsIgnorable(lx, 0x27) && !IsXidContinue(lx, 0x2D) && !IsIgnorable(lx, 0x2D)
  }

  lemma AsciiStep(lx: Lexicon, s: Bytes, c: Scan, b: byte)
    requires TwoLetters(lx) && c.pos < |s| && s[c.pos] == b && b < 0x80 && b != AMPERSAND
    ensures SegmentStep(lx, s, c) == Continued(lx, c, [], (b as int, 1), [b], StartsWord(lx, s[c.pos + 1..]))
  {
    var x := s[c.pos..];
    assert x[0] == b && EmojiLength(lx, x) == 0 && DecodeRune(x) == (b as int, 1);
    assert s[c.pos..c.pos + 0] == [] && s[c.pos..c.pos + 1] == [b];
  }

  lemma AsciiStart(lx: Lexicon, s: Bytes)
    requires TwoLetters(lx) && s != [] && s[0] == 0x61
    ensures SegmentStart(lx, s, 0) == Some(Scan(1, [0x61], true))
  {
    assert s[0..] == s && EmojiLength(lx, s) == 0 && s[0..1] == [0x61];
  }

  lemma RestStep(lx: Lexicon, s: Bytes, c: Scan, next: Scan)
    requires c.pos <= |s| && SegmentStep(lx, s, c) == Some(next)
    ensures SegmentRest(lx, s, c) == SegmentRest(lx, s, next)
  {
    hide SegmentStep;
  }

  lemma IdentifierIs(lx: Lexicon, s: Bytes, start: Scan, e: Scan)
    requires SegmentStart(lx, s, 0) == Some(start) && e.pos <= |s| && SegmentRest(lx, s, start) == SegmentRest(lx, s, e)
    requires SegmentStep(lx, s, e) == None && e.value != [] && (e.pos < |s| ==> s[e.pos] != SLASH)
    ensures Identifier(lx, s) == Some((e.pos, e.value))
  {
    hide SegmentStep, SegmentStart;
  }

  /** `a-` ends before an apostrophe. */
  lemma JoinerStops(lx: Lexicon, s: Bytes)
    requires TwoLetters(lx) && s == [0x61, 0x2D, 0x27, 0x62]
    ensures Identifier(lx, s) == Some((2, [0x61, 0x2D]))
  {
    hide SegmentStep, SegmentStart, SegmentRest, Identifier, StartsWord;
    var c1, c2 := Scan(1, [0x61], true), Scan(2, [0x61, 0x2D], false);
    AsciiStart(lx, s);
    AsciiStep(lx, s, c1, 0x2D);
    assert [0x61] + [0x2D] == [0x61, 0x2D];
    AsciiStep(lx, s, c2, 0x27);
    RestStep(lx, s, c1, c2);
    IdentifierIs(lx, s, c1, c2);
  }

  /** `ab` goes on over an apostrophe and a letter. */
  lemma WordGoesOn(lx: Lexicon, s: Bytes)
    requires TwoLetters(lx) && s == [0x61, 0x62, 0x27, 0x62]
    ensures Identifier(lx, s) == Some((4, s))
  {
    hide SegmentStep, SegmentStart, SegmentRest, Identifier, StartsWord;
    var c1, c2 := Scan(1, [0x61], true), Scan(2, [0x61, 0x62], true);
    var c3, c4 := Scan(3, [0x61, 0x62, 0x27], false), Scan(4, s, true);
    AsciiStart(lx, s);
    AsciiStep(lx, s, c1, 0x62);
    assert [0x61] + [0x62] == [0x61, 0x62];
    AsciiStep(lx, s, c2, 0x27);
    LetterStarts(lx, s[3..]);
    assert [0x61, 0x62] + [0x27] == [0x61, 0x62, 0x27];
    AsciiStep(lx, s, c3, 0x62);
    assert [0x61, 0x62, 0x27] + [0x62] == s;
    RestStep(lx, s, c1, c2);
    RestStep(lx, s, c2, c3);
    RestStep(lx, s, c3, c4);
    NoStepAtEnd(lx, s, c4);
    IdentifierIs(lx, s, c1, c4);
  }

  lemma LetterStarts(lx: Lexicon, s: Bytes)
    requires TwoLetters(lx) && s == [0x62]
    ensures StartsWord(lx, s)
  {
    assert EmojiLength(lx, s) == 0;
  }

  lemma NoStepAtEnd(lx: Lexicon, s: Bytes, c: Scan)
    requires c.pos == |s|
    ensures SegmentStep(lx, s, c) == None
  {
  }

  lemma LettersAlone(lx: Lexicon, s: Bytes)
    requires TwoLetters(lx) && s == [0x61, 0x62]
    ensures Identifier(lx, s) == Some((2, s))
  {
    hide SegmentStep, SegmentStart, SegmentRest, Identifier, StartsWord;
    var c1, c2 := Scan(1, [0x61], true), Scan(2, s, true);
    AsciiStart(lx, s);
    AsciiStep(lx, s, c1, 0x62);
    assert c1.value + [0x62] == s;
    assert Continued(lx, c1, [], (0x62, 1), [0x62], StartsWord(lx, s[2..])) == Some(Scan(2, c1.value + [0x62], true));
    RestStep(lx, s, c1, c2);
    NoStepAtEnd(lx, s, c2);
    IdentifierIs(lx, s, c1, c2);
  }

  lemma FirstAtHash(lx: Lexicon, s: Bytes, pos: nat)
    requires pos <= |s|
    ensures var ms := MatchesFrom(lx, s, pos); ms != [] ==> pos <= ms[0].start < |s| && s[ms[0].start] == HASH
  {
    hide MatchesFrom;
    MatchesWellPlaced(lx, s, pos);
    var ms := MatchesFrom(lx, s, pos);
    if ms != [] { assert GoodMatch(s, ms[0]); }
  }

  /** A text that begins with a tag and has no other `#`. */
  lemma OneTag(lx: Lexicon, s: Bytes, n: nat, v: Bytes)
    requires TwoLetters(lx) && s != [] && s[0] == HASH && Identifier(lx, s[1..]) == Some((n, v))
    requires forall i :: 0 < i < |s| ==> s[i] != HASH
    ensures ScanText(lx, s) == [TagMatch(0, n + 1, v)] && TagsIn(lx, s) == [v]
  {
    hide Identifier, MatchesFrom;
    assert s[0..] == s && EmojiLength(lx, s) == 0;
    MatchesUnfold(lx, s, 0, (n + 1, [TagMatch(0, n + 1, v)]));
    FirstAtHash(lx, s, n + 1);
  }

  /** Renaming `a-` to `ab` in `#a-'b` makes the one tag `ab'b`, though `#ab` on its own is the tag `ab`. */
  lemma UndelimitedTagGrows(lx: Lexicon)
    requires TwoLetters(lx)
    ensures var text: Bytes := [HASH, 0x61, 0x2D, 0x27, 0x62];
      var output := RenamedText(lx, text, [0x61, 0x2D], [0x61, 0x62]);
      && TagsIn(lx, text) == [[0x61, 0x2D]] && ScansAlone(lx, [0x61, 0x62])
      && output == [HASH, 0x61, 0x62, 0x27, 0x62] && TagsIn(lx, output) == [[0x61, 0x62, 0x27, 0x62]]
  {
    hide Identifier, MatchesFrom, EmojiLength;
    var text: Bytes, now: Bytes := [HASH, 0x61, 0x2D, 0x27, 0x62], [HASH, 0x61, 0x62, 0x27, 0x62];
    JoinerStops(lx, text[1..]);
    OneTag(lx, text, 2, [0x61, 0x2D]);
    LettersAlone(lx, [0x61, 0x62]);
    assert Renamed([0x61, 0x62])[1..] == [0x61, 0x62];
    OneTag(lx, Renamed([0x61, 0x62]), 2, [0x61, 0x62]);
    WordGoesOn(lx, now[1..]);
    OneTag(lx, now, 4, now[1..]);
    OnlySpliced(text, [0x61, 0x62], 3);
    OnlyRange([], TagMatch(0, 3, [0x61, 0x2D]), []);
    NoRanges([0x61, 0x2D]);
    assert [] + ScanText(lx, text) + [] == ScanText(lx, text);
    assert TextRanges(lx, text, [0x61, 0x2D]) == [SourceRange(0, 3)];
  }

  lemma OnlySpliced(text: Bytes, newTag: Bytes, end: nat)
    requires 0 < end <= |text|
    ensures Ordered(|text|, [SourceRange(0, end)], 0)
    ensures Spliced(text, [SourceRange(0, end)], newTag, 0) == Renamed(newTag) + text[end..]
  {
    assert [SourceRange(0, end)][1..] == [];
  }
}
