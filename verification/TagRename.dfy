/** Renaming a tag by splicing the source, and the ancestors of hierarchical tags. */
module TagRename {
  import opened TagScanner

  datatype SourceRange = SourceRange(start: nat, end: nat)

  /** A tag found in the document: its value, where it is and how it is spelled there. */
  datatype TagNode = TagNode(tag: Bytes, pos: nat, spelling: Bytes)

  function RangeOf(n: TagNode): SourceRange { SourceRange(n.pos, n.pos + |n.spelling|) }

  /** The ranges to rename, in walk order. */
  function Collect(nodes: seq<TagNode>, oldTag: Bytes): seq<SourceRange> {
    if nodes == [] then []
    else
      (if nodes[0].tag == oldTag && |nodes[0].spelling| > 0 then [RangeOf(nodes[0])] else [])
      + Collect(nodes[1..], oldTag)
  }

  function Insert(r: SourceRange, sorted: seq<SourceRange>): seq<SourceRange> {
    if sorted == [] || r.start <= sorted[0].start then [r] + sorted else [sorted[0]] + Insert(r, sorted[1..])
  }

  /** Sorts by start. */
  function SortRanges(ranges: seq<SourceRange>): seq<SourceRange> {
    if ranges == [] then [] else Insert(ranges[0], SortRanges(ranges[1..]))
  }

  predicate Apart(a: SourceRange, b: SourceRange) { a.end <= b.start || b.end <= a.start }

  /** Non-empty ranges inside the content, no two overlapping, in any order. */
  predicate Disjoint(content: Bytes, ranges: seq<SourceRange>) {
    && (forall i :: 0 <= i < |ranges| ==> ranges[i].start < ranges[i].end <= |content|)
    && (forall i, j :: 0 <= i < j < |ranges| ==> Apart(ranges[i], ranges[j]))
  }

  /** Non-empty ranges left to right from a position on, within the first n bytes. */
  predicate Ordered(n: nat, ranges: seq<SourceRange>, from: nat)
    decreases |ranges|
  {
    ranges == [] || (from <= ranges[0].start < ranges[0].end <= n && Ordered(n, ranges[1..], ranges[0].end))
  }

  lemma {:induction false} InsertKeeps(n: nat, r: SourceRange, sorted: seq<SourceRange>, from: nat)
    requires Ordered(n, sorted, from) && from <= r.start < r.end <= n
    requires forall i :: 0 <= i < |sorted| ==> Apart(r, sorted[i])
    ensures Ordered(n, Insert(r, sorted), from)
    ensures forall x :: x in Insert(r, sorted) <==> x == r || x in sorted
    decreases |sorted|
  {
    if sorted == [] {
      assert Ordered(n, [r][1..], r.end);
    } else {
      assert sorted == [sorted[0]] + sorted[1..] && Apart(r, sorted[0]);
      if r.start <= sorted[0].start {
        assert ([r] + sorted)[1..] == sorted;
      } else {
        InsertKeeps(n, r, sorted[1..], sorted[0].end);
        assert ([sorted[0]] + Insert(r, sorted[1..]))[1..] == Insert(r, sorted[1..]);
      }
    }
  }

  /** Sorting disjoint ranges puts exactly them in order. */
  lemma {:induction false} SortOrders(content: Bytes, ranges: seq<SourceRange>)
    requires Disjoint(content, ranges)
    ensures Ordered(|content|, SortRanges(ranges), 0)
    ensures forall x :: x in SortRanges(ranges) <==> x in ranges
    decreases |ranges|
  {
    if ranges != [] {
      SortOrders(content, ranges[1..]);
      var sorted := SortRanges(ranges[1..]);
      forall i | 0 <= i < |sorted|
        ensures Apart(ranges[0], sorted[i])
      {
        assert sorted[i] in ranges[1..];
      }
      InsertKeeps(|content|, ranges[0], sorted, 0);
      assert ranges == [ranges[0]] + ranges[1..];
    }
  }

  /** The new content from `cursor` on: kept bytes, and `#newTag` for each range. */
  function Spliced(content: Bytes, ranges: seq<SourceRange>, newTag: Bytes, cursor: nat): Bytes
    requires cursor <= |content| && Ordered(|content|, ranges, cursor)
    decreases |ranges|
  {
    if ranges == [] then content[cursor..]
    else content[cursor..ranges[0].start] + ([HASH] + newTag) + Spliced(content, ranges[1..], newTag, ranges[0].end)
  }

  method RenameTag(content: Bytes, nodes: seq<TagNode>, oldTag: Bytes, newTag: Bytes) returns (output: Bytes)
    requires Disjoint(content, Collect(nodes, oldTag))
    ensures Ordered(|content|, SortRanges(Collect(nodes, oldTag)), 0)
    ensures output == Spliced(content, SortRanges(Collect(nodes, oldTag)), newTag, 0)
  {
    var ranges: seq<SourceRange> := [];
    for i := 0 to |nodes|
      invariant Collect(nodes, oldTag) == ranges + Collect(nodes[i..], oldTag)
    {
      assert nodes[i..][1..] == nodes[i + 1..];
      if nodes[i].tag == oldTag && |nodes[i].spelling| > 0 {
        ranges := ranges + [RangeOf(nodes[i])];
      }
    }
    assert ranges == Collect(nodes, oldTag);
    SortOrders(content, ranges);
    output := Splice(content, SortRanges(ranges), newTag);
  }

  /** Copies the content with a moving cursor. */
  method Splice(content: Bytes, ranges: seq<SourceRange>, newTag: Bytes) returns (output: Bytes)
    requires Ordered(|content|, ranges, 0)
    ensures output == Spliced(content, ranges, newTag, 0)
  {
    output := [];
    var cursor: nat := 0;
    for i := 0 to |ranges|
      invariant cursor <= |content| && Ordered(|content|, ranges[i..], cursor)
      invariant Spliced(content, ranges, newTag, 0) == output + Spliced(content, ranges[i..], newTag, cursor)
    {
      assert ranges[i..][1..] == ranges[i + 1..] && ranges[i..][0] == ranges[i];
      output := output + content[cursor..ranges[i].start];
      output := output + ([HASH] + newTag);
      cursor := ranges[i].end;
    }
    output := output + content[cursor..];
  }

  // An independent description: replace one range at a time, from the last to the first.

  function ReplaceOne(content: Bytes, r: SourceRange, newTag: Bytes): Bytes
    requires r.start <= r.end <= |content|
  {
    content[..r.start] + ([HASH] + newTag) + content[r.end..]
  }

  function ReplaceLastFirst(content: Bytes, ranges: seq<SourceRange>, newTag: Bytes): Bytes
    requires Ordered(|content|, ranges, 0)
    decreases |ranges|
  {
    if ranges == [] then content
    else
      var r, init := ranges[|ranges| - 1], ranges[..|ranges| - 1];
      assert ranges == init + [r];
      OrderedSnoc(|content|, init, r, 0, 0);
      OrderedSnoc(|content|, init, r, 0, |ReplaceOne(content, r, newTag)|);
      ReplaceLastFirst(ReplaceOne(content, r, newTag), init, newTag)
  }

  /** The ranges before the last one all end where it starts, at the latest. */
  lemma {:induction false} OrderedSnoc(n: nat, init: seq<SourceRange>, r: SourceRange, from: nat, m: nat)
    requires Ordered(n, init + [r], from)
    ensures from <= r.start < r.end <= n
    ensures Ordered(n, init, from)
    ensures m >= r.start ==> Ordered(m, init, from)
    decreases |init|
  {
    if init == [] {
      assert (init + [r])[0] == r;
    } else {
      assert (init + [r])[1..] == init[1..] + [r] && (init + [r])[0] == init[0];
      OrderedSnoc(n, init[1..], r, init[0].end, m);
    }
  }

  lemma {:induction false} SplicedSnoc(content: Bytes, init: seq<SourceRange>, r: SourceRange, newTag: Bytes,
                                       cursor: nat)
    requires cursor <= |content| && Ordered(|content|, init + [r], cursor)
    ensures cursor <= r.start < r.end <= |content|
    ensures cursor <= |ReplaceOne(content, r, newTag)| && Ordered(|ReplaceOne(content, r, newTag)|, init, cursor)
    ensures Spliced(content, init + [r], newTag, cursor)
         == Spliced(ReplaceOne(content, r, newTag), init, newTag, cursor)
    decreases |init|
  {
    OrderedSnoc(|content|, init, r, cursor, 0);
    var changed := ReplaceOne(content, r, newTag);
    OrderedSnoc(|content|, init, r, cursor, |changed|);
    if init == [] {
      assert (init + [r])[1..] == [];
      assert changed[cursor..] == content[cursor..r.start] + ([HASH] + newTag) + content[r.end..];
    } else {
      assert (init + [r])[1..] == init[1..] + [r] && (init + [r])[0] == init[0];
      SplicedSnoc(content, init[1..], r, newTag, init[0].end);
      OrderedSnoc(|content|, init, r, cursor, r.start);
      assert changed[cursor..init[0].start] == content[cursor..init[0].start];
    }
  }

  /** The one-pass splice replaces each selected range and nothing else. */
  lemma {:induction false} SplicedIsReplacement(content: Bytes, ranges: seq<SourceRange>, newTag: Bytes)
    requires Ordered(|content|, ranges, 0)
    ensures Spliced(content, ranges, newTag, 0) == ReplaceLastFirst(content, ranges, newTag)
    decreases |ranges|
  {
    if ranges != [] {
      var r, init := ranges[|ranges| - 1], ranges[..|ranges| - 1];
      assert ranges == init + [r];
      SplicedSnoc(content, init, r, newTag, 0);
      SplicedIsReplacement(ReplaceOne(content, r, newTag), init, newTag);
    }
  }

  // Renaming again.

  /** Where the renamed tags stand in the output; `out` is the output position of `cursor`. */
  function Moved(n: nat, ranges: seq<SourceRange>, width: nat, cursor: nat, out: nat): seq<SourceRange>
    requires Ordered(n, ranges, cursor)
    decreases |ranges|
  {
    if ranges == [] then []
    else
      var start := out + (ranges[0].start - cursor);
      [SourceRange(start, start + width)] + Moved(n, ranges[1..], width, ranges[0].end, start + width)
  }

  lemma SplicedCons(content: Bytes, r: SourceRange, rest: seq<SourceRange>, tag: Bytes, from: nat)
    requires from <= r.start < r.end <= |content| && Ordered(|content|, rest, r.end)
    ensures Ordered(|content|, [r] + rest, from)
    ensures Spliced(content, [r] + rest, tag, from)
         == content[from..r.start] + ([HASH] + tag) + Spliced(content, rest, tag, r.end)
  {
  }

  /** Two texts read the same from their positions on once their ranges carry `tag`. */
  ghost predicate SameSplice(a: Bytes, ras: seq<SourceRange>, from: nat, b: Bytes, rbs: seq<SourceRange>, cursor: nat,
                             tag: Bytes) {
    && from <= |a| && Ordered(|a|, ras, from)
    && cursor <= |b| && Ordered(|b|, rbs, cursor)
    && Spliced(a, ras, tag, from) == Spliced(b, rbs, tag, cursor)
  }

  /** Renaming the renamed tags is renaming the original ones: whatever came between leaves no trace. */
  lemma {:induction false} RenameTwice(content: Bytes, ranges: seq<SourceRange>, first: Bytes, second: Bytes,
                                       cursor: nat, before: Bytes, output: Bytes)
    requires cursor <= |content| && Ordered(|content|, ranges, cursor)
    requires output == before + Spliced(content, ranges, first, cursor)
    ensures SameSplice(output, Moved(|content|, ranges, 1 + |first|, cursor, |before|), |before|, content, ranges,
                       cursor, second)
    decreases |ranges|
  {
    if ranges == [] {
      assert output[|before|..] == content[cursor..];
    } else {
      var r := ranges[0];
      var kept := content[cursor..r.start];
      var tag := [HASH] + first;
      var tail := Spliced(content, ranges[1..], first, r.end);
      var next := before + kept + tag;
      Regroup(before, kept, tag, tail);
      RenameTwice(content, ranges[1..], first, second, r.end, next, output);
      var rest := Moved(|content|, ranges[1..], |tag|, r.end, |next|);
      var head := SourceRange(|before| + |kept|, |next|);
      assert Moved(|content|, ranges, |tag|, cursor, |before|) == [head] + rest;
      SplicedCons(output, head, rest, second, |before|);
    }
  }

  lemma Regroup(a: Bytes, b: Bytes, c: Bytes, d: Bytes)
    ensures a + (b + c + d) == (a + b + c) + d
    ensures ((a + b + c) + d)[|a|..|a| + |b|] == b
  {
  }

  /** Writing back the spelling that is already there changes nothing. */
  lemma {:induction false} SameSpellingIsIdentity(content: Bytes, ranges: seq<SourceRange>, tag: Bytes, cursor: nat)
    requires cursor <= |content| && Ordered(|content|, ranges, cursor)
    requires forall r :: r in ranges ==> r.start <= r.end <= |content| && content[r.start..r.end] == [HASH] + tag
    ensures Spliced(content, ranges, tag, cursor) == content[cursor..]
    decreases |ranges|
  {
    if ranges != [] {
      var r := ranges[0];
      SameSpellingIsIdentity(content, ranges[1..], tag, r.end);
      assert r in ranges && content[r.start..r.end] == [HASH] + tag;
      assert content[cursor..] == content[cursor..r.start] + content[r.start..r.end] + content[r.end..];
    }
  }

  /** Renaming there and back restores a source whose tags were spelled exactly `#tag`. */
  lemma RenameRoundTrip(content: Bytes, ranges: seq<SourceRange>, oldTag: Bytes, newTag: Bytes)
    requires Ordered(|content|, ranges, 0)
    requires forall r :: r in ranges ==> r.start <= r.end <= |content| && content[r.start..r.end] == [HASH] + oldTag
    ensures var output := Spliced(content, ranges, newTag, 0);
      var moved := Moved(|content|, ranges, 1 + |newTag|, 0, 0);
      Ordered(|output|, moved, 0) && Spliced(output, moved, oldTag, 0) == content
  {
    var output := Spliced(content, ranges, newTag, 0);
    assert output == [] + output;
    RenameTwice(content, ranges, newTag, oldTag, 0, [], output);
    SameSpellingIsIdentity(content, ranges, oldTag, 0);
  }

  // Hierarchy.

  function SlashFrom(value: Bytes, offset: nat): (k: nat)
    requires offset <= |value|
    ensures offset <= k <= |value|
    ensures k < |value| ==> value[k] == SLASH
    ensures forall j :: offset <= j < k ==> value[j] != SLASH
    decreases |value| - offset
  {
    if offset == |value| || value[offset] == SLASH then offset else SlashFrom(value, offset + 1)
  }

  /** The prefixes before each slash from `offset` on, then the value itself. */
  function AncestorsFrom(value: Bytes, offset: nat): seq<Bytes>
    requires offset <= |value|
    decreases |value| - offset
  {
    var k := SlashFrom(value, offset);
    if k == |value| then [value] else [value[..k]] + AncestorsFrom(value, k + 1)
  }

  method AppendTagHierarchy(tags: seq<Bytes>, value: Bytes) returns (all: seq<Bytes>)
    ensures all == tags + AncestorsFrom(value, 0)
  {
    all := tags;
    var offset := 0;
    while SlashFrom(value, offset) < |value|
      invariant offset <= |value|
      invariant tags + AncestorsFrom(value, 0) == all + AncestorsFrom(value, offset)
      decreases |value| - offset
    {
      offset := SlashFrom(value, offset) + 1;
      all := all + [value[..offset - 1]];
    }
    all := all + [value];
  }

  predicate IsAncestor(value: Bytes, x: Bytes) {
    x == value || (|x| < |value| && value[..|x|] == x && value[|x|] == SLASH)
  }

  /** The appended tags are the value and its prefixes that end before a slash, shortest first. */
  lemma {:induction false} AncestorsExactly(value: Bytes, offset: nat, x: Bytes)
    requires offset <= |value|
    ensures x in AncestorsFrom(value, offset) <==> IsAncestor(value, x) && |x| >= offset
    ensures forall i, j :: 0 <= i < j < |AncestorsFrom(value, offset)| ==>
      |AncestorsFrom(value, offset)[i]| < |AncestorsFrom(value, offset)[j]|
    decreases |value| - offset
  {
    var k := SlashFrom(value, offset);
    var all := AncestorsFrom(value, offset);
    if k < |value| {
      AncestorsExactly(value, k + 1, x);
      var rest := AncestorsFrom(value, k + 1);
      forall y | y in rest
        ensures |y| > k
      {
        AncestorsExactly(value, k + 1, y);
      }
      assert IsAncestor(value, x) && offset <= |x| <= k ==> x == value[..k];
      forall i, j | 0 <= i < j < |all|
        ensures |all[i]| < |all[j]|
      {
        assert all[j] == rest[j - 1] && rest[j - 1] in rest;
        if i > 0 { assert all[i] == rest[i - 1]; }
      }
    }
  }

  /** The extracted tags are closed under taking ancestors. */
  lemma AncestorsClosed(value: Bytes, x: Bytes, y: Bytes)
    requires x in AncestorsFrom(value, 0) && y in AncestorsFrom(x, 0)
    ensures y in AncestorsFrom(value, 0)
  {
    AncestorsExactly(value, 0, x);
    AncestorsExactly(x, 0, y);
    AncestorsExactly(value, 0, y);
    if y != x && x != value {
      assert value[..|x|][..|y|] == value[..|y|] && value[..|x|][|y|] == value[|y|];
    }
  }
}
