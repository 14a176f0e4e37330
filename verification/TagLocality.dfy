/** Where the tag scan splits: at a byte that cannot continue what stands before it, both sides are scanned on their
    own. */
module TagLocality {
  import opened Wrappers
  import opened TagScanner

  // Where the scan splits.

  predicate AsciiOnlyFirst(e: Bytes) { forall i :: 0 < i < |e| ==> e[i] >= 0x80 }

  /** Only the first byte of a listed emoji is ASCII, as in Unicode's table. */
  ghost predicate AsciiLeads(lx: Lexicon) { forall e: Bytes :: lx.emoji(e) ==> AsciiOnlyFirst(e) }

  /** An ASCII byte that neither continues a tag nor completes a character reference. */
  predicate Closes(lx: Lexicon, b: byte) {
    && b < 0x80 && !IsAlphaNumeric(b)
    && b != 0x2D && b != 0x2B && b != AMPERSAND && b != 0x27 && b != SLASH && b != SEMICOLON
    && !IsXidContinue(lx, b as int) && !IsIgnorable(lx, b as int)
  }

  /** Nothing at the end of `s` reaches into the bytes after it. */
  predicate Ends(lx: Lexicon, s: Bytes, rest: Bytes) {
    rest == [] ||
    (&& Closes(lx, rest[0]) && EmojiLength(lx, rest) == 0
     && (s != [] && s[|s| - 1] == BACKSLASH ==> !IsPunct(rest[0]))
     && (s != [] && s[|s| - 1] == AMPERSAND ==> rest[0] != HASH))
  }

  lemma Drops(s: Bytes, rest: Bytes, pos: nat)
    requires pos <= |s|
    ensures (s + rest)[pos..] == s[pos..] + rest
  {
  }

  lemma Takes(s: Bytes, rest: Bytes, from: nat, to: nat)
    requires from <= to <= |s|
    ensures (s + rest)[from..to] == s[from..to]
  {
  }

  lemma DecodeLocal(s: Bytes, rest: Bytes)
    requires s != [] && (rest == [] || rest[0] < 0x80)
    ensures DecodeRune(s + rest) == DecodeRune(s)
  {
    var t := s + rest;
    assert forall i :: 0 <= i < |s| ==> t[i] == s[i];
    assert rest != [] ==> t[|s|] == rest[0];
  }

  /** Past an ASCII byte that does not come first, no longer emoji is found. */
  lemma {:induction false} EmojiPast(lx: Lexicon, source: Bytes, k: nat, pos: nat, best: nat)
    requires AsciiLeads(lx) && 0 < k < |source| && source[k] < 0x80 && k <= pos <= |source| && best <= pos
    ensures EmojiFrom(lx, source, pos, best) == best
    decreases |source| - pos
  {
    if pos < |source| {
      var next := pos + DecodeRune(source[pos..]).1;
      assert source[..next][k] == source[k];
      assert !lx.emoji(source[..next]);
      EmojiPast(lx, source, k, next, best);
    }
  }

  predicate SameEmoji(lx: Lexicon, t: Bytes, s: Bytes, pos: nat, best: nat)
    requires best <= pos <= |s| <= |t|
  {
    EmojiFrom(lx, t, pos, best) == EmojiFrom(lx, s, pos, best)
  }

  lemma {:induction false} EmojiFromLocal(lx: Lexicon, s: Bytes, rest: Bytes, pos: nat, best: nat)
    requires AsciiLeads(lx) && s != [] && (rest == [] || rest[0] < 0x80) && best <= pos <= |s|
    ensures SameEmoji(lx, s + rest, s, pos, best)
    decreases |s| - pos
  {
    var t := s + rest;
    if rest == [] {
      assert t == s;
    } else if pos == |s| {
      EmojiPast(lx, t, |s|, pos, best);
    } else {
      var next := pos + DecodeRune(s[pos..]).1;
      var better := if lx.emoji(s[..next]) then next else best;
      Drops(s, rest, pos);
      DecodeLocal(s[pos..], rest);
      Takes(s, rest, 0, next);
      EmojiFromLocal(lx, s, rest, next, better);
      EmojiStepSame(lx, t, s, pos, best, next, better);
    }
  }

  lemma EmojiStepSame(lx: Lexicon, t: Bytes, s: Bytes, pos: nat, best: nat, next: nat, better: nat)
    requires best <= pos < |s| <= |t| && next == pos + DecodeRune(s[pos..]).1 && better <= next
    requires better == if lx.emoji(s[..next]) then next else best
    requires DecodeRune(t[pos..]) == DecodeRune(s[pos..]) && t[..next] == s[..next]
    requires SameEmoji(lx, t, s, next, better)
    ensures SameEmoji(lx, t, s, pos, best)
  {
  }

  lemma EmojiLocal(lx: Lexicon, s: Bytes, rest: Bytes)
    requires AsciiLeads(lx) && Ends(lx, s, rest)
    ensures EmojiLength(lx, s + rest) == EmojiLength(lx, s)
  {
    if s == [] {
      assert s + rest == rest;
    } else {
      EmojiFromLocal(lx, s, rest, 0, 0);
    }
  }

  lemma {:induction false} RunEndLocal(lx: Lexicon, s: Bytes, rest: Bytes, kind: RunKind, pos: nat, limit: nat)
    requires Ends(lx, s, rest) && pos <= |s|
    ensures RunEnd(s + rest, kind, pos, limit) == RunEnd(s, kind, pos, limit)
    decreases |s| - pos
  {
    if pos < |s| {
      assert (s + rest)[pos] == s[pos];
      RunEndLocal(lx, s, rest, kind, pos + 1, limit);
    } else if rest != [] {
      assert (s + rest)[pos] == rest[0];
    }
  }

  lemma ReferenceLocal(lx: Lexicon, s: Bytes, rest: Bytes)
    requires Ends(lx, s, rest) && s != []
    ensures ReferenceLength(lx, s + rest) == ReferenceLength(lx, s)
  {
    var t := s + rest;
    assert forall i :: 0 <= i < |s| ==> t[i] == s[i];
    if rest == [] {
      assert t == s;
    } else if s[0] == AMPERSAND {
      assert t[|s|] == rest[0];
      if |s| > 1 && s[1] == HASH {
        NumericLocal(lx, s, rest);
      } else {
        RunEndLocal(lx, s, rest, Name, 1, 33);
        var end := RunEnd(s, Name, 1, 33);
        assert t[1..end] == s[1..end];
      }
    }
  }

  lemma NumericLocal(lx: Lexicon, s: Bytes, rest: Bytes)
    requires Ends(lx, s, rest) && |s| > 1 && s[0] == AMPERSAND && s[1] == HASH && rest != []
    ensures ReferenceLength(lx, s + rest) == ReferenceLength(lx, s)
  {
    var t := s + rest;
    assert forall i :: 0 <= i < |s| ==> t[i] == s[i];
    assert t[|s|] == rest[0];
    RunEndLocal(lx, s, rest, Digits, 2, 9);
    if |s| > 2 { RunEndLocal(lx, s, rest, HexDigits, 3, 9); }
  }

  // Segments and identifiers.

  lemma AloneAtEnd(lx: Lexicon, rest: Bytes)
    requires rest != [] && Closes(lx, rest[0])
    ensures DecodeRune(rest) == (rest[0] as int, 1) && !IsContinuation(lx, rest[0] as int)
    ensures !IsStarter(lx, rest[0] as int) && !IsApostrophe(rest[0] as int) && rest[0] != AMPERSAND && rest[0] != SLASH
  {
  }

  lemma StartsWordLocal(lx: Lexicon, s: Bytes, rest: Bytes)
    requires AsciiLeads(lx) && Ends(lx, s, rest)
    ensures StartsWord(lx, s + rest) == StartsWord(lx, s)
  {
    EmojiLocal(lx, s, rest);
    if s != [] {
      DecodeLocal(s, rest);
    } else if rest != [] {
      assert s + rest == rest;
      AloneAtEnd(lx, rest);
    }
  }

  lemma OpeningLocal(lx: Lexicon, s: Bytes, rest: Bytes, pos: nat)
    requires AsciiLeads(lx) && Ends(lx, s, rest) && pos < |s|
    ensures OpeningAt(lx, s + rest, pos) == OpeningAt(lx, s, pos)
  {
    hide ReferenceLength, EmojiLength, OpeningAt;
    var t, x := s + rest, s[pos..];
    Drops(s, rest, pos);
    assert t[pos] == s[pos];
    ReferenceLocal(lx, x, rest);
    EmojiLocal(lx, x, rest);
    DecodeLocal(x, rest);
    Takes(s, rest, pos, pos + EmojiLength(lx, x));
    Takes(s, rest, pos, pos + DecodeRune(x).1);
    OpeningSame(lx, t, s, pos);
  }

  lemma OpeningSame(lx: Lexicon, t: Bytes, s: Bytes, pos: nat)
    requires pos < |s| <= |t| && t[pos] == s[pos]
    requires ReferenceLength(lx, t[pos..]) == ReferenceLength(lx, s[pos..])
    requires EmojiLength(lx, t[pos..]) == EmojiLength(lx, s[pos..]) && DecodeRune(t[pos..]) == DecodeRune(s[pos..])
    requires var n := pos + EmojiLength(lx, s[pos..]); t[pos..n] == s[pos..n]
    requires var n := pos + DecodeRune(s[pos..]).1; t[pos..n] == s[pos..n]
    ensures OpeningAt(lx, t, pos) == OpeningAt(lx, s, pos)
  {
    hide ReferenceLength, EmojiLength, DecodeRune;
  }

  lemma {:induction false} StartLocal(lx: Lexicon, s: Bytes, rest: Bytes, pos: nat)
    requires AsciiLeads(lx) && Ends(lx, s, rest) && pos <= |s|
    ensures SegmentStart(lx, s + rest, pos) == SegmentStart(lx, s, pos)
    decreases |s| - pos
  {
    hide OpeningAt, AsciiLeads, Ends;
    if pos < |s| {
      OpeningLocal(lx, s, rest, pos);
      if OpeningAt(lx, s, pos).Skip? { StartLocal(lx, s, rest, pos + OpeningAt(lx, s, pos).n); }
    } else {
      StartBeyond(lx, s, rest);
    }
  }

  lemma StartBeyond(lx: Lexicon, s: Bytes, rest: Bytes)
    requires Ends(lx, s, rest)
    ensures SegmentStart(lx, s + rest, |s|) == None
  {
    if rest == [] {
      assert s + rest == s;
      return;
    }
    Drops(s, rest, |s|);
    assert (s + rest)[|s|] == rest[0] && [] + rest == rest;
    AloneAtEnd(lx, rest);
    OpeningBeyond(lx, s + rest, rest, |s|);
  }

  lemma OpeningBeyond(lx: Lexicon, t: Bytes, rest: Bytes, pos: nat)
    requires pos < |t| && t[pos..] == rest && t[pos] == rest[0] && Closes(lx, rest[0]) && EmojiLength(lx, rest) == 0
    requires DecodeRune(rest) == (rest[0] as int, 1) && !IsStarter(lx, rest[0] as int) && rest[0] != AMPERSAND
    ensures OpeningAt(lx, t, pos) == Stop(None)
  {
  }

  lemma StepLocal(lx: Lexicon, s: Bytes, rest: Bytes, c: Scan)
    requires AsciiLeads(lx) && Ends(lx, s, rest) && c.pos <= |s|
    ensures SegmentStep(lx, s + rest, c) == SegmentStep(lx, s, c)
  {
    Drops(s, rest, c.pos);
    if c.pos < |s| {
      StepInside(lx, s, rest, c);
    } else if rest != [] {
      assert (s + rest)[c.pos] == rest[0] && [] + rest == rest;
      AloneAtEnd(lx, rest);
    }
  }

  lemma StepInside(lx: Lexicon, s: Bytes, rest: Bytes, c: Scan)
    requires AsciiLeads(lx) && Ends(lx, s, rest) && c.pos < |s|
    ensures SegmentStep(lx, s + rest, c) == SegmentStep(lx, s, c)
  {
    hide ReferenceLength, EmojiLength, DecodeRune, StartsWord, SegmentStep;
    var t, x := s + rest, s[c.pos..];
    var next := c.pos + DecodeRune(x).1;
    Drops(s, rest, c.pos);
    assert t[c.pos] == s[c.pos];
    ReferenceLocal(lx, x, rest);
    EmojiLocal(lx, x, rest);
    DecodeLocal(x, rest);
    Drops(s, rest, next);
    StartsWordLocal(lx, s[next..], rest);
    Takes(s, rest, c.pos, c.pos + EmojiLength(lx, x));
    Takes(s, rest, c.pos, next);
    StepSame(lx, t, s, c, next, ReferenceLength(lx, x), EmojiLength(lx, x), DecodeRune(x));
  }

  lemma StepSame(lx: Lexicon, t: Bytes, s: Bytes, c: Scan, next: nat, reference: nat, emoji: nat, d: (int, nat))
    requires c.pos < |s| <= |t| && t[c.pos] == s[c.pos] && next == c.pos + d.1 <= |s| && c.pos + emoji <= |s|
    requires ReferenceLength(lx, t[c.pos..]) == reference && ReferenceLength(lx, s[c.pos..]) == reference
    requires EmojiLength(lx, t[c.pos..]) == emoji && EmojiLength(lx, s[c.pos..]) == emoji
    requires DecodeRune(t[c.pos..]) == d && DecodeRune(s[c.pos..]) == d
    requires StartsWord(lx, t[next..]) == StartsWord(lx, s[next..])
    requires t[c.pos..c.pos + emoji] == s[c.pos..c.pos + emoji] && t[c.pos..next] == s[c.pos..next]
    ensures SegmentStep(lx, t, c) == SegmentStep(lx, s, c)
  {
    hide ReferenceLength, EmojiLength, DecodeRune, StartsWord;
  }

  lemma {:induction false} RestLocal(lx: Lexicon, s: Bytes, rest: Bytes, c: Scan)
    requires AsciiLeads(lx) && Ends(lx, s, rest) && c.pos <= |s|
    ensures SegmentRest(lx, s + rest, c) == SegmentRest(lx, s, c)
    decreases |s| - c.pos
  {
    hide SegmentStep;
    StepLocal(lx, s, rest, c);
    if SegmentStep(lx, s, c).Some? { RestLocal(lx, s, rest, SegmentStep(lx, s, c).value); }
  }

  lemma SegmentLocal(lx: Lexicon, s: Bytes, rest: Bytes)
    requires AsciiLeads(lx) && Ends(lx, s, rest)
    ensures Segment(lx, s + rest) == Segment(lx, s)
  {
    hide SegmentStart, SegmentRest;
    StartLocal(lx, s, rest, 0);
    if SegmentStart(lx, s, 0).Some? { RestLocal(lx, s, rest, SegmentStart(lx, s, 0).value); }
  }

  lemma IdentifierStepLocal(lx: Lexicon, s: Bytes, rest: Bytes, consumed: nat)
    requires AsciiLeads(lx) && Ends(lx, s, rest) && consumed <= |s|
    ensures IdentifierStep(lx, s + rest, consumed) == IdentifierStep(lx, s, consumed)
  {
    hide Segment, AsciiLeads;
    if consumed < |s| {
      assert (s + rest)[consumed] == s[consumed];
      Drops(s, rest, consumed + 1);
      SegmentLocal(lx, s[consumed + 1..], rest);
    } else if rest != [] {
      assert (s + rest)[consumed] == rest[0];
    }
  }

  lemma {:induction false} IdentifierRestLocal(lx: Lexicon, s: Bytes, rest: Bytes, consumed: nat, value: Bytes)
    requires AsciiLeads(lx) && Ends(lx, s, rest) && consumed <= |s|
    ensures IdentifierRest(lx, s + rest, consumed, value) == IdentifierRest(lx, s, consumed, value)
    decreases |s| - consumed
  {
    hide IdentifierStep;
    IdentifierStepLocal(lx, s, rest, consumed);
    if IdentifierStep(lx, s, consumed).Some? {
      var (next, v) := IdentifierStep(lx, s, consumed).value;
      IdentifierRestLocal(lx, s, rest, next, value + [SLASH] + v);
    }
  }

  /** What follows such an end has no part in the identifier. */
  lemma IdentifierLocal(lx: Lexicon, s: Bytes, rest: Bytes)
    requires AsciiLeads(lx) && Ends(lx, s, rest)
    ensures Identifier(lx, s + rest) == Identifier(lx, s)
  {
    hide Segment, IdentifierRest;
    SegmentLocal(lx, s, rest);
    if Segment(lx, s).Some? {
      IdentifierRestLocal(lx, s, rest, Segment(lx, s).value.0, Segment(lx, s).value.1);
    }
  }

  lemma SkipLocal(lx: Lexicon, s: Bytes, rest: Bytes)
    requires AsciiLeads(lx) && Ends(lx, s, rest) && s != []
    ensures SkipLength(lx, s + rest) == SkipLength(lx, s)
  {
    hide ReferenceLength, EmojiLength, DecodeRune;
    var t := s + rest;
    assert t[0] == s[0] && (|s| > 1 ==> t[1] == s[1]) && (|s| == 1 && rest != [] ==> t[1] == rest[0]);
    EmojiLocal(lx, s, rest);
    ReferenceLocal(lx, s, rest);
    DecodeLocal(s, rest);
  }

  lemma MatchStepLocal(lx: Lexicon, s: Bytes, rest: Bytes, pos: nat)
    requires AsciiLeads(lx) && Ends(lx, s, rest) && pos < |s|
    ensures MatchStep(lx, s + rest, pos) == MatchStep(lx, s, pos)
  {
    hide SkipLength, Identifier;
    Drops(s, rest, pos);
    Drops(s, rest, pos + 1);
    SkipLocal(lx, s[pos..], rest);
    IdentifierLocal(lx, s[pos + 1..], rest);
  }

  /** The scan splits at such an end. */
  lemma {:induction false} MatchesSplit(lx: Lexicon, s: Bytes, rest: Bytes, pos: nat)
    requires AsciiLeads(lx) && Ends(lx, s, rest) && pos <= |s|
    ensures MatchesFrom(lx, s + rest, pos) == MatchesFrom(lx, s, pos) + MatchesFrom(lx, s + rest, |s|)
    decreases |s| - pos
  {
    hide MatchStep;
    if pos < |s| {
      MatchStepLocal(lx, s, rest, pos);
      MatchesSplit(lx, s, rest, MatchStep(lx, s, pos).0);
    }
  }

  function Shifted(ms: seq<TagMatch>, offset: nat): (r: seq<TagMatch>)
    ensures |r| == |ms|
    ensures forall i :: 0 <= i < |r| ==> r[i] == TagMatch(ms[i].start + offset, ms[i].end + offset, ms[i].value)
  {
    seq(|ms|, i requires 0 <= i < |ms| => TagMatch(ms[i].start + offset, ms[i].end + offset, ms[i].value))
  }

  /** The scan from a position on sees only the bytes from there on. */
  lemma {:induction false} MatchesShift(lx: Lexicon, s: Bytes, rest: Bytes, pos: nat)
    requires pos <= |rest|
    ensures MatchesFrom(lx, s + rest, |s| + pos) == Shifted(MatchesFrom(lx, rest, pos), |s|)
    decreases |rest| - pos
  {
    hide MatchStep;
    if pos < |rest| {
      var t, step := s + rest, MatchStep(lx, rest, pos);
      assert t[|s| + pos..] == rest[pos..] && t[|s| + pos + 1..] == rest[pos + 1..];
      MatchesShift(lx, s, rest, step.0);
      StepShift(lx, t, rest, |s|, pos);
      MatchesUnfold(lx, t, |s| + pos, (|s| + step.0, Shifted(step.1, |s|)));
      ShiftedConcat(step.1, MatchesFrom(lx, rest, step.0), |s|);
    }
  }

  lemma MatchesUnfold(lx: Lexicon, s: Bytes, pos: nat, step: (nat, seq<TagMatch>))
    requires pos < |s| && step == MatchStep(lx, s, pos)
    ensures MatchesFrom(lx, s, pos) == step.1 + MatchesFrom(lx, s, step.0)
  {
    hide MatchStep;
  }

  lemma StepShift(lx: Lexicon, t: Bytes, rest: Bytes, n: nat, pos: nat)
    requires pos < |rest| && |t| == n + |rest|
    requires t[n + pos..] == rest[pos..] && t[n + pos + 1..] == rest[pos + 1..]
    ensures MatchStep(lx, t, n + pos)
         == (n + MatchStep(lx, rest, pos).0, Shifted(MatchStep(lx, rest, pos).1, n))
  {
    hide SkipLength, Identifier;
    var skip, id := SkipLength(lx, rest[pos..]), Identifier(lx, rest[pos + 1..]);
    SteppedShift(pos, n, skip, id);
  }

  lemma SteppedShift(pos: nat, n: nat, skip: nat, id: Option<(nat, Bytes)>)
    ensures Stepped(n + pos, skip, id) == (n + Stepped(pos, skip, id).0, Shifted(Stepped(pos, skip, id).1, n))
  {
    assert Shifted([], n) == [];
    if skip == 0 && id.Some? {
      var m := TagMatch(pos, pos + id.value.0 + 1, id.value.1);
      assert Shifted([m], n) == [TagMatch(n + m.start, n + m.end, m.value)];
    }
  }

  lemma ShiftedConcat(a: seq<TagMatch>, b: seq<TagMatch>, n: nat)
    ensures Shifted(a + b, n) == Shifted(a, n) + Shifted(b, n)
  {
  }

  function ScanText(lx: Lexicon, s: Bytes): seq<TagMatch> { MatchesFrom(lx, s, 0) }

  /** Both parts are scanned on their own. */
  lemma ScanSplits(lx: Lexicon, s: Bytes, rest: Bytes)
    requires AsciiLeads(lx) && Ends(lx, s, rest)
    ensures ScanText(lx, s + rest) == ScanText(lx, s) + Shifted(ScanText(lx, rest), |s|)
  {
    hide MatchesFrom;
    MatchesSplit(lx, s, rest, 0);
    MatchesShift(lx, s, rest, 0);
  }
}
