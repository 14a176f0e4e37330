/** Lexing `#tag` spellings from a run of literal source bytes. */
module TagScanner {
  import opened Wrappers

  newtype byte = x: int | 0 <= x < 256
  type Bytes = seq<byte>

  datatype Range = Range(lo: int, hi: int)

  /** Unicode and HTML tables the scanner consults: code point ranges, emoji sequences, entity names. */
  datatype Lexicon = Lexicon(xidContinue: seq<Range>, ignorable: seq<Range>, combining: seq<Range>,
                             emoji: Bytes -> bool, maxEmoji: nat, entity: Bytes -> bool)

  const HASH: byte := 0x23
  const SLASH: byte := 0x2F
  const AMPERSAND: byte := 0x26
  const SEMICOLON: byte := 0x3B
  const BACKSLASH: byte := 0x5C
  const RUNE_ERROR: int := 0xFFFD

  // Code point tables.

  predicate Sorted(ranges: seq<Range>) {
    && (forall i :: 0 <= i < |ranges| ==> ranges[i].lo <= ranges[i].hi)
    && (forall i, j :: 0 <= i < j < |ranges| ==> ranges[i].hi < ranges[j].lo)
  }

  predicate InRanges(ranges: seq<Range>, r: int) {
    exists i :: 0 <= i < |ranges| && ranges[i].lo <= r <= ranges[i].hi
  }

  /** Binary search answers membership in a sorted table of disjoint ranges. */
  method ContainsCodePoint(ranges: seq<Range>, r: int) returns (found: bool)
    requires Sorted(ranges)
    ensures found <==> InRanges(ranges, r)
  {
    var low, high := 0, |ranges|;
    while low < high
      invariant 0 <= low <= high <= |ranges|
      invariant forall i :: 0 <= i < low ==> ranges[i].hi < r
      invariant forall i :: high <= i < |ranges| ==> r < ranges[i].lo
    {
      var middle := low + (high - low) / 2;
      var current := ranges[middle];
      if r < current.lo {
        high := middle;
      } else if r > current.hi {
        low := middle + 1;
      } else {
        return true;
      }
    }
    found := false;
  }

  predicate IsXidContinue(lx: Lexicon, r: int) { InRanges(lx.xidContinue, r) }
  predicate IsIgnorable(lx: Lexicon, r: int) { InRanges(lx.ignorable, r) }
  predicate IsCombining(lx: Lexicon, r: int) { InRanges(lx.combining, r) }

  predicate IsJoinerMark(r: int) { r == 0x2D || r == 0x2B || r == 0x26 }
  predicate IsApostrophe(r: int) { r == 0x27 || r == 0x2019 }

  predicate IsWordRune(lx: Lexicon, r: int) { IsXidContinue(lx, r) && !IsIgnorable(lx, r) }
  predicate IsStarter(lx: Lexicon, r: int) { IsJoinerMark(r) || (IsWordRune(lx, r) && !IsCombining(lx, r)) }
  predicate IsContinuation(lx: Lexicon, r: int) { IsJoinerMark(r) || IsWordRune(lx, r) }

  // UTF-8.

  predicate Follows(b: byte) { 0x80 <= b <= 0xBF }

  function Tail6(b: byte): int { b as int % 64 }

  /** The first rune and its width; an ill-formed prefix is the error rune of width 1. */
  function DecodeRune(s: Bytes): (r: (int, nat))
    ensures s != [] ==> 1 <= r.1 <= |s|
  {
    if s == [] then (RUNE_ERROR, 0)
    else if s[0] < 0x80 then (s[0] as int, 1)
    else if 0xC2 <= s[0] <= 0xDF && |s| > 1 && Follows(s[1]) then
      ((s[0] as int - 0xC0) * 64 + Tail6(s[1]), 2)
    else if 0xE0 <= s[0] <= 0xEF && |s| > 2 && Follows(s[1]) && Follows(s[2])
      && (s[0] == 0xE0 ==> s[1] >= 0xA0) && (s[0] == 0xED ==> s[1] <= 0x9F) then
      ((s[0] as int - 0xE0) * 4096 + Tail6(s[1]) * 64 + Tail6(s[2]), 3)
    else if 0xF0 <= s[0] <= 0xF4 && |s| > 3 && Follows(s[1]) && Follows(s[2]) && Follows(s[3])
      && (s[0] == 0xF0 ==> s[1] >= 0x90) && (s[0] == 0xF4 ==> s[1] <= 0x8F) then
      ((s[0] as int - 0xF0) * 262144 + Tail6(s[1]) * 4096 + Tail6(s[2]) * 64 + Tail6(s[3]), 4)
    else (RUNE_ERROR, 1)
  }

  predicate IllFormed(d: (int, nat)) { d.0 == RUNE_ERROR && d.1 == 1 }

  // Emoji: the longest listed sequence that starts the source.

  function Min(a: nat, b: nat): nat { if a < b then a else b }

  function EmojiFrom(lx: Lexicon, source: Bytes, pos: nat, best: nat): (n: nat)
    requires pos <= |source| && best <= pos
    ensures best <= n <= |source|
    ensures n > best ==> lx.emoji(source[..n])
    decreases |source| - pos
  {
    var limit := Min(|source|, lx.maxEmoji);
    if pos >= limit then best
    else
      var d := DecodeRune(source[pos..]);
      var next := pos + d.1;
      if IllFormed(d) || next > limit then best
      else EmojiFrom(lx, source, next, if lx.emoji(source[..next]) then next else best)
  }

  function EmojiLength(lx: Lexicon, source: Bytes): (n: nat)
    ensures n <= |source| && (n > 0 ==> lx.emoji(source[..n]))
  {
    EmojiFrom(lx, source, 0, 0)
  }

  /** `k` is reached from `pos` by whole, well-formed runes. */
  predicate RuneBoundary(source: Bytes, pos: nat, k: nat)
    requires pos <= |source|
    decreases |source| - pos
  {
    pos == k || (pos < |source| && !IllFormed(DecodeRune(source[pos..]))
                 && RuneBoundary(source, pos + DecodeRune(source[pos..]).1, k))
  }

  lemma {:induction false} BoundaryAhead(source: Bytes, pos: nat, k: nat)
    requires pos <= |source| && RuneBoundary(source, pos, k)
    ensures pos <= k <= |source|
    decreases |source| - pos
  {
    if pos != k { BoundaryAhead(source, pos + DecodeRune(source[pos..]).1, k); }
  }

  lemma {:induction false} EmojiFromLongest(lx: Lexicon, source: Bytes, pos: nat, best: nat, k: nat)
    requires pos <= |source| && best <= pos < k <= lx.maxEmoji && k <= |source|
    requires RuneBoundary(source, pos, k) && lx.emoji(source[..k])
    ensures EmojiFrom(lx, source, pos, best) >= k
    decreases |source| - pos
  {
    BoundaryAhead(source, pos, k);
    var next := pos + DecodeRune(source[pos..]).1;
    BoundaryAhead(source, next, k);
    if next < k {
      EmojiFromLongest(lx, source, next, if lx.emoji(source[..next]) then next else best, k);
    }
  }

  lemma {:induction false} EmojiFromBoundary(lx: Lexicon, source: Bytes, pos: nat, best: nat)
    requires pos <= |source| && best <= pos
    ensures var n := EmojiFrom(lx, source, pos, best); n == best || (n <= lx.maxEmoji && RuneBoundary(source, pos, n))
    decreases |source| - pos
  {
    if pos < Min(|source|, lx.maxEmoji) {
      var d := DecodeRune(source[pos..]);
      var next := pos + d.1;
      if !IllFormed(d) && next <= Min(|source|, lx.maxEmoji) {
        EmojiFromBoundary(lx, source, next, if lx.emoji(source[..next]) then next else best);
      }
    }
  }

  /** `k` bytes of the source are a listed emoji of whole runes, short enough to be looked up. */
  predicate ListedEmoji(lx: Lexicon, source: Bytes, k: nat) {
    0 < k <= |source| && k <= lx.maxEmoji && RuneBoundary(source, 0, k) && lx.emoji(source[..k])
  }

  /** The match is the longest listed emoji in front, and zero exactly when there is none. */
  lemma EmojiLongest(lx: Lexicon, source: Bytes)
    ensures EmojiLength(lx, source) > 0 ==> ListedEmoji(lx, source, EmojiLength(lx, source))
    ensures forall k: nat :: ListedEmoji(lx, source, k) ==> k <= EmojiLength(lx, source)
  {
    EmojiFromBoundary(lx, source, 0, 0);
    forall k: nat | ListedEmoji(lx, source, k)
      ensures k <= EmojiLength(lx, source)
    {
      EmojiFromLongest(lx, source, 0, 0, k);
    }
  }

  method MatchFullyQualifiedEmoji(lx: Lexicon, source: Bytes) returns (length: nat)
    ensures length == EmojiLength(lx, source)
    ensures length > 0 ==> ListedEmoji(lx, source, length)
    ensures forall k: nat :: ListedEmoji(lx, source, k) ==> k <= length
  {
    EmojiLongest(lx, source);
    var limit := Min(|source|, lx.maxEmoji);
    length := 0;
    var pos := 0;
    while pos < limit
      invariant length <= pos <= |source|
      invariant EmojiLength(lx, source) == EmojiFrom(lx, source, pos, length)
    {
      var d := DecodeRune(source[pos..]);
      if IllFormed(d) {
        break;
      }
      pos := pos + d.1;
      if pos > limit {
        break;
      }
      if lx.emoji(source[..pos]) {
        length := pos;
      }
    }
  }

  // Character references: `&#123;`, `&#x1f;` and named entities.

  predicate IsDigit(b: byte) { 0x30 <= b <= 0x39 }
  predicate IsHexDigit(b: byte) { IsDigit(b) || 0x61 <= b <= 0x66 || 0x41 <= b <= 0x46 }
  predicate IsAlphaNumeric(b: byte) { IsDigit(b) || 0x61 <= b <= 0x7A || 0x41 <= b <= 0x5A }
  predicate IsPunct(b: byte) { 0x21 <= b <= 0x2F || 0x3A <= b <= 0x40 || 0x5B <= b <= 0x60 || 0x7B <= b <= 0x7E }

  datatype RunKind = Digits | HexDigits | Name

  predicate InRun(kind: RunKind, b: byte) {
    match kind case Digits => IsDigit(b) case HexDigits => IsHexDigit(b) case Name => IsAlphaNumeric(b)
  }

  function RunEnd(s: Bytes, kind: RunKind, pos: nat, limit: nat): (end: nat)
    requires pos <= |s|
    ensures pos <= end <= |s|
    decreases |s| - pos
  {
    if pos < |s| && pos < limit && InRun(kind, s[pos]) then RunEnd(s, kind, pos + 1, limit) else pos
  }

  function ReferenceLength(lx: Lexicon, s: Bytes): (n: nat)
    ensures n <= |s| && (n > 0 ==> n >= 3 && s[0] == AMPERSAND)
  {
    if |s| < 3 || s[0] != AMPERSAND then 0
    else if s[1] == HASH then
      var hex := s[2] == 0x78 || s[2] == 0x58;
      var start := if hex then 3 else 2;
      var end := RunEnd(s, if hex then HexDigits else Digits, start, if hex then start + 6 else start + 7);
      if end > start && end < |s| && s[end] == SEMICOLON then end + 1 else 0
    else
      var end := RunEnd(s, Name, 1, 33);
      if end == 1 || end >= |s| || s[end] != SEMICOLON || !lx.entity(s[1..end]) then 0 else end + 1
  }

  // Tag segments.

  /** Position, emitted bytes, and whether the last rune continues a word. */
  datatype Scan = Scan(pos: nat, value: Bytes, word: bool)

  predicate StartsWord(lx: Lexicon, s: Bytes) {
    if s == [] || EmojiLength(lx, s) > 0 then false
    else
      var d := DecodeRune(s);
      !IllFormed(d) && IsWordRune(lx, d.0) && !IsCombining(lx, d.0)
  }

  /** What a segment does with its first rune: skip some bytes, or stop with or without a first emitted rune. */
  datatype Opening = Skip(n: nat) | Stop(r: Option<Scan>)

  function OpeningAt(lx: Lexicon, s: Bytes, pos: nat): (o: Opening)
    requires pos < |s|
    ensures o.Skip? ==> 0 < o.n <= |s| - pos
    ensures o.Stop? && o.r.Some? ==>
              pos < o.r.value.pos <= |s| && o.r.value.value == s[pos..o.r.value.pos] && o.r.value.value != []
  {
    if s[pos] == AMPERSAND && ReferenceLength(lx, s[pos..]) > 0 then Stop(None)
    else
      var emoji := EmojiLength(lx, s[pos..]);
      if emoji > 0 then Stop(Some(Scan(pos + emoji, s[pos..pos + emoji], false)))
      else
        var d := DecodeRune(s[pos..]);
        if IllFormed(d) then Stop(None)
        else if IsIgnorable(lx, d.0) || (IsXidContinue(lx, d.0) && IsCombining(lx, d.0)) then Skip(d.1)
        else if IsStarter(lx, d.0) then Stop(Some(Scan(pos + d.1, s[pos..pos + d.1], IsWordRune(lx, d.0))))
        else Stop(None)
  }

  /** Skips ignorable and combining runes up to the first emitted one. */
  function SegmentStart(lx: Lexicon, s: Bytes, pos: nat): (r: Option<Scan>)
    requires pos <= |s|
    ensures r.Some? ==> pos < r.value.pos <= |s| && r.value.value != []
    decreases |s| - pos
  {
    if pos == |s| then None
    else match OpeningAt(lx, s, pos)
      case Skip(n) => SegmentStart(lx, s, pos + n)
      case Stop(r) => r
  }

  /** One more emoji, or else one more rune; None where the segment ends. */
  function Continued(lx: Lexicon, c: Scan, emoji: Bytes, d: (int, nat), rune: Bytes, wordNext: bool): Option<Scan> {
    if emoji != [] then Some(Scan(c.pos + |emoji|, c.value + emoji, false))
    else if IllFormed(d) then None
    else if IsIgnorable(lx, d.0) then Some(Scan(c.pos + |rune|, c.value, false))
    else if IsApostrophe(d.0) && c.word && wordNext then Some(Scan(c.pos + |rune|, c.value + rune, false))
    else if IsContinuation(lx, d.0) then Some(Scan(c.pos + |rune|, c.value + rune, IsWordRune(lx, d.0)))
    else None
  }

  /** The next step of a segment; a character reference ends it. */
  function SegmentStep(lx: Lexicon, s: Bytes, c: Scan): (r: Option<Scan>)
    requires c.pos <= |s|
    ensures r.Some? ==> c.pos < r.value.pos <= |s|
    ensures r.Some? ==> r.value.value == c.value || r.value.value == c.value + s[c.pos..r.value.pos]
  {
    if c.pos == |s| || (s[c.pos] == AMPERSAND && ReferenceLength(lx, s[c.pos..]) > 0) then None
    else
      var emoji, d := EmojiLength(lx, s[c.pos..]), DecodeRune(s[c.pos..]);
      var next := c.pos + d.1;
      Continued(lx, c, s[c.pos..c.pos + emoji], d, s[c.pos..next], StartsWord(lx, s[next..]))
  }

  function SegmentRest(lx: Lexicon, s: Bytes, c: Scan): (r: Scan)
    requires c.pos <= |s|
    ensures c.pos <= r.pos <= |s| && |c.value| <= |r.value|
    decreases |s| - c.pos
  {
    match SegmentStep(lx, s, c) case None => c case Some(next) => SegmentRest(lx, s, next)
  }

  /** A non-empty segment at the start of the source: how many bytes it takes and what it emits. */
  function Segment(lx: Lexicon, s: Bytes): (r: Option<(nat, Bytes)>)
    ensures r.Some? ==> 0 < r.value.0 <= |s| && r.value.1 != []
  {
    match SegmentStart(lx, s, 0)
    case None => None
    case Some(c) => var e := SegmentRest(lx, s, c); Some((e.pos, e.value))
  }

  method ScanStarter(lx: Lexicon, s: Bytes) returns (r: Option<Scan>)
    ensures r == SegmentStart(lx, s, 0)
  {
    hide OpeningAt;
    var pos := 0;
    while pos < |s|
      invariant 0 <= pos <= |s|
      invariant SegmentStart(lx, s, 0) == SegmentStart(lx, s, pos)
    {
      var o := ScanOpening(lx, s, pos);
      match o
      case Skip(n) => pos := pos + n;
      case Stop(found) => return found;
    }
    r := None;
  }

  method ScanOpening(lx: Lexicon, s: Bytes, pos: nat) returns (o: Opening)
    requires pos < |s|
    ensures o == OpeningAt(lx, s, pos)
  {
    if s[pos] == AMPERSAND && ReferenceLength(lx, s[pos..]) > 0 {
      return Stop(None);
    }
    var emoji := MatchFullyQualifiedEmoji(lx, s[pos..]);
    if emoji > 0 {
      return Stop(Some(Scan(pos + emoji, s[pos..pos + emoji], false)));
    }
    var d := DecodeRune(s[pos..]);
    if IllFormed(d) {
      return Stop(None);
    }
    if IsIgnorable(lx, d.0) || (IsXidContinue(lx, d.0) && IsCombining(lx, d.0)) {
      return Skip(d.1);
    }
    if IsStarter(lx, d.0) {
      return Stop(Some(Scan(pos + d.1, s[pos..pos + d.1], IsWordRune(lx, d.0))));
    }
    o := Stop(None);
  }

  method ScanContinuation(lx: Lexicon, s: Bytes, c: Scan) returns (r: Option<Scan>)
    requires c.pos <= |s|
    ensures r == SegmentStep(lx, s, c)
  {
    if c.pos == |s| || (s[c.pos] == AMPERSAND && ReferenceLength(lx, s[c.pos..]) > 0) {
      return None;
    }
    var emoji := MatchFullyQualifiedEmoji(lx, s[c.pos..]);
    if emoji > 0 {
      return Some(Scan(c.pos + emoji, c.value + s[c.pos..c.pos + emoji], false));
    }
    var d := DecodeRune(s[c.pos..]);
    var next := c.pos + d.1;
    if IllFormed(d) {
      return None;
    }
    if IsIgnorable(lx, d.0) {
      return Some(Scan(next, c.value, false));
    }
    if IsApostrophe(d.0) && c.word && StartsWord(lx, s[next..]) {
      return Some(Scan(next, c.value + s[c.pos..next], false));
    }
    if IsContinuation(lx, d.0) {
      return Some(Scan(next, c.value + s[c.pos..next], IsWordRune(lx, d.0)));
    }
    r := None;
  }

  method ScanTagSegment(lx: Lexicon, s: Bytes) returns (r: Option<(nat, Bytes)>)
    ensures r == Segment(lx, s)
  {
    var start := ScanStarter(lx, s);
    if start.None? {
      return None;
    }
    var c := start.value;
    var more := true;
    while more
      invariant c.pos <= |s|
      invariant SegmentRest(lx, s, start.value) == SegmentRest(lx, s, c)
      invariant !more ==> SegmentStep(lx, s, c) == None
      decreases |s| - c.pos, more
    {
      var next := ScanContinuation(lx, s, c);
      if next.Some? {
        c := next.value;
      } else {
        more := false;
      }
    }
    r := Some((c.pos, c.value));
  }

  // Identifiers: segments joined by slashes.

  /** Takes a slash and a further segment, where both are present. */
  function IdentifierStep(lx: Lexicon, s: Bytes, consumed: nat): (r: Option<(nat, Bytes)>)
    requires consumed <= |s|
    ensures r.Some? ==> consumed < r.value.0 <= |s|
  {
    if consumed < |s| && s[consumed] == SLASH then
      match Segment(lx, s[consumed + 1..])
      case None => None
      case Some((n, v)) => Some((consumed + 1 + n, v))
    else None
  }

  function IdentifierRest(lx: Lexicon, s: Bytes, consumed: nat, value: Bytes): (r: (nat, Bytes))
    requires consumed <= |s|
    ensures consumed <= r.0 <= |s| && |value| <= |r.1|
    decreases |s| - consumed
  {
    match IdentifierStep(lx, s, consumed)
    case None => (consumed, value)
    case Some((next, v)) => IdentifierRest(lx, s, next, value + [SLASH] + v)
  }

  function Identifier(lx: Lexicon, s: Bytes): (r: Option<(nat, Bytes)>)
    ensures r.Some? ==> 0 < r.value.0 <= |s| && r.value.1 != []
  {
    match Segment(lx, s)
    case None => None
    case Some(first) => Some(IdentifierRest(lx, s, first.0, first.1))
  }

  method ScanTagIdentifier(lx: Lexicon, s: Bytes) returns (r: Option<(nat, Bytes)>)
    ensures r == Identifier(lx, s)
  {
    var first := ScanTagSegment(lx, s);
    if first.None? {
      return None;
    }
    var consumed, value := first.value.0, first.value.1;
    var more := true;
    while more
      invariant consumed <= |s|
      invariant Identifier(lx, s) == Some(IdentifierRest(lx, s, consumed, value))
      invariant !more ==> IdentifierStep(lx, s, consumed) == None
      decreases |s| - consumed, more
    {
      var segment := ScanNextSegment(lx, s, consumed);
      if segment.Some? {
        value := value + [SLASH];
        value := value + segment.value.1;
        consumed := segment.value.0;
      } else {
        more := false;
      }
    }
    r := Some((consumed, value));
  }

  method ScanNextSegment(lx: Lexicon, s: Bytes, consumed: nat) returns (r: Option<(nat, Bytes)>)
    requires consumed <= |s|
    ensures r == IdentifierStep(lx, s, consumed)
  {
    if consumed >= |s| || s[consumed] != SLASH {
      return None;
    }
    var segment := ScanTagSegment(lx, s[consumed + 1..]);
    if segment.None? {
      return None;
    }
    return Some((consumed + 1 + segment.value.0, segment.value.1));
  }

  // Matches.

  datatype TagMatch = TagMatch(start: nat, end: nat, value: Bytes)

  /** Bytes at the front that cannot begin a tag: an emoji, a reference, an escape, or any other rune. */
  function SkipLength(lx: Lexicon, s: Bytes): (n: nat)
    requires s != []
    ensures n <= |s|
    ensures n == 0 ==> s[0] == HASH
  {
    if EmojiLength(lx, s) > 0 then EmojiLength(lx, s)
    else if ReferenceLength(lx, s) > 0 then ReferenceLength(lx, s)
    else if s[0] == BACKSLASH && |s| > 1 && IsPunct(s[1]) then 2
    else if s[0] != HASH then DecodeRune(s).1
    else 0
  }

  /** The step over bytes to skip, else over a `#` and the identifier behind it, if any. */
  function Stepped(pos: nat, skip: nat, id: Option<(nat, Bytes)>): (r: (nat, seq<TagMatch>))
    ensures r.0 > pos
  {
    if skip > 0 then (pos + skip, [])
    else match id
      case None => (pos + 1, [])
      case Some((consumed, value)) => (pos + consumed + 1, [TagMatch(pos, pos + consumed + 1, value)])
  }

  /** How far the scan moves at a position, and the match it finds there. */
  function MatchStep(lx: Lexicon, source: Bytes, pos: nat): (r: (nat, seq<TagMatch>))
    requires pos < |source|
    ensures pos < r.0 <= |source|
  {
    Stepped(pos, SkipLength(lx, source[pos..]), Identifier(lx, source[pos + 1..]))
  }

  function MatchesFrom(lx: Lexicon, source: Bytes, pos: nat): seq<TagMatch>
    requires pos <= |source|
    decreases |source| - pos
  {
    if pos == |source| then []
    else
      var step := MatchStep(lx, source, pos);
      step.1 + MatchesFrom(lx, source, step.0)
  }

  method ScanSkip(lx: Lexicon, s: Bytes) returns (n: nat)
    requires s != []
    ensures n == SkipLength(lx, s)
  {
    var emoji := MatchFullyQualifiedEmoji(lx, s);
    if emoji > 0 {
      return emoji;
    }
    var reference := ReferenceLength(lx, s);
    if reference > 0 {
      return reference;
    }
    if s[0] == BACKSLASH && |s| > 1 && IsPunct(s[1]) {
      return 2;
    }
    n := if s[0] != HASH then DecodeRune(s).1 else 0;
  }

  method ScanMatch(lx: Lexicon, source: Bytes, pos: nat) returns (next: nat, found: seq<TagMatch>)
    requires pos < |source|
    ensures (next, found) == MatchStep(lx, source, pos)
  {
    hide SkipLength, Identifier;
    var skip := ScanSkip(lx, source[pos..]);
    if skip > 0 {
      return pos + skip, [];
    }
    var tag := ScanTagIdentifier(lx, source[pos + 1..]);
    if tag.None? {
      return pos + 1, [];
    }
    var end := pos + tag.value.0 + 1;
    return end, [TagMatch(pos, end, tag.value.1)];
  }

  /** The matches found before `pos` and those from there on are all of them. */
  ghost predicate Completes(lx: Lexicon, source: Bytes, done: seq<TagMatch>, pos: nat, whole: seq<TagMatch>)
    requires pos <= |source|
  {
    whole == done + MatchesFrom(lx, source, pos)
  }

  lemma CompletesNext(lx: Lexicon, source: Bytes, done: seq<TagMatch>, pos: nat, whole: seq<TagMatch>)
    requires pos < |source| && Completes(lx, source, done, pos, whole)
    ensures var step := MatchStep(lx, source, pos); Completes(lx, source, done + step.1, step.0, whole)
  {
    var step := MatchStep(lx, source, pos);
    assert done + (step.1 + MatchesFrom(lx, source, step.0)) == (done + step.1) + MatchesFrom(lx, source, step.0);
  }

  method FindTagMatches(lx: Lexicon, source: Bytes) returns (matches: seq<TagMatch>)
    ensures matches == MatchesFrom(lx, source, 0)
  {
    matches := [];
    var pos := 0;
    ghost var whole := MatchesFrom(lx, source, 0);
    while pos < |source|
      invariant 0 <= pos <= |source|
      invariant Completes(lx, source, matches, pos, whole)
    {
      var next, found := ScanMatch(lx, source, pos);
      CompletesNext(lx, source, matches, pos, whole);
      matches := matches + found;
      pos := next;
    }
  }

  // What the matches are.

  /** `v` is `s` with some bytes left out. */
  predicate Subsequence(v: Bytes, s: Bytes)
    decreases |s|
  {
    v == [] || (s != [] && ((v[0] == s[0] && Subsequence(v[1..], s[1..])) || Subsequence(v, s[1..])))
  }

  lemma {:induction false} SubsequenceAppend(v: Bytes, s: Bytes, x: Bytes)
    requires Subsequence(v, s)
    ensures Subsequence(v, s + x) && Subsequence(v + x, s + x)
    decreases |s|
  {
    if s != [] {
      assert (s + x)[1..] == s[1..] + x;
      if v != [] && v[0] == s[0] && Subsequence(v[1..], s[1..]) {
        SubsequenceAppend(v[1..], s[1..], x);
        assert (v + x)[1..] == v[1..] + x;
      } else {
        if v == [] { assert Subsequence(v, s[1..]); }
        SubsequenceAppend(v, s[1..], x);
        if v + x != [] { assert Subsequence(v + x, (s + x)[1..]); }
      }
    } else {
      assert v + x == x && s + x == x;
      SubsequenceSelf(x);
    }
  }

  lemma {:induction false} SubsequenceSelf(x: Bytes)
    ensures Subsequence(x, x)
    decreases |x|
  {
    if x != [] { SubsequenceSelf(x[1..]); }
  }

  /** A subsequence of full length is the whole. */
  lemma {:induction false} SubsequenceFull(v: Bytes, s: Bytes)
    requires Subsequence(v, s)
    ensures |v| <= |s| && (|v| == |s| ==> v == s)
    decreases |s|
  {
    if v != [] {
      if v[0] == s[0] && Subsequence(v[1..], s[1..]) {
        SubsequenceFull(v[1..], s[1..]);
        assert v == [v[0]] + v[1..] && s == [s[0]] + s[1..];
      } else {
        SubsequenceFull(v, s[1..]);
      }
    }
  }

  /** `v` is what the scan keeps of `s` between two positions. */
  predicate Emits(v: Bytes, s: Bytes, from: nat, to: nat) { from <= to <= |s| && Subsequence(v, s[from..to]) }

  lemma EmitsEarlier(v: Bytes, s: Bytes, from: nat, mid: nat, to: nat)
    requires from <= mid && Emits(v, s, mid, to)
    ensures Emits(v, s, from, to)
  {
    assert s[from..to] == s[from..mid] + s[mid..to];
    SubsequencePrepend(v, s[from..mid], s[mid..to]);
  }

  lemma {:induction false} SegmentStartEmits(lx: Lexicon, s: Bytes, pos: nat)
    requires pos <= |s| && SegmentStart(lx, s, pos).Some?
    ensures Emits(SegmentStart(lx, s, pos).value.value, s, pos, SegmentStart(lx, s, pos).value.pos)
    decreases |s| - pos
  {
    hide OpeningAt;
    var c := SegmentStart(lx, s, pos).value;
    match OpeningAt(lx, s, pos)
    case Skip(n) =>
      SegmentStartEmits(lx, s, pos + n);
      EmitsEarlier(c.value, s, pos, pos + n, c.pos);
    case Stop(_) => SubsequenceSelf(c.value);
  }

  lemma {:induction false} SubsequencePrepend(v: Bytes, x: Bytes, s: Bytes)
    requires Subsequence(v, s)
    ensures Subsequence(v, x + s)
    decreases |x|
  {
    if x == [] {
      assert x + s == s;
    } else {
      SubsequencePrepend(v, x[1..], s);
      assert (x + s)[1..] == x[1..] + s;
    }
  }

  lemma {:induction false} SegmentRestEmits(lx: Lexicon, s: Bytes, c: Scan)
    requires c.pos <= |s| && Subsequence(c.value, s[..c.pos])
    ensures var r := SegmentRest(lx, s, c); Subsequence(r.value, s[..r.pos])
    decreases |s| - c.pos
  {
    if SegmentStep(lx, s, c).Some? {
      var next := SegmentStep(lx, s, c).value;
      assert s[..next.pos] == s[..c.pos] + s[c.pos..next.pos];
      SubsequenceAppend(c.value, s[..c.pos], s[c.pos..next.pos]);
      SegmentRestEmits(lx, s, next);
    }
  }

  lemma SegmentEmits(lx: Lexicon, s: Bytes)
    requires Segment(lx, s).Some?
    ensures Subsequence(Segment(lx, s).value.1, s[..Segment(lx, s).value.0])
  {
    SegmentStartEmits(lx, s, 0);
    SegmentRestEmits(lx, s, SegmentStart(lx, s, 0).value);
  }

  /** Segments are non-empty and joined by single slashes. */
  ghost predicate Hierarchical(value: Bytes) {
    exists segments: seq<Bytes> :: segments != [] && (forall x :: x in segments ==> x != []) && value == Join(segments)
  }

  function Join(segments: seq<Bytes>): Bytes
    requires segments != []
    decreases |segments|
  {
    if |segments| == 1 then segments[0]
    else Join(segments[..|segments| - 1]) + [SLASH] + segments[|segments| - 1]
  }

  lemma HierarchicalExtends(value: Bytes, v: Bytes)
    requires Hierarchical(value) && v != []
    ensures Hierarchical(value + [SLASH] + v)
  {
    var segments :| segments != [] && (forall x :: x in segments ==> x != []) && value == Join(segments);
    assert (segments + [v])[..|segments|] == segments;
    assert Join(segments + [v]) == value + [SLASH] + v;
  }

  lemma IdentifierStepEmits(lx: Lexicon, s: Bytes, consumed: nat, value: Bytes)
    requires consumed <= |s| && Subsequence(value, s[..consumed]) && IdentifierStep(lx, s, consumed).Some?
    ensures var (next, v) := IdentifierStep(lx, s, consumed).value;
      v != [] && Subsequence(value + [SLASH] + v, s[..next])
  {
    var (next, v) := IdentifierStep(lx, s, consumed).value;
    SegmentEmits(lx, s[consumed + 1..]);
    SlashJoin(value, s, consumed, v, next - consumed - 1);
  }

  lemma SlashJoin(value: Bytes, s: Bytes, consumed: nat, v: Bytes, n: nat)
    requires consumed < |s| && s[consumed] == SLASH && n <= |s| - consumed - 1
    requires Subsequence(value, s[..consumed]) && Subsequence(v, s[consumed + 1..][..n])
    ensures Subsequence(value + [SLASH] + v, s[..consumed + 1 + n])
  {
    var rest := s[consumed + 1..];
    SubsequenceAppend(value, s[..consumed], [SLASH]);
    SubsequenceJoin(value + [SLASH], s[..consumed] + [SLASH], v, rest[..n]);
    assert s[..consumed + 1 + n] == s[..consumed] + [SLASH] + rest[..n];
  }

  lemma {:induction false} IdentifierRestEmits(lx: Lexicon, s: Bytes, consumed: nat, value: Bytes)
    requires consumed <= |s| && Subsequence(value, s[..consumed]) && Hierarchical(value)
    ensures var r := IdentifierRest(lx, s, consumed, value); Subsequence(r.1, s[..r.0]) && Hierarchical(r.1)
    decreases |s| - consumed
  {
    if IdentifierStep(lx, s, consumed).Some? {
      var (next, v) := IdentifierStep(lx, s, consumed).value;
      IdentifierStepEmits(lx, s, consumed, value);
      HierarchicalExtends(value, v);
      IdentifierRestEmits(lx, s, next, value + [SLASH] + v);
    }
  }

  lemma {:induction false} SubsequenceJoin(a: Bytes, s: Bytes, b: Bytes, t: Bytes)
    requires Subsequence(a, s) && Subsequence(b, t)
    ensures Subsequence(a + b, s + t)
    decreases |s|
  {
    if s == [] {
      assert a + b == b && s + t == t;
    } else {
      assert (s + t)[1..] == s[1..] + t;
      if a != [] && a[0] == s[0] && Subsequence(a[1..], s[1..]) {
        SubsequenceJoin(a[1..], s[1..], b, t);
        assert (a + b)[1..] == a[1..] + b;
      } else {
        if a == [] { assert Subsequence(a, s[1..]); }
        SubsequenceJoin(a, s[1..], b, t);
      }
    }
  }

  lemma IdentifierEmits(lx: Lexicon, s: Bytes)
    requires Identifier(lx, s).Some?
    ensures Subsequence(Identifier(lx, s).value.1, s[..Identifier(lx, s).value.0])
    ensures Hierarchical(Identifier(lx, s).value.1)
  {
    var (n, v) := Segment(lx, s).value;
    SegmentEmits(lx, s);
    assert Join([v]) == v;
    IdentifierRestEmits(lx, s, n, v);
  }

  /** In bounds, at a `#`, with a hierarchical value spelled by the bytes after it. */
  ghost predicate GoodMatch(source: Bytes, m: TagMatch) {
    && m.start < m.end <= |source|
    && source[m.start] == HASH
    && m.value != [] && Hierarchical(m.value)
    && Subsequence(m.value, source[m.start + 1..m.end])
  }

  /** Good matches in order, disjoint, from a position on. */
  ghost predicate WellPlaced(source: Bytes, matches: seq<TagMatch>, from: nat) {
    && (forall i :: 0 <= i < |matches| ==> from <= matches[i].start && GoodMatch(source, matches[i]))
    && (forall i, j :: 0 <= i < j < |matches| ==> matches[i].end <= matches[j].start)
  }

  lemma IdentifierIsGood(source: Bytes, pos: nat, consumed: nat, value: Bytes)
    requires pos < |source| && source[pos] == HASH && consumed <= |source| - pos - 1
    requires value != [] && Hierarchical(value) && Subsequence(value, source[pos + 1..][..consumed])
    ensures GoodMatch(source, TagMatch(pos, pos + 1 + consumed, value))
  {
    assert source[pos + 1..pos + 1 + consumed] == source[pos + 1..][..consumed];
  }

  /** A step finds nothing, or one good match that it steps over. */
  ghost predicate GoodStep(source: Bytes, pos: nat, next: nat, found: seq<TagMatch>) {
    found == [] || (|found| == 1 && found[0].start == pos && found[0].end == next && GoodMatch(source, found[0]))
  }

  lemma MatchStepGood(lx: Lexicon, source: Bytes, pos: nat)
    requires pos < |source|
    ensures GoodStep(source, pos, MatchStep(lx, source, pos).0, MatchStep(lx, source, pos).1)
  {
    hide Identifier, Hierarchical, Subsequence;
    var rest := source[pos + 1..];
    if SkipLength(lx, source[pos..]) == 0 && Identifier(lx, rest).Some? {
      IdentifierEmits(lx, rest);
      IdentifierIsGood(source, pos, Identifier(lx, rest).value.0, Identifier(lx, rest).value.1);
    }
  }

  lemma WellPlacedStep(source: Bytes, pos: nat, next: nat, found: seq<TagMatch>, rest: seq<TagMatch>)
    requires pos <= next && GoodStep(source, pos, next, found) && WellPlaced(source, rest, next)
    ensures WellPlaced(source, found + rest, pos)
  {
  }

  /** Tag matches are in bounds, strictly increasing and disjoint, and each begins at `#`. */
  lemma {:induction false} MatchesWellPlaced(lx: Lexicon, source: Bytes, pos: nat)
    requires pos <= |source|
    ensures WellPlaced(source, MatchesFrom(lx, source, pos), pos)
    decreases |source| - pos
  {
    if pos < |source| {
      var (next, found) := MatchStep(lx, source, pos);
      MatchStepGood(lx, source, pos);
      MatchesWellPlaced(lx, source, next);
      WellPlacedStep(source, pos, next, found, MatchesFrom(lx, source, next));
    }
  }

}
