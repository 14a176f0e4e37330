/** Laws of the tag scanner's parts, stated on runes, bytes and the tables themselves: UTF-8 both ways, character
    references, which runes a tag takes and emits, and what is skipped between tags. */
module TagLaws {
  import opened Wrappers
  import opened TagScanner

  // UTF-8 (RFC 3629, section 3).

  predicate IsScalar(r: int) { 0 <= r <= 0x10FFFF && !(0xD800 <= r <= 0xDFFF) }

  /** The byte that carries the last six bits of `r`. */
  function LastBits(r: nat): byte { (0x80 + r % 64) as byte }

  function Encoded(r: nat): Bytes
    requires IsScalar(r)
  {
    if r < 0x80 then [r as byte]
    else if r < 0x800 then [(0xC0 + r / 64) as byte, LastBits(r)]
    else if r < 0x10000 then [(0xE0 + r / 64 / 64) as byte, LastBits(r / 64), LastBits(r)]
    else [(0xF0 + r / 64 / 64 / 64) as byte, LastBits(r / 64 / 64), LastBits(r / 64), LastBits(r)]
  }

  lemma LastBitsRead(r: nat)
    ensures Follows(LastBits(r)) && r == r / 64 * 64 + Tail6(LastBits(r))
  {
  }

  lemma BitsJoined(q: nat, b: byte)
    requires Follows(b)
    ensures (q * 64 + Tail6(b)) / 64 == q && LastBits(q * 64 + Tail6(b)) == b
  {
  }

  /** The bytes in front are the encoding. */
  predicate Begins(s: Bytes, e: Bytes) { |e| <= |s| && forall i :: 0 <= i < |e| ==> s[i] == e[i] }

  lemma ShortDecodes(r: nat, s: Bytes)
    requires r < 0x800 && Begins(s, Encoded(r))
    ensures DecodeRune(s) == (r, |Encoded(r)|)
  {
    LastBitsRead(r);
  }

  lemma ThreeDecodes(r: nat, s: Bytes)
    requires 0x800 <= r < 0x10000 && IsScalar(r) && Begins(s, Encoded(r))
    ensures DecodeRune(s) == (r, |Encoded(r)|)
  {
    LastBitsRead(r);
    LastBitsRead(r / 64);
    assert s[0] == (0xE0 + r / 64 / 64) as byte && s[1] == LastBits(r / 64) && s[2] == LastBits(r);
  }

  lemma FourDecodes(r: nat, s: Bytes)
    requires 0x10000 <= r <= 0x10FFFF && Begins(s, Encoded(r))
    ensures DecodeRune(s) == (r, |Encoded(r)|)
  {
    var q := r / 64;
    var p := q / 64;
    LastBitsRead(r);
    LastBitsRead(q);
    LastBitsRead(p);
    assert s[0] == (0xF0 + p / 64) as byte && s[1] == LastBits(p) && s[2] == LastBits(q) && s[3] == LastBits(r);
  }

  /** Reading the encoding of a rune yields the rune and its width, whatever follows. */
  lemma EncodedDecodes(r: nat, rest: Bytes)
    requires IsScalar(r)
    ensures DecodeRune(Encoded(r) + rest) == (r, |Encoded(r)|)
    ensures !IllFormed(DecodeRune(Encoded(r) + rest))
  {
    hide DecodeRune;
    assert Begins(Encoded(r) + rest, Encoded(r));
    if r < 0x800 {
      ShortDecodes(r, Encoded(r) + rest);
    } else if r < 0x10000 {
      ThreeDecodes(r, Encoded(r) + rest);
    } else {
      FourDecodes(r, Encoded(r) + rest);
    }
  }

  /** What is read is the encoding of a rune. */
  predicate ReadsEncoded(s: Bytes)
    requires s != []
  {
    var d := DecodeRune(s); IsScalar(d.0) && s[..d.1] == Encoded(d.0)
  }

  lemma ShortEncodes(s: Bytes)
    requires s != [] && DecodeRune(s).1 <= 2 && !IllFormed(DecodeRune(s))
    ensures ReadsEncoded(s)
  {
    if DecodeRune(s).1 == 2 { BitsJoined(s[0] as int - 0xC0, s[1]); }
  }

  lemma ThreeEncodes(s: Bytes)
    requires s != [] && DecodeRune(s).1 == 3
    ensures ReadsEncoded(s)
  {
    var a := s[0] as int - 0xE0;
    var b := a * 64 + Tail6(s[1]);
    BitsJoined(a, s[1]);
    BitsJoined(b, s[2]);
    assert DecodeRune(s).0 == b * 64 + Tail6(s[2]);
  }

  lemma FourEncodes(s: Bytes)
    requires s != [] && DecodeRune(s).1 == 4
    ensures ReadsEncoded(s)
  {
    var a := s[0] as int - 0xF0;
    var b := a * 64 + Tail6(s[1]);
    var c := b * 64 + Tail6(s[2]);
    BitsJoined(a, s[1]);
    BitsJoined(b, s[2]);
    BitsJoined(c, s[3]);
    assert DecodeRune(s).0 == c * 64 + Tail6(s[3]);
  }

  /** Whatever is read, unless it is ill-formed, is the encoding of that rune. */
  lemma DecodedEncodes(s: Bytes)
    requires s != [] && !IllFormed(DecodeRune(s))
    ensures var d := DecodeRune(s); IsScalar(d.0) && s[..d.1] == Encoded(d.0)
  {
    match DecodeRune(s).1
    case 3 => ThreeEncodes(s);
    case 4 => FourEncodes(s);
    case _ => if DecodeRune(s).1 <= 2 { ShortEncodes(s); }
  }

  // Character references.

  predicate Decimal(b: byte) { '0' as int <= b as int <= '9' as int }

  predicate Letter(b: byte) {
    'a' as int <= b as int <= 'z' as int || 'A' as int <= b as int <= 'Z' as int
  }

  predicate Hexadecimal(b: byte) {
    Decimal(b) || 'a' as int <= b as int <= 'f' as int || 'A' as int <= b as int <= 'F' as int
  }

  predicate Is(b: byte, c: char) { b as int == c as int }

  /** The source begins with `&#`, one to seven digits and `;`, or with `&#x`, one to six hexadecimal digits and `;`. */
  predicate Numeric(s: Bytes, n: nat) {
    && 4 <= n <= |s| && Is(s[0], '&') && Is(s[1], '#') && Is(s[n - 1], ';')
    && if Is(s[2], 'x') || Is(s[2], 'X') then 5 <= n <= 10 && forall i :: 3 <= i < n - 1 ==> Hexadecimal(s[i])
       else n <= 10 && forall i :: 2 <= i < n - 1 ==> Decimal(s[i])
  }

  /** It begins with `&`, an entity's name of at most 32 letters and digits, and `;`. */
  predicate Named(lx: Lexicon, s: Bytes, n: nat) {
    && 3 <= n <= |s| && n <= 34 && Is(s[0], '&') && Is(s[n - 1], ';') && lx.entity(s[1..n - 1])
    && forall i :: 1 <= i < n - 1 ==> Decimal(s[i]) || Letter(s[i])
  }

  lemma {:induction false} RunEndIs(s: Bytes, kind: RunKind, pos: nat, limit: nat)
    requires pos <= |s| && pos <= limit
    ensures var end := RunEnd(s, kind, pos, limit);
      && end <= limit && (forall i :: pos <= i < end ==> InRun(kind, s[i]))
      && (end < |s| && end < limit ==> !InRun(kind, s[end]))
    decreases |s| - pos
  {
    if pos < |s| && pos < limit && InRun(kind, s[pos]) { RunEndIs(s, kind, pos + 1, limit); }
  }

  /** A run that a byte of another kind ends within the limit ends there. */
  lemma RunEndAt(s: Bytes, kind: RunKind, pos: nat, limit: nat, end: nat)
    requires pos <= end < |s| && end <= limit && !InRun(kind, s[end])
    requires forall i :: pos <= i < end ==> InRun(kind, s[i])
    ensures RunEnd(s, kind, pos, limit) == end
  {
    RunEndIs(s, kind, pos, limit);
  }

  /** A reference of `n` bytes is found exactly where one of the two forms stands. */
  lemma ReferenceIff(lx: Lexicon, s: Bytes, n: nat)
    requires n > 0
    ensures ReferenceLength(lx, s) == n <==> Numeric(s, n) || Named(lx, s, n)
  {
    if |s| >= 3 && s[0] == AMPERSAND {
      if s[1] == HASH { NumericIff(lx, s, n); } else { NamedIff(lx, s, n); }
    }
  }

  lemma NumericIff(lx: Lexicon, s: Bytes, n: nat)
    requires n > 0 && |s| >= 3 && s[0] == AMPERSAND && s[1] == HASH
    ensures ReferenceLength(lx, s) == n <==> Numeric(s, n)
  {
    var hex := s[2] == 0x78 || s[2] == 0x58;
    var start, kind := if hex then 3 else 2, if hex then HexDigits else Digits;
    RunEndIs(s, kind, start, 9);
    if Numeric(s, n) { RunEndAt(s, kind, start, 9, n - 1); }
  }

  lemma NamedIff(lx: Lexicon, s: Bytes, n: nat)
    requires n > 0 && |s| >= 3 && s[0] == AMPERSAND && s[1] != HASH
    ensures ReferenceLength(lx, s) == n <==> Named(lx, s, n)
  {
    RunEndIs(s, Name, 1, 33);
    if Named(lx, s, n) { RunEndAt(s, Name, 1, 33, n - 1); }
  }

  // Segments.

  const JOINERS: set<int> := {'-' as int, '+' as int, '&' as int}
  const APOSTROPHES: set<int> := {'\'' as int, 0x2019}

  /** At a position with neither a reference nor an emoji stands a well-formed rune. */
  predicate RuneAt(lx: Lexicon, s: Bytes, pos: nat) {
    && pos < |s| && EmojiLength(lx, s[pos..]) == 0 && ReferenceLength(lx, s[pos..]) == 0
    && !IllFormed(DecodeRune(s[pos..]))
  }

  predicate Listed(ranges: seq<Range>, r: int) { exists range :: range in ranges && range.lo <= r <= range.hi }

  /** A word character: in the identifier table, and not ignorable. */
  predicate Word(lx: Lexicon, r: int) { Listed(lx.xidContinue, r) && !Listed(lx.ignorable, r) }

  /** A word character that is no combining mark, without an emoji in its place, comes first. */
  predicate WordFirst(lx: Lexicon, s: Bytes) {
    && s != [] && EmojiLength(lx, s) == 0 && !IllFormed(DecodeRune(s))
    && Word(lx, DecodeRune(s).0) && !Listed(lx.combining, DecodeRune(s).0)
  }

  lemma TablesListed(lx: Lexicon, r: int)
    ensures IsXidContinue(lx, r) <==> Listed(lx.xidContinue, r)
    ensures IsIgnorable(lx, r) <==> Listed(lx.ignorable, r)
    ensures IsCombining(lx, r) <==> Listed(lx.combining, r)
  {
    RangesListed(lx.xidContinue, r);
    RangesListed(lx.ignorable, r);
    RangesListed(lx.combining, r);
  }

  lemma RangesListed(ranges: seq<Range>, r: int)
    ensures InRanges(ranges, r) <==> Listed(ranges, r)
  {
    if i :| 0 <= i < |ranges| && ranges[i].lo <= r <= ranges[i].hi { assert ranges[i] in ranges; }
  }

  /** A segment begins at the first rune that is neither ignorable nor a combining mark; that rune is a joiner or a word
      character, and is emitted. */
  lemma OpeningIs(lx: Lexicon, s: Bytes, pos: nat)
    requires RuneAt(lx, s, pos)
    ensures var r, n := DecodeRune(s[pos..]).0, DecodeRune(s[pos..]).1;
      OpeningAt(lx, s, pos) ==
        if Listed(lx.ignorable, r) || (Listed(lx.xidContinue, r) && Listed(lx.combining, r)) then Skip(n)
        else if r in JOINERS || Word(lx, r) then Stop(Some(Scan(pos + n, s[pos..pos + n], Word(lx, r))))
        else Stop(None)
  {
    TablesListed(lx, DecodeRune(s[pos..]).0);
  }

  /** An apostrophe joins two words. */
  predicate Joins(lx: Lexicon, s: Bytes, c: Scan)
    requires c.pos < |s|
  {
    var d := DecodeRune(s[c.pos..]);
    d.0 in APOSTROPHES && c.word && WordFirst(lx, s[c.pos + d.1..])
  }

  /** A segment takes joiners, word characters, apostrophes between words, and the ignorable runes, which alone it does
      not emit; it ends at any other rune. */
  lemma ContinuationIs(lx: Lexicon, s: Bytes, c: Scan)
    requires RuneAt(lx, s, c.pos)
    ensures var r, n := DecodeRune(s[c.pos..]).0, DecodeRune(s[c.pos..]).1;
      var step := SegmentStep(lx, s, c);
      && (step.Some? <==>
            Listed(lx.ignorable, r) || Listed(lx.xidContinue, r) || r in JOINERS || Joins(lx, s, c))
      && (step.Some? ==>
            && step.value.pos == c.pos + n
            && step.value.value == c.value + (if Listed(lx.ignorable, r) then [] else s[c.pos..c.pos + n])
            && (step.value.word <==> Word(lx, r) && !Joins(lx, s, c)))
  {
    var d := DecodeRune(s[c.pos..]);
    TablesListed(lx, d.0);
    WordFirstIff(lx, s[c.pos + d.1..]);
  }

  lemma WordFirstIff(lx: Lexicon, s: Bytes)
    ensures StartsWord(lx, s) <==> WordFirst(lx, s)
  {
    TablesListed(lx, DecodeRune(s).0);
  }

  /** An emoji of the table is taken and emitted whole; a reference, or a byte that is no UTF-8, is not taken. */
  lemma OtherBytesAre(lx: Lexicon, s: Bytes, c: Scan)
    requires c.pos < |s|
    ensures var n, reference := EmojiLength(lx, s[c.pos..]), ReferenceLength(lx, s[c.pos..]) > 0;
      && (reference ==> SegmentStep(lx, s, c) == None && OpeningAt(lx, s, c.pos) == Stop(None))
      && (!reference && n > 0 ==>
            && SegmentStep(lx, s, c) == Some(Scan(c.pos + n, c.value + s[c.pos..c.pos + n], false))
            && OpeningAt(lx, s, c.pos) == Stop(Some(Scan(c.pos + n, s[c.pos..c.pos + n], false))))
      && (!reference && n == 0 && IllFormed(DecodeRune(s[c.pos..])) ==>
            SegmentStep(lx, s, c) == None && OpeningAt(lx, s, c.pos) == Stop(None))
  {
  }

  // Between tags.

  /** Punctuation is the printable ASCII that is neither letter nor digit. */
  lemma PunctuationIs(b: byte)
    ensures IsPunct(b) <==> '!' as int <= b as int <= '~' as int && !Letter(b) && !Decimal(b)
  {
  }

  predicate Escaped(s: Bytes) {
    && |s| > 1 && Is(s[0], '\\')
    && '!' as int <= s[1] as int <= '~' as int && !Letter(s[1]) && !Decimal(s[1])
  }

  /** A tag may begin only at a `#` that begins no emoji; an escape is passed over with the byte it escapes. */
  lemma SkippedIs(lx: Lexicon, s: Bytes)
    requires s != []
    ensures var emoji, reference := EmojiLength(lx, s), ReferenceLength(lx, s);
      && (SkipLength(lx, s) == 0 <==> Is(s[0], '#') && emoji == 0)
      && (emoji > 0 ==> SkipLength(lx, s) == emoji)
      && (emoji == 0 && reference > 0 ==> SkipLength(lx, s) == reference)
      && (emoji == 0 && Escaped(s) ==> SkipLength(lx, s) == 2)
      && (emoji == 0 && reference == 0 && !Escaped(s) && !Is(s[0], '#') ==> SkipLength(lx, s) == DecodeRune(s).1)
  {
  }

  /** A `#` behind a backslash begins no tag. */
  lemma EscapedHashIsNoTag(lx: Lexicon, rest: Bytes)
    requires EmojiLength(lx, [BACKSLASH, HASH] + rest) == 0
    ensures var s := [BACKSLASH, HASH] + rest; MatchesFrom(lx, s, 0) == MatchesFrom(lx, s, 2)
  {
    var s := [BACKSLASH, HASH] + rest;
    assert s[0..] == s;
    assert SkipLength(lx, s) == 2 by { SkippedIs(lx, s); }
  }
}
