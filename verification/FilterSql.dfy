/** The SQL fragments the renderer emits, with their placeholders, and how a database evaluates them. */
module FilterSql {
  import opened Wrappers
  import opened Like
  import opened FilterIr

  /** `$n`, or the anonymous `?` that binds by its position in the text. A `?` remembers which argument it was written
      for; the database never sees that. */
  datatype Hole = Dollar(n: nat) | Question(n: nat)

  /** The placeholder written for the n-th argument. */
  function Mark(d: Dialect, n: nat): Hole {
    if d == Postgres then Dollar(n) else Question(n)
  }

  /** The argument a placeholder reads; `pos` counts the placeholders written before it. */
  function Read(h: Hole, args: seq<Value>, pos: nat): Value {
    match h
    case Dollar(n) => if 1 <= n <= |args| then args[n - 1] else Null
    case Question(_) => if pos < |args| then args[pos] else Null
  }

  /** A predicate on one element of a JSON list. */
  datatype Elem =
    | AnyElement                            // 1 = 1
    | SameText(h: Hole)
    | InstrIsOne(h: Hole)                   // instr(value, h) = 1
    | InstrPositive(h: Hole)                // instr(value, h) > 0
    | TailIs(length: Hole, h: Hole)         // substr(value, -length(h1)) = h2
    | LikeBang(h: Hole)                     // value LIKE h ESCAPE '!'
    | NotElement(e: Elem)

  datatype Term =
    | Column(f: string)
    | TextLength(f: string)
    | ListLength(f: string)
    | DatePart(f: string, accessor: Accessor, minus: int)
    | FlagTerm(f: string, orFalse: bool)    // COALESCE(flag, false) when orFalse
    | PathTerm(f: string)
    | RowCount(list: string, elem: Elem)    // SELECT COUNT(*) over the list elements

  datatype Operand = Param(h: Hole) | Const(i: int)

  datatype Sql =
    | Blank                                 // the empty statement
    | Never                                 // 1 = 0
    | And(l: Sql, r: Sql)
    | Or(l: Sql, r: Sql)
    | Negate(e: Sql)
    | Comparing(lhs: Term, op: CompareOp, rhs: Operand)
    | IsTrue(t: Term)
    | IsNull(t: Term)
    | NotNull(t: Term)
    | TypeNotNull(f: string)                // COALESCE(JSON_TYPE(path), 'NULL') != 'NULL'
    | InList(t: Term, holes: seq<Hole>)
    | FoldedLike(t: Term, pattern: Hole)    // escape character: backslash
    | Regexp(t: Term, pattern: Hole)
    | ExistsRow(list: string, elem: Elem)
    | NoRow(list: string, elem: Elem)

  function ElemHoles(e: Elem): nat {
    match e
    case AnyElement => 0
    case TailIs(_, _) => 2
    case NotElement(x) => ElemHoles(x)
    case _ => 1
  }

  function TermHoles(t: Term): nat {
    match t case RowCount(_, e) => ElemHoles(e) case _ => 0
  }

  /** Number of placeholders in the text. */
  function HoleCount(e: Sql): nat {
    match e
    case And(l, r) => HoleCount(l) + HoleCount(r)
    case Or(l, r) => HoleCount(l) + HoleCount(r)
    case Negate(x) => HoleCount(x)
    case Comparing(t, _, rhs) => TermHoles(t) + (if rhs.Param? then 1 else 0)
    case InList(_, hs) => |hs|
    case FoldedLike(_, _) => 1
    case Regexp(_, _) => 1
    case ExistsRow(_, x) => ElemHoles(x)
    case NoRow(_, x) => ElemHoles(x)
    case _ => 0
  }

  // The placeholders themselves, in the order of the text.

  function ElemMarks(e: Elem): (r: seq<Hole>)
    ensures |r| == ElemHoles(e)
  {
    match e
    case AnyElement => []
    case SameText(h) => [h]
    case InstrIsOne(h) => [h]
    case InstrPositive(h) => [h]
    case TailIs(n, h) => [n, h]
    case LikeBang(h) => [h]
    case NotElement(x) => ElemMarks(x)
  }

  function TermMarks(t: Term): (r: seq<Hole>)
    ensures |r| == TermHoles(t)
  {
    match t case RowCount(_, e) => ElemMarks(e) case _ => []
  }

  function Holes(e: Sql): (r: seq<Hole>)
    ensures |r| == HoleCount(e)
  {
    match e
    case And(l, r) => Holes(l) + Holes(r)
    case Or(l, r) => Holes(l) + Holes(r)
    case Negate(x) => Holes(x)
    case Comparing(t, _, rhs) => TermMarks(t) + (match rhs case Param(h) => [h] case Const(_) => [])
    case InList(_, hs) => hs
    case FoldedLike(_, h) => [h]
    case Regexp(_, h) => [h]
    case ExistsRow(_, x) => ElemMarks(x)
    case NoRow(_, x) => ElemMarks(x)
    case _ => []
  }

  /** Whether an `IN ()` with nothing listed occurs anywhere. */
  predicate HasEmptyIn(e: Sql) {
    match e
    case And(l, r) => HasEmptyIn(l) || HasEmptyIn(r)
    case Or(l, r) => HasEmptyIn(l) || HasEmptyIn(r)
    case Negate(x) => HasEmptyIn(x)
    case InList(_, hs) => hs == []
    case _ => false
  }

  /** Whether the empty text occurs anywhere in the statement. */
  predicate HasBlank(e: Sql) {
    match e
    case Blank => true
    case And(l, r) => HasBlank(l) || HasBlank(r)
    case Or(l, r) => HasBlank(l) || HasBlank(r)
    case Negate(x) => HasBlank(x)
    case _ => false
  }

  // Built-in SQL functions on text.

  /** One-based position of the first occurrence, or 0. */
  function Instr(text: string, value: string): nat {
    if value <= text then 1
    else if text == "" then 0
    else
      var k := Instr(text[1..], value);
      if k == 0 then 0 else k + 1
  }

  /** `substr(text, -n)`: the last n characters, or the whole text when it is shorter. */
  function Tail(text: string, n: nat): string {
    if n >= |text| then text else text[|text| - n..]
  }

  function AsText(v: Value): string { if v.Str? then v.s else "" }

  /** Whether the database takes the statement at all: MySQL and Postgres refuse an empty `IN ()`. MySQL prepares the
      statement and refuses any number of arguments but that of its placeholders; Postgres refuses an argument it finds
      no `$n` for; SQLite takes arguments too many. The statement has the `n` arguments after `offset`. */
  predicate Accepts(d: Dialect, offset: nat, n: nat, e: Sql) {
    && (d != SQLite ==> !HasEmptyIn(e))
    && (d == MySQL ==> HoleCount(e) == n)
    && (d == Postgres ==> forall m :: offset < m <= offset + n ==> Dollar(m) in Holes(e))
  }

  // Evaluation.

  predicate ElemHolds(e: Elem, tag: string, args: seq<Value>, pos: nat) {
    match e
    case AnyElement => true
    case SameText(h) => tag == AsText(Read(h, args, pos))
    case InstrIsOne(h) => Instr(tag, AsText(Read(h, args, pos))) == 1
    case InstrPositive(h) => Instr(tag, AsText(Read(h, args, pos))) > 0
    case TailIs(n, h) => Tail(tag, |AsText(Read(n, args, pos))|) == AsText(Read(h, args, pos + 1))
    case LikeBang(h) => Matches(tag, AsText(Read(h, args, pos)), BANG)
    case NotElement(x) => !ElemHolds(x, tag, args, pos)
  }

  function CountRows(tags: seq<string>, e: Elem, args: seq<Value>, pos: nat): nat {
    if tags == [] then 0
    else (if ElemHolds(e, tags[0], args, pos) then 1 else 0) + CountRows(tags[1..], e, args, pos)
  }

  predicate AnyRow(tags: seq<string>, e: Elem, args: seq<Value>, pos: nat) {
    exists tag :: tag in tags && ElemHolds(e, tag, args, pos)
  }

  /** The date part as the dialect numbers it: MySQL's DAYOFWEEK starts at 1. */
  function RawPart(d: Dialect, accessor: Accessor, c: Clock): int {
    match accessor
    case GetFullYear => c.year
    case GetMonth => c.month
    case GetDate => c.day
    case GetDayOfMonth => c.day
    case GetDayOfWeek => if d == MySQL then c.weekday + 1 else c.weekday
    case GetDayOfYear => c.yearDay
    case GetHours => c.hour
    case GetMinutes => c.minute
    case GetSeconds => c.second
  }

  /** The value at a JSON path: a JSON null is SQL's NULL, but on MySQL a literal of its own. */
  function Extracted(d: Dialect, p: PathState): Value {
    match p
    case Absent => Null
    case ExplicitNull => if d == MySQL then Str("null") else Null
    case Present => Str("{}")
  }

  function TermValue(d: Dialect, row: Row, t: Term, args: seq<Value>, pos: nat): Value {
    match t
    case Column(f) => row.Scalar(f)
    case TextLength(f) => LengthOf(row.Scalar(f))
    case ListLength(f) => Int(|row.List(f)|)
    case DatePart(f, accessor, minus) =>
      (match row.Clock(f) case None => Null case Some(c) => Int(RawPart(d, accessor, c) - minus))
    case FlagTerm(f, orFalse) =>
      var v := FlagValue(d, row.Flag(f));
      if orFalse && v == Null then Int(0) else v
    case PathTerm(f) => Extracted(d, row.Path(f))
    case RowCount(list, e) => Int(CountRows(row.List(list), e, args, pos))
  }

  function OperandValue(o: Operand, args: seq<Value>, pos: nat): Value {
    match o case Param(h) => Read(h, args, pos) case Const(i) => Int(i)
  }

  /** MySQL's JSON_TYPE, which the other databases do not have in this form: SQL NULL for a missing key, the text 'NULL'
      for a JSON null. */
  function JsonType(p: PathState): Value {
    match p case Absent => Null case ExplicitNull => Str("NULL") case Present => Str("OBJECT")
  }

  function MemberOfHoles(v: Value, holes: seq<Hole>, args: seq<Value>, pos: nat): Tri
    decreases |holes|
  {
    if holes == [] then F
    else Or3(Compare(Eq, v, Read(holes[0], args, pos)), MemberOfHoles(v, holes[1..], args, pos + 1))
  }

  function LikeFolded(w: World, v: Value, pattern: Value): Tri {
    if v.Str? && pattern.Str? then Tri2(Matches(FoldAll(w.fold, v.s), FoldAll(w.fold, pattern.s), BACKSLASH)) else U
  }

  /** The value of a statement whose placeholders start at `pos`. The empty statement filters nothing. */
  function Eval(d: Dialect, w: World, row: Row, e: Sql, args: seq<Value>, pos: nat): Tri {
    match e
    case Blank => T
    case Never => F
    case And(l, r) => And3(Eval(d, w, row, l, args, pos), Eval(d, w, row, r, args, pos + HoleCount(l)))
    case Or(l, r) => Or3(Eval(d, w, row, l, args, pos), Eval(d, w, row, r, args, pos + HoleCount(l)))
    case Negate(x) => Not3(Eval(d, w, row, x, args, pos))
    case Comparing(t, op, rhs) =>
      Compare(op, TermValue(d, row, t, args, pos), OperandValue(rhs, args, pos + TermHoles(t)))
    case IsTrue(t) => Tri2(IsTrueValue(TermValue(d, row, t, args, pos)))
    case IsNull(t) => Tri2(TermValue(d, row, t, args, pos) == Null)
    case NotNull(t) => Tri2(TermValue(d, row, t, args, pos) != Null)
    case TypeNotNull(f) =>
      var v := JsonType(row.Path(f));
      if d != MySQL then U else Compare(Neq, if v == Null then Str("NULL") else v, Str("NULL"))
    case InList(t, holes) => MemberOfHoles(TermValue(d, row, t, args, pos), holes, args, pos)
    case FoldedLike(t, h) => LikeFolded(w, TermValue(d, row, t, args, pos), Read(h, args, pos))
    case Regexp(t, h) =>
      var pattern := Read(h, args, pos);
      if pattern.Str? then RegexMatch(w.regex, TermValue(d, row, t, args, pos), pattern.s) else U
    case ExistsRow(list, x) => Tri2(AnyRow(row.List(list), x, args, pos))
    case NoRow(list, x) => Tri2(!AnyRow(row.List(list), x, args, pos))
  }

  /** What the database answers on a row, if it takes the statement. */
  function Answer(d: Dialect, w: World, row: Row, offset: nat, n: nat, e: Sql, args: seq<Value>,
                  pos: nat): Option<Tri> {
    if Accepts(d, offset, n, e) then Some(Eval(d, w, row, e, args, pos)) else None
  }

  /** The placeholder at position `p` reads the argument it was written for, one of those after `base`. */
  predicate OwnRead(base: nat, own: seq<Value>, h: Hole, full: seq<Value>, p: nat) {
    base < h.n <= base + |own| && Read(h, full, p) == own[h.n - base - 1]
  }

  /** So do all of a list of placeholders, the first of them at position `pos`. */
  ghost predicate ReadsOwn(base: nat, own: seq<Value>, hs: seq<Hole>, full: seq<Value>, pos: nat) {
    forall j: nat :: j < |hs| ==> OwnRead(base, own, hs[j], full, pos + j)
  }

  /** The placeholder of the k-th own argument, written at position `pos + k`, reads it. */
  predicate ReadsAt(d: Dialect, base: nat, own: seq<Value>, full: seq<Value>, pos: nat, k: nat)
    requires k < |own|
  {
    Read(Mark(d, base + k + 1), full, pos + k) == own[k]
  }

  /** So do all placeholders written from `pos` on for the arguments after `base`. */
  ghost predicate Bound(d: Dialect, base: nat, own: seq<Value>, full: seq<Value>, pos: nat) {
    forall k: nat :: k < |own| ==> ReadsAt(d, base, own, full, pos, k)
  }

  lemma ReadMark(d: Dialect, base: nat, own: seq<Value>, full: seq<Value>, pos: nat, k: nat)
    requires Bound(d, base, own, full, pos) && k < |own|
    ensures Read(Mark(d, base + k + 1), full, pos + k) == own[k]
  {
    assert ReadsAt(d, base, own, full, pos, k);
  }

  lemma BoundSplit(d: Dialect, base: nat, own1: seq<Value>, own2: seq<Value>, full: seq<Value>, pos: nat)
    requires Bound(d, base, own1 + own2, full, pos)
    ensures Bound(d, base, own1, full, pos)
    ensures Bound(d, base + |own1|, own2, full, pos + |own1|)
  {
    var own, next, at := own1 + own2, base + |own1|, pos + |own1|;
    forall k: nat | k < |own1|
      ensures ReadsAt(d, base, own1, full, pos, k)
    {
      assert ReadsAt(d, base, own, full, pos, k);
    }
    forall k: nat | k < |own2|
      ensures ReadsAt(d, next, own2, full, at, k)
    {
      assert ReadsAt(d, base, own, full, pos, |own1| + k);
    }
  }

  // Tag predicates, dialect by dialect.

  lemma {:induction false} InstrFindsOccurrence(text: string, value: string)
    ensures Instr(text, value) == 1 <==> StartsWith(text, value)
    ensures Instr(text, value) > 0 <==> Occurs(text, value)
  {
    if value <= text {
      assert text[0..] == text;
    } else if text == "" {
      assert text[0..] == text;
    } else {
      InstrFindsOccurrence(text[1..], value);
      if k :| 0 <= k <= |text[1..]| && StartsWith(text[1..][k..], value) {
        assert text[1..][k..] == text[k + 1..];
      }
      if k :| 0 <= k <= |text| && StartsWith(text[k..], value) {
        assert k > 0 by { assert text[0..] == text; }
        assert text[1..][k - 1..] == text[k..];
      }
    }
  }

  /** The element predicate and the arguments it adds. */
  function ElementFor(d: Dialect, pred: TagPredicate, base: nat): (r: (Elem, seq<Value>)) {
    match pred
    case Equals(v) => (SameText(Mark(d, base + 1)), [Str(v)])
    case TextMatchOf(mode, v) =>
      if v == "" then (AnyElement, [])
      else if d == SQLite then
        match mode
        case Prefix => (InstrIsOne(Mark(d, base + 1)), [Str(v)])
        case Suffix => (TailIs(Mark(d, base + 1), Mark(d, base + 2)), [Str(v), Str(v)])
        case Contains => (InstrPositive(Mark(d, base + 1)), [Str(v)])
      else (LikeBang(Mark(d, base + 1)), [Str(Pattern(mode, v, BANG))])
  }

  lemma InstrHolds(h: Hole, v: string, full: seq<Value>, pos: nat, tag: string)
    requires Read(h, full, pos) == Str(v)
    ensures ElemHolds(InstrIsOne(h), tag, full, pos) <==> StartsWith(tag, v)
    ensures ElemHolds(InstrPositive(h), tag, full, pos) <==> Occurs(tag, v)
  {
    InstrFindsOccurrence(tag, v);
  }

  lemma TailHolds(n: Hole, h: Hole, v: string, full: seq<Value>, pos: nat, tag: string)
    requires Read(n, full, pos) == Str(v) && Read(h, full, pos + 1) == Str(v)
    ensures ElemHolds(TailIs(n, h), tag, full, pos) <==> EndsWith(tag, v)
  {
  }

  /** SQLite's `instr` and `substr` forms are the prefix, suffix and substring tests. */
  lemma InstrFormsCorrect(mode: TextMatchMode, v: string, base: nat, full: seq<Value>, pos: nat, tag: string)
    requires v != "" && Bound(SQLite, base, ElementFor(SQLite, TextMatchOf(mode, v), base).1, full, pos)
    ensures ElemHolds(ElementFor(SQLite, TextMatchOf(mode, v), base).0, tag, full, pos) <==> TextMatches(mode, tag, v)
  {
    var m := Mark(SQLite, base + 1);
    match mode
    case Prefix =>
      ReadMark(SQLite, base, [Str(v)], full, pos, 0);
      InstrHolds(m, v, full, pos, tag);
    case Suffix =>
      ReadMark(SQLite, base, [Str(v), Str(v)], full, pos, 0);
      ReadMark(SQLite, base, [Str(v), Str(v)], full, pos, 1);
      TailHolds(m, Mark(SQLite, base + 2), v, full, pos, tag);
    case Contains =>
      ReadMark(SQLite, base, [Str(v)], full, pos, 0);
      InstrHolds(m, v, full, pos, tag);
  }

  /** The LIKE form with `!` as its escape is too. */
  lemma LikeFormCorrect(d: Dialect, mode: TextMatchMode, v: string, base: nat, full: seq<Value>, pos: nat, tag: string)
    requires d != SQLite && v != "" && Bound(d, base, ElementFor(d, TextMatchOf(mode, v), base).1, full, pos)
    ensures ElemHolds(ElementFor(d, TextMatchOf(mode, v), base).0, tag, full, pos) <==> TextMatches(mode, tag, v)
  {
    ReadMark(d, base, [Str(Pattern(mode, v, BANG))], full, pos, 0);
    LikePatternIsTextMatch(mode, tag, v, BANG);
  }

  lemma EmptyAlwaysMatches(mode: TextMatchMode, tag: string)
    ensures TextMatches(mode, tag, "")
  {
    assert tag[0..] == tag;
    if mode == Contains { assert StartsWith(tag[0..], ""); }
  }

  /** On every dialect the element predicate holds of exactly the tags the filter means. */
  lemma ElementCorrect(d: Dialect, pred: TagPredicate, base: nat, full: seq<Value>, pos: nat, tag: string)
    requires Bound(d, base, ElementFor(d, pred, base).1, full, pos)
    ensures ElemHolds(ElementFor(d, pred, base).0, tag, full, pos) <==> TagMatches(pred, tag)
  {
    match pred
    case Equals(v) =>
      ReadMark(d, base, [Str(v)], full, pos, 0);
    case TextMatchOf(mode, v) =>
      if v == "" {
        EmptyAlwaysMatches(mode, tag);
      } else if d == SQLite {
        InstrFormsCorrect(mode, v, base, full, pos, tag);
      } else {
        LikeFormCorrect(d, mode, v, base, full, pos, tag);
      }
  }

  /** The placeholders of the n arguments after `base`. */
  function Marks(d: Dialect, base: nat, n: nat): (r: seq<Hole>)
    ensures |r| == n && forall i :: 0 <= i < n ==> r[i] == Mark(d, base + 1 + i)
  {
    seq(n, i requires 0 <= i < n => Mark(d, base + 1 + i))
  }

  /** The element predicate writes one placeholder per argument, in order. */
  lemma ElementHoles(d: Dialect, pred: TagPredicate, base: nat)
    ensures ElemMarks(ElementFor(d, pred, base).0) == Marks(d, base, |ElementFor(d, pred, base).1|)
  {
  }

  lemma {:induction false} CountsCorrect(d: Dialect, pred: TagPredicate, base: nat, full: seq<Value>, pos: nat,
                                         tags: seq<string>)
    requires Bound(d, base, ElementFor(d, pred, base).1, full, pos)
    ensures CountRows(tags, ElementFor(d, pred, base).0, full, pos) == CountMatching(tags, pred)
  {
    if tags != [] {
      ElementCorrect(d, pred, base, full, pos, tags[0]);
      CountsCorrect(d, pred, base, full, pos, tags[1..]);
    }
  }

  /** Counting rows agrees with EXISTS, for any element predicate. */
  lemma {:induction false} CountAgreesWithExists(tags: seq<string>, e: Elem, args: seq<Value>, pos: nat)
    ensures CountRows(tags, e, args, pos) > 0 <==> AnyRow(tags, e, args, pos)
  {
    if tags != [] {
      CountAgreesWithExists(tags[1..], e, args, pos);
      if ElemHolds(e, tags[0], args, pos) {
        assert AnyRow(tags, e, args, pos);
      } else if AnyRow(tags, e, args, pos) {
        var tag :| tag in tags && ElemHolds(e, tag, args, pos);
        assert tag in tags[1..];
      }
    }
  }

  /** `exists`, `all` and `exists_one` over a list field: MySQL counts where the others ask EXISTS. */
  function ComprehensionSql(d: Dialect, kind: ComprehensionKind, list: string, elem: Elem): Sql {
    match kind
    case Exists =>
      if d == MySQL then Comparing(RowCount(list, elem), Gt, Const(0)) else ExistsRow(list, elem)
    case All =>
      And(Comparing(ListLength(list), Gt, Const(0)),
          if d == MySQL then Comparing(RowCount(list, NotElement(elem)), Eq, Const(0))
          else NoRow(list, NotElement(elem)))
    case ExistsOne =>
      Comparing(RowCount(list, elem), Eq, Const(1))
  }

  /** Every dialect's encoding of a comprehension denotes the comprehension, on every row. */
  lemma ComprehensionCorrect(d: Dialect, w: World, row: Row, kind: ComprehensionKind, list: string,
                             pred: TagPredicate, base: nat, full: seq<Value>, pos: nat)
    requires Bound(d, base, ElementFor(d, pred, base).1, full, pos)
    ensures Eval(d, w, row, ComprehensionSql(d, kind, list, ElementFor(d, pred, base).0), full, pos)
         == Tri2(Comprehends(kind, row.List(list), pred))
  {
    var elem, tags := ElementFor(d, pred, base).0, row.List(list);
    match kind
    case Exists =>
      RowsAreMatches(d, pred, base, full, pos, tags);
      ExistsForms(d, w, row, list, elem, full, pos);
    case All =>
      RowsAreMatches(d, pred, base, full, pos, tags);
      AllForms(d, w, row, list, elem, full, pos);
    case ExistsOne => CountsCorrect(d, pred, base, full, pos, tags);
  }

  lemma ExistsForms(d: Dialect, w: World, row: Row, list: string, elem: Elem, full: seq<Value>, pos: nat)
    ensures Eval(d, w, row, ComprehensionSql(d, Exists, list, elem), full, pos)
         == Tri2(AnyRow(row.List(list), elem, full, pos))
  {
    CountAgreesWithExists(row.List(list), elem, full, pos);
  }

  lemma AllForms(d: Dialect, w: World, row: Row, list: string, elem: Elem, full: seq<Value>, pos: nat)
    ensures Eval(d, w, row, ComprehensionSql(d, All, list, elem), full, pos)
         == Tri2(row.List(list) != [] && !AnyRow(row.List(list), NotElement(elem), full, pos))
  {
    CountAgreesWithExists(row.List(list), NotElement(elem), full, pos);
  }

  /** So does a comprehension. */
  lemma ComprehensionHoles(d: Dialect, kind: ComprehensionKind, list: string, pred: TagPredicate, base: nat)
    ensures Holes(ComprehensionSql(d, kind, list, ElementFor(d, pred, base).0))
         == Marks(d, base, |ElementFor(d, pred, base).1|)
  {
    ElementHoles(d, pred, base);
  }

  lemma RowsAreMatches(d: Dialect, pred: TagPredicate, base: nat, full: seq<Value>, pos: nat, tags: seq<string>)
    requires Bound(d, base, ElementFor(d, pred, base).1, full, pos)
    ensures AnyRow(tags, ElementFor(d, pred, base).0, full, pos) <==> Comprehends(Exists, tags, pred)
    ensures tags != [] && !AnyRow(tags, NotElement(ElementFor(d, pred, base).0), full, pos)
       <==> Comprehends(All, tags, pred)
  {
    var elem := ElementFor(d, pred, base).0;
    forall tag
      ensures ElemHolds(elem, tag, full, pos) <==> TagMatches(pred, tag)
      ensures ElemHolds(NotElement(elem), tag, full, pos) <==> !TagMatches(pred, tag)
    {
      ElementCorrect(d, pred, base, full, pos, tag);
    }
  }
}
