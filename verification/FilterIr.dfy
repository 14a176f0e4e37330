/** The filter's condition tree and what it means on one row, in three-valued logic. */
module FilterIr {
  import opened Wrappers
  import opened Like

  datatype Error =
    | AccessorNeedsTimestamp | ArithmeticRequiresTwoArguments | BooleanLiteralRequired | CannotConvertToInt64
    | ComparisonExpectsTwoArguments | ComparisonNeedsField | DivisionByZero | DurationExpectsOneArgument
    | DurationNeedsString | DurationOnlySupportsLiteralArguments | ExpressionMustBeALiteral
    | FieldCannotBeUsedAsAPredicate | FieldDoesNotSupportComparison | FieldDoesNotSupportComprehension
    | FieldDoesNotSupportIN | FieldDoesNotSupportINComparisons | FieldExpectsStringValue | FieldIsNotAJSONList
    | FieldIsNotATagList | FilterNotBoolean | IdentifierDoesNotSupportTextMatching | IdentifierIsNotBoolean
    | InNeedsField | InOperatorExpectsTwoArguments | InvalidAlias | InvalidDurationLiteral
    | InvalidTimestampLiteral | InvalidUseOfInOperator | LogicalANDExpectsTwoArguments
    | LogicalNOTExpectsOneArgument | LogicalORExpectsTwoArguments | ModuloByZero | NotNeedsOneArgument
    | OperatorNotAllowedForField | OperatorNotSupported | OperatorNotSupportedForBooleanJSONField
    | OperatorNotSupportedForNullComparison | RangeNeedsField | SetNeedsFieldFirst | SetNeedsListField
    | SetNeedsListLiteral | SetNeedsStrings | SetOperationExpectsTwoArguments | SizeArgumentMustBeAField
    | SizeDoesNotSupportField | SizeExpectsOneArgument | TagAttributeIsNotConfigured
    | TagsMembershipRequiresStringLiteral | TagsMustBeComparedWithStringLiterals
    | TextMatchArgumentMustBeAStringLiteral | TextMatchExpectsExactlyOneArgument | TextMatchRequiresATarget
    | TimestampAccessorRequiresAFieldTarget | TimestampExpectsOneArgument | TimestampNeedsStringOrInt
    | TimestampOnlySupportsLiteralArguments | TimezoneNotSupported | UnknownField | UnknownFieldInComprehension
    | UnknownIdentifier | UnsupportedCallExpression | UnsupportedConstantComparison | UnsupportedDataType
    | UnsupportedTopLevelExpression | UnsupportedValueExpression

  type Result<+T> = Attempt<T, Error>

  /** What is collected so far, followed by the rest, is the whole. */
  ghost predicate Finishes<T>(whole: Result<seq<T>>, done: seq<T>, rest: Result<seq<T>>) {
    match rest
    case Ok(more) => whole.Ok? && whole.value == done + more
    case Err(e) => whole == Err(e)
  }

  // Three-valued logic (Kleene): U is SQL's NULL.

  datatype Tri = T | F | U

  function Tri2(b: bool): Tri { if b then T else F }

  function And3(a: Tri, b: Tri): Tri {
    if a == F || b == F then F else if a == T && b == T then T else U
  }

  function Or3(a: Tri, b: Tri): Tri {
    if a == T || b == T then T else if a == F && b == F then F else U
  }

  function Not3(a: Tri): Tri {
    match a case T => F case F => T case U => U
  }

  // Values and comparison.

  datatype Value = Str(s: string) | Int(i: int) | Real(r: real) | Bool(b: bool) | Null

  datatype CompareOp = Eq | Neq | Lt | Lte | Gt | Gte

  function Mirror(op: CompareOp): CompareOp {
    match op
    case Lt => Gt
    case Lte => Gte
    case Gt => Lt
    case Gte => Lte
    case Eq => Eq
    case Neq => Neq
  }

  predicate CompareReals(op: CompareOp, a: real, b: real) {
    match op
    case Eq => a == b
    case Neq => a != b
    case Lt => a < b
    case Lte => a <= b
    case Gt => a > b
    case Gte => a >= b
  }

  predicate TextLess(a: string, b: string) {
    if b == "" then false
    else if a == "" then true
    else a[0] < b[0] || (a[0] == b[0] && TextLess(a[1..], b[1..]))
  }

  predicate CompareTexts(op: CompareOp, a: string, b: string) {
    match op
    case Eq => a == b
    case Neq => a != b
    case Lt => TextLess(a, b)
    case Lte => !TextLess(b, a)
    case Gt => TextLess(b, a)
    case Gte => !TextLess(a, b)
  }

  predicate IsNumber(v: Value) { v.Int? || v.Real? || v.Bool? }

  /** Numbers compare by value; SQL booleans are the numbers 0 and 1. */
  function AsReal(v: Value): real
    requires IsNumber(v)
  {
    match v
    case Int(i) => i as real
    case Real(r) => r
    case Bool(b) => if b then 1.0 else 0.0
  }

  /** SQL comparison: unknown when either side is NULL (or the types do not compare). */
  function Compare(op: CompareOp, a: Value, b: Value): Tri {
    if IsNumber(a) && IsNumber(b) then Tri2(CompareReals(op, AsReal(a), AsReal(b)))
    else if a.Str? && b.Str? then Tri2(CompareTexts(op, a.s, b.s))
    else U
  }

  /** SQL's `v IS TRUE`, which is never unknown. */
  predicate IsTrueValue(v: Value) { v == Bool(true) || v == Int(1) }

  /** Go's float-to-integer conversion. */
  function Truncate(r: real): int {
    if r >= 0.0 then r.Floor else -((-r).Floor)
  }

  predicate Integral(r: real) { r == (r.Floor as real) }

  // Schema.

  datatype FieldType = StringType | IntType | BoolType | TimestampType
  datatype FieldKind = Scalar | BoolColumn | JsonBool | JsonExists | JsonList | VirtualAlias
  datatype Field = Field(kind: FieldKind, typ: FieldType, aliasFor: string, supportsContains: bool,
                         allowed: Option<set<CompareOp>>)
  type Schema = map<string, Field>

  datatype Resolved = Resolved(name: string, field: Field)

  function Lookup(schema: Schema, name: string): Option<Resolved> {
    if name in schema then Some(Resolved(name, schema[name])) else None
  }

  /** Follows one alias; anything else resolves to itself. */
  function ResolveAlias(schema: Schema, name: string): Option<Resolved> {
    if name !in schema then None
    else if schema[name].kind == VirtualAlias then Lookup(schema, schema[name].aliasFor)
    else Lookup(schema, name)
  }

  // The condition tree.

  datatype LogicalOp = LogicalAnd | LogicalOr

  datatype Accessor = GetFullYear | GetMonth | GetDate | GetDayOfMonth | GetDayOfWeek
                    | GetDayOfYear | GetHours | GetMinutes | GetSeconds

  datatype ValueExpr =
    | FieldRef(name: string)
    | Literal(value: Value)
    | Size(arg: ValueExpr)
    | FieldAccessor(field: string, accessor: Accessor)

  datatype ComprehensionKind = Exists | All | ExistsOne

  datatype TagPredicate = Equals(value: string) | TextMatchOf(mode: TextMatchMode, part: string)

  datatype Condition =
    | Logical(op: LogicalOp, left: Condition, right: Condition)
    | Not(expr: Condition)
    | FieldPredicate(field: string)
    | Comparison(lhs: ValueExpr, cmp: CompareOp, rhs: ValueExpr)
    | In(member: ValueExpr, values: seq<ValueExpr>)
    | ElementIn(element: ValueExpr, field: string)
    | TextMatch(field: string, mode: TextMatchMode, value: string)
    | Regex(field: string, pattern: string)
    | ListComprehension(kind: ComprehensionKind, field: string, pred: TagPredicate)
    | Constant(holds: bool)

  // Rows.

  /** A boolean stored in the JSON payload. */
  datatype Flag = Missing | JsonNull | JsonFalse | JsonTrue

  /** A JSON path whose mere presence is queried. */
  datatype PathState = Absent | ExplicitNull | Present

  /** Decoded UTC calendar fields: month and day-of-year count from 1, Sunday is weekday 0. */
  datatype Clock = Clock(year: int, month: int, day: int, weekday: int, yearDay: int,
                         hour: int, minute: int, second: int)

  datatype Row = Row(scalars: map<string, Value>, lists: map<string, seq<string>>,
                     flags: map<string, Flag>, paths: map<string, PathState>, clocks: map<string, Clock>)
  {
    function Scalar(f: string): Value { if f in scalars then scalars[f] else Null }
    function List(f: string): seq<string> { if f in lists then lists[f] else [] }
    function Flag(f: string): Flag { if f in flags then flags[f] else Missing }
    function Path(f: string): PathState { if f in paths then paths[f] else Absent }
    function Clock(f: string): Option<Clock> { if f in clocks then Some(clocks[f]) else None }
  }

  /** Parts of the world the filter only passes values to: case folding and the regex engine. */
  datatype World = World(fold: char -> char, regex: (string, string) -> bool)

  /** CEL's accessor values: month, day-of-month, day-of-week and day-of-year count from 0, date from 1. */
  function CelPart(accessor: Accessor, c: Clock): int {
    match accessor
    case GetFullYear => c.year
    case GetMonth => c.month - 1
    case GetDate => c.day
    case GetDayOfMonth => c.day - 1
    case GetDayOfWeek => c.weekday
    case GetDayOfYear => c.yearDay - 1
    case GetHours => c.hour
    case GetMinutes => c.minute
    case GetSeconds => c.second
  }

  function AccessorValue(accessor: Accessor, clock: Option<Clock>): Value {
    match clock case None => Null case Some(c) => Int(CelPart(accessor, c))
  }

  function LengthOf(v: Value): Value {
    if v.Str? then Int(|v.s|) else Null
  }

  // Meaning of the leaves.

  predicate TagMatches(pred: TagPredicate, tag: string) {
    match pred
    case Equals(v) => tag == v
    case TextMatchOf(mode, part) => TextMatches(mode, tag, part)
  }

  function CountMatching(tags: seq<string>, pred: TagPredicate): nat {
    if tags == [] then 0
    else (if TagMatches(pred, tags[0]) then 1 else 0) + CountMatching(tags[1..], pred)
  }

  /** `all` is false on the empty list. */
  predicate Comprehends(kind: ComprehensionKind, tags: seq<string>, pred: TagPredicate) {
    match kind
    case Exists => exists t :: t in tags && TagMatches(pred, t)
    case All => tags != [] && forall t :: t in tags ==> TagMatches(pred, t)
    case ExistsOne => CountMatching(tags, pred) == 1
  }

  function FoldedMatch(w: World, mode: TextMatchMode, v: Value, value: string): Tri {
    if v.Str? then Tri2(TextMatches(mode, FoldAll(w.fold, v.s), FoldAll(w.fold, value))) else U
  }

  function RegexMatch(regex: (string, string) -> bool, v: Value, pattern: string): Tri {
    if v.Str? then Tri2(regex(v.s, pattern)) else U
  }

  /** `v IN (values)`: false on the empty list. */
  function MemberOf(v: Value, values: seq<Value>): Tri
    decreases |values|
  {
    if values == [] then F else Or3(Compare(Eq, v, values[0]), MemberOf(v, values[1..]))
  }

  function AnyTag(tags: seq<string>, values: seq<ValueExpr>): Tri
    decreases |values|
  {
    if values == [] then F
    else Or3(Tri2(values[0].Literal? && values[0].value.Str? && values[0].value.s in tags), AnyTag(tags, values[1..]))
  }

  function LiteralValues(values: seq<ValueExpr>): seq<Value> {
    if values == [] then []
    else [if values[0].Literal? then values[0].value else Null] + LiteralValues(values[1..])
  }

  // Boolean JSON fields are the one leaf whose dialects differ.

  datatype Dialect = SQLite | MySQL | Postgres

  /** The SQL value the dialect reads for the flag: MySQL sees a JSON null literal, ordered below `false`. */
  function FlagValue(d: Dialect, flag: Flag): Value {
    match flag
    case Missing => Null
    case JsonNull => if d == MySQL then Int(-1) else Null
    case JsonFalse => Int(0)
    case JsonTrue => Int(1)
  }

  /** What a comparison of the flag with `want` yields. Only `hidden` reads an absent flag as false
      everywhere; SQLite reads every flag but `has_task_list` that way. */
  function FlagComparison(d: Dialect, field: string, op: CompareOp, want: bool, flag: Flag): Tri {
    var v := FlagValue(d, flag);
    if d == SQLite && field != "has_task_list" then Compare(op, Bool(v == Int(1)), Bool(want))
    else if d != SQLite && field == "hidden" && v == Null then Compare(op, Int(0), Bool(want))
    else Compare(op, v, Bool(want))
  }

  function PredicateMeaning(kind: FieldKind, row: Row, f: string): Tri {
    match kind
    case BoolColumn => Tri2(IsTrueValue(row.Scalar(f)))
    case JsonBool => Tri2(row.Flag(f) == JsonTrue)
    case _ => Tri2(row.Path(f) == Present)
  }

  function NullTest(op: CompareOp, v: Value): Tri {
    match op case Eq => Tri2(v == Null) case Neq => Tri2(v != Null) case _ => U
  }

  function FieldComparison(kind: FieldKind, d: Dialect, row: Row, f: string, op: CompareOp, v: Value): Tri {
    match kind
    case JsonBool => if v.Bool? then FlagComparison(d, f, op, v.b, row.Flag(f)) else U
    case JsonExists => if v.Bool? then Compare(op, Bool(row.Path(f) == Present), v) else U
    case _ => if v == Null then NullTest(op, row.Scalar(f)) else Compare(op, row.Scalar(f), v)
  }

  /** The field an alias stands for; any other field stands for itself. */
  function Target(schema: Schema, f: string): string {
    if f in schema && schema[f].kind == VirtualAlias then schema[f].aliasFor else f
  }

  function SizeValue(schema: Schema, row: Row, f: string): Value {
    var t := Target(schema, f);
    if t in schema && schema[t].kind == JsonList then Int(|row.List(t)|) else LengthOf(row.Scalar(t))
  }

  function ComparisonMeaning(schema: Schema, d: Dialect, row: Row, lhs: ValueExpr, op: CompareOp, v: Value): Tri {
    match lhs
    case FieldRef(f) => if f in schema then FieldComparison(schema[f].kind, d, row, f, op, v) else U
    case Size(arg) => if arg.FieldRef? then Compare(op, SizeValue(schema, row, arg.name), v) else U
    case FieldAccessor(f, accessor) => Compare(op, AccessorValue(accessor, row.Clock(f)), v)
    case Literal(u) => Compare(op, u, v)
  }

  function InMeaning(schema: Schema, row: Row, member: ValueExpr, values: seq<ValueExpr>): Tri {
    if !member.FieldRef? then U
    else if member.name == "tag" then AnyTag(row.List(Target(schema, "tag")), values)
    else MemberOf(row.Scalar(member.name), LiteralValues(values))
  }

  function LeafMeaning(schema: Schema, d: Dialect, w: World, row: Row, c: Condition): Tri
    requires !c.Logical? && !c.Not?
  {
    match c
    case FieldPredicate(f) => if f in schema then PredicateMeaning(schema[f].kind, row, f) else U
    case Comparison(lhs, op, rhs) => if rhs.Literal? then ComparisonMeaning(schema, d, row, lhs, op, rhs.value) else U
    case In(member, values) => InMeaning(schema, row, member, values)
    case ElementIn(e, f) => Tri2(e.Literal? && e.value.Str? && e.value.s in row.List(f))
    case TextMatch(f, mode, value) => FoldedMatch(w, mode, row.Scalar(f), value)
    case Regex(f, pattern) => RegexMatch(w.regex, row.Scalar(f), pattern)
    case ListComprehension(kind, f, pred) => Tri2(Comprehends(kind, row.List(f), pred))
    case Constant(b) => Tri2(b)
  }

  /** The Kleene value of a condition tree on a row. */
  function Meaning(schema: Schema, d: Dialect, w: World, row: Row, c: Condition): Tri {
    match c
    case Logical(LogicalAnd, l, r) => And3(Meaning(schema, d, w, row, l), Meaning(schema, d, w, row, r))
    case Logical(LogicalOr, l, r) => Or3(Meaning(schema, d, w, row, l), Meaning(schema, d, w, row, r))
    case Not(e) => Not3(Meaning(schema, d, w, row, e))
    case _ => LeafMeaning(schema, d, w, row, c)
  }

  /** When a float literal may be truncated to an integer without changing any comparison with integers. */
  predicate TruncationExact(op: CompareOp, r: real) {
    || Integral(r)
    || (match op
        case Eq => false
        case Neq => false
        case Gt => r >= 0.0
        case Lte => r >= 0.0
        case Lt => r <= 0.0
        case Gte => r <= 0.0)
  }

  /** Truncation rounds down from above zero and up from below it. */
  lemma TruncateBounds(r: real)
    ensures r >= 0.0 ==> (Truncate(r) as real) <= r < (Truncate(r) as real) + 1.0
    ensures r <= 0.0 ==> (Truncate(r) as real) - 1.0 < r <= (Truncate(r) as real)
    ensures Integral(r) <==> (Truncate(r) as real) == r
  {
    var up := (-r).Floor;
    assert (up as real) <= -r < (up as real) + 1.0;
    assert ((-up) as real) == -(up as real);
    if (Truncate(r) as real) == r {
      assert (Truncate(r) as real).Floor == Truncate(r);
    }
  }

  /** Comparing the integer `i` with the truncated literal instead of the literal changes nothing. */
  predicate AgreesAt(op: CompareOp, i: int, r: real) {
    CompareReals(op, i as real, Truncate(r) as real) == CompareReals(op, i as real, r)
  }

  lemma IntegersAgree(op: CompareOp, i: int, r: real)
    requires TruncationExact(op, r)
    ensures AgreesAt(op, i, r)
  {
    TruncateBounds(r);
    var t := Truncate(r);
    if i < t {
      assert (i as real) <= (t as real) - 1.0;
    } else if i > t {
      assert (i as real) >= (t as real) + 1.0;
    }
  }

  lemma TruncationExactIff(op: CompareOp, r: real)
    ensures TruncationExact(op, r) <==> forall i: int :: AgreesAt(op, i, r)
  {
    if TruncationExact(op, r) {
      forall i: int
        ensures AgreesAt(op, i, r)
      {
        IntegersAgree(op, i, r);
      }
    } else {
      TruncateBounds(r);
      assert !AgreesAt(op, Truncate(r), r);
    }
  }

  /** The flag is stored as true or false, or is absent under a field whose renderings treat that alike. */
  predicate FlagAgrees(field: string, op: CompareOp, want: bool, flag: Flag) {
    || flag == JsonTrue || flag == JsonFalse
    || (flag == Missing && (field == "hidden" || field == "has_task_list"))
    || (flag == JsonNull && field == "hidden" && (want || op == Lte || op == Gt))
  }

  /** The boolean JSON leaf: exactly then do all dialects give one answer. */
  lemma FlagDialectsAgreeIff(field: string, op: CompareOp, want: bool, flag: Flag)
    ensures (forall d1, d2 :: FlagComparison(d1, field, op, want, flag) == FlagComparison(d2, field, op, want, flag))
       <==> FlagAgrees(field, op, want, flag)
  {
    var s := FlagComparison(SQLite, field, op, want, flag);
    var m := FlagComparison(MySQL, field, op, want, flag);
    var p := FlagComparison(Postgres, field, op, want, flag);
    assert (forall d1, d2 :: FlagComparison(d1, field, op, want, flag) == FlagComparison(d2, field, op, want, flag))
      <==> s == m == p by {
      if s == m == p {
        forall d1, d2
          ensures FlagComparison(d1, field, op, want, flag) == FlagComparison(d2, field, op, want, flag)
        {
          assert d1 == SQLite || d1 == MySQL || d1 == Postgres;
        }
      }
    }
  }

  /** Every comparison of a boolean JSON field is one on which the dialects agree. */
  predicate FlagsAgree(schema: Schema, row: Row, c: Condition) {
    match c
    case Logical(_, l, r) => FlagsAgree(schema, row, l) && FlagsAgree(schema, row, r)
    case Not(e) => FlagsAgree(schema, row, e)
    case Comparison(FieldRef(f), op, Literal(Bool(want))) =>
      f in schema && schema[f].kind == JsonBool ==> FlagAgrees(f, op, want, row.Flag(f))
    case _ => true
  }

  /** Then the whole tree has one meaning on all dialects. */
  lemma {:induction false} MeaningDialectsAgree(schema: Schema, d1: Dialect, d2: Dialect, w: World, row: Row,
                                                c: Condition)
    requires FlagsAgree(schema, row, c)
    ensures Meaning(schema, d1, w, row, c) == Meaning(schema, d2, w, row, c)
    decreases c
  {
    match c
    case Logical(_, l, r) =>
      MeaningDialectsAgree(schema, d1, d2, w, row, l);
      MeaningDialectsAgree(schema, d1, d2, w, row, r);
    case Not(e) => MeaningDialectsAgree(schema, d1, d2, w, row, e);
    case Comparison(FieldRef(f), op, Literal(Bool(want))) => FlagDialectsAgreeIff(f, op, want, row.Flag(f));
    case _ =>
  }

}
